/**
 * `monotonicUuidv7`: UUIDs of version 7 (section 5.7 of RFC 9562) whose text order is the order of their making, and
 * exactly how far that goes.
 */
module UuidV7 {
  import opened Sorting
  import opened Words

  type Byte = x: int | 0 <= x < 256 witness 0

  function Digit(d: nat): char
    requires d < 16
  {
    if d < 10 then '0' + (d as char) else 'a' + ((d - 10) as char)
  }

  /** The lowest `n` hexadecimal digits of a number, the highest first. */
  function Hex(x: nat, n: nat): (s: string)
    ensures |s| == n
  {
    if n == 0 then [] else Hex(x / 16, n - 1) + [Digit(x % 16)]
  }

  function Pow16(n: nat): (p: nat)
    ensures p >= 1
  {
    if n == 0 then 1 else 16 * Pow16(n - 1)
  }

  /** `Array.from(bytes, (b) => b.toString(16).padStart(2, '0')).join('')`. */
  function BytesHex(bytes: seq<Byte>): (s: string)
    ensures |s| == 2 * |bytes|
  {
    if bytes == [] then [] else Hex(bytes[0], 2) + BytesHex(bytes[1..])
  }

  function Dashed(hex: string): (s: string)
    requires |hex| == 32
    ensures |s| == 36
  {
    hex[..8] + "-" + hex[8..12] + "-" + hex[12..16] + "-" + hex[16..20] + "-" + hex[20..]
  }

  /** The fields of section 5.7: the time, version 7 with the counter in `rand_a`, variant 2 and random bits. */
  function Id(time: nat, sequence: nat, random: seq<Byte>): (s: string)
    requires |random| == 16
    ensures |s| == 36
  {
    Dashed(Hex(time, 12) + Hex(0x7000 + sequence % 4096, 4) + Hex(0x80 + random[8] % 64, 2) + BytesHex(random[9..]))
  }

  lemma FirstDigits(a: nat, v: nat)
    requires 0x7000 <= a < 0x8000 && 0x80 <= v < 0xC0
    ensures Hex(a, 4)[0] == Digit(7) && Hex(v, 2)[0] == Digit(v / 16) && 8 <= v / 16 < 12
  {
    assert a / 16 / 16 / 16 == 7;
    assert Hex(a, 4) == Hex(a / 16, 3) + [Digit(a % 16)];
    assert Hex(a / 16, 3) == Hex(a / 16 / 16, 2) + [Digit(a / 16 % 16)];
    assert Hex(a / 16 / 16, 2) == Hex(7, 1) + [Digit(a / 16 / 16 % 16)];
    assert Hex(7, 1) == Hex(0, 0) + [Digit(7)];
    assert Hex(v, 2) == Hex(v / 16, 1) + [Digit(v % 16)];
    assert Hex(v / 16, 1) == Hex(v / 16 / 16, 0) + [Digit(v / 16 % 16)];
  }

  /** The place of the version is 7 and that of the variant one of 8, 9, a and b. */
  lemma VersionAndVariant(time: nat, sequence: nat, random: seq<Byte>)
    requires |random| == 16
    ensures Id(time, sequence, random)[14] == '7' && Id(time, sequence, random)[19] in "89ab"
    ensures forall i :: 0 <= i < 36 ==> (Id(time, sequence, random)[i] == '-' <== i in {8, 13, 18, 23})
  {
    var r: int := random[8];
    var a: nat, v: nat := 0x7000 + sequence % 4096, 0x80 + r % 64;
    FirstDigits(a, v);
    assert Digit(7) == '7' && Digit(v / 16) in "89ab";
    hide Hex, BytesHex, Digit;
    var hex := Hex(time, 12) + Hex(a, 4) + Hex(v, 2) + BytesHex(random[9..]);
    assert hex[12] == Hex(a, 4)[0] && hex[16] == Hex(v, 2)[0];
    assert Dashed(hex)[14] == hex[12] && Dashed(hex)[19] == hex[16];
  }

  // ----- the generator

  class Generator {
    var lastTime: int
    var sequence: nat

    constructor ()
      ensures lastTime == -1 && sequence == 0
    {
      lastTime, sequence := -1, 0;
    }

    /** One id at the clock's `now`, with the sixteen random bytes it draws. */
    method Next(now: nat, random: seq<Byte>) returns (id: string)
      requires |random| == 16
      modifies this
      ensures lastTime == now && sequence == (if now == old(lastTime) then old(sequence) + 1 else 0)
      ensures id == Id(now, sequence, random)
    {
      sequence := if now == lastTime then sequence + 1 else 0;
      lastTime := now;
      hide *;
      var bytes := Fields(now, sequence, random);
      var hex := BytesHex(bytes[..]);
      id := hex[..8] + "-" + hex[8..12] + "-" + hex[12..16] + "-" + hex[16..20] + "-" + hex[20..];
      IdOf(hex, now, sequence, random);
    }
  }

  lemma IdOf(hex: string, now: nat, sequence: nat, random: seq<Byte>)
    requires |random| == 16
    requires hex == Hex(now, 12) + Hex(0x7000 + sequence % 4096, 4) + Hex(0x80 + random[8] % 64, 2) + BytesHex(random[9..])
    ensures |hex| == 32
    ensures Id(now, sequence, random) == hex[..8] + "-" + hex[8..12] + "-" + hex[12..16] + "-" + hex[16..20] + "-" + hex[20..]
  {
    hide Hex, BytesHex;
  }

  /** The bytes of an id: the time is written from its lowest byte up, over the random bytes. */
  method Fields(now: nat, sequence: nat, random: seq<Byte>) returns (bytes: array<Byte>)
    requires |random| == 16
    ensures fresh(bytes) && bytes.Length == 16
    ensures BytesHex(bytes[..])
         == Hex(now, 12) + Hex(0x7000 + sequence % 4096, 4) + Hex(0x80 + random[8] % 64, 2) + BytesHex(random[9..])
  {
    bytes := WriteTime(now, random);
    hide *;
    ghost var timed := bytes[..];
    MaskedBytes(sequence, bytes[8]);
    bytes[6] := JsOr(0x70, JsAnd(JsSar(sequence, 8), 0x0f));
    bytes[7] := JsAnd(sequence, 0xff);
    bytes[8] := JsOr(JsAnd(bytes[8], 0x3f), 0x80);
    assert bytes[..6] == timed[..6] && timed[6..][2] == random[6..][2] == random[8];
    assert bytes[9..] == timed[6..][3..] && random[9..] == random[6..][3..];
    Assembled(bytes[..], now, sequence, random);
  }

  /** The masks of the version, the counter and the variant. */
  lemma MaskedBytes(sequence: nat, random: Byte)
    ensures JsOr(0x70, JsAnd(JsSar(sequence, 8), 0x0f)) == 0x70 + sequence / 256 % 16
    ensures JsAnd(sequence, 0xff) == sequence % 256
    ensures JsOr(JsAnd(random, 0x3f), 0x80) == 0x80 + random % 64
  {
    assert Pow2(4) == 16;
    assert Pow2(6) == 64;
    assert Pow2(8) == 256;
    hide Pow2, JsAnd, JsOr;
    MaskIsRemainder(sequence, 8);
    MaskIsRemainder(JsSar(sequence, 8), 4);
    MaskIsRemainder(random, 6);
    ShiftedCounter(sequence);
    OrIsSum(7, sequence / 256 % 16, 4);
    OrIsSum(2, random % 64, 6);
  }

  lemma ShiftedCounter(sequence: nat)
    ensures JsSar(sequence, 8) % 16 == sequence / 256 % 16
  {
    assert Pow2(8) == 256;
    var t := ToInt32(sequence);
    var k := sequence / M32 + (if t < 0 then 1 else 0);
    var high, low := sequence / 256, sequence % 256;
    assert sequence == k * M32 + t && sequence == 256 * high + low;
    Remainder(t, 256, high - k * 0x100_0000, low);
    hide ToInt32, Pow2;
    SameRemainder(high, high - k * 0x100_0000, 16, k * 0x10_0000);
  }

  method WriteTime(now: nat, random: seq<Byte>) returns (bytes: array<Byte>)
    requires |random| == 16
    ensures fresh(bytes) && bytes.Length == 16 && bytes[6..] == random[6..] && BytesHex(bytes[..6]) == Hex(now, 12)
  {
    bytes := new Byte[16](i => if 0 <= i < 16 then random[i] else 0);
    var time: int := now;
    var i := 6;
    assert bytes[6..] == random[6..];
    hide Hex, BytesHex;
    NothingWritten(now, bytes[6..6]);
    while i > 0
      invariant 0 <= i <= 6 && time >= 0
      invariant Hex(now, 12) == Hex(time, 2 * i) + BytesHex(bytes[i..6])
      invariant bytes[6..] == random[6..]
    {
      i := i - 1;
      ghost var after := bytes[i + 1..6];
      ByteWritten(now, time, i, after);
      bytes[i] := time % 256;
      assert bytes[i..6] == [bytes[i]] + after;
      time := time / 256;
    }
    NothingLeft(time, bytes[..6]);
    assert bytes[0..6] == bytes[..6];
  }

  lemma NothingWritten(now: nat, none: seq<Byte>)
    requires none == []
    ensures Hex(now, 12) == Hex(now, 12) + BytesHex(none)
  {
    hide Hex;
  }

  lemma NothingLeft(time: nat, bytes: seq<Byte>)
    ensures Hex(time, 0) + BytesHex(bytes) == BytesHex(bytes)
  {
    hide BytesHex;
  }

  /** The lowest byte of the time joins the bytes after it. */
  lemma ByteWritten(now: nat, time: nat, i: nat, after: seq<Byte>)
    requires Hex(now, 12) == Hex(time, 2 * (i + 1)) + BytesHex(after)
    ensures Hex(now, 12) == Hex(time / 256, 2 * i) + BytesHex([time % 256] + after)
  {
    WholeByte(time, 2 * i);
    hide Hex;
    var bytes: seq<Byte> := [time % 256] + after;
    assert bytes[1..] == after;
  }

  lemma WholeByte(x: nat, n: nat)
    ensures Hex(x, n + 2) == Hex(x / 256, n) + Hex(x % 256, 2)
  {
    ByteParts(x);
    var a, b: nat := x / 16, x % 256;
    assert Hex(x, n + 2) == Hex(a, n + 1) + [Digit(x % 16)];
    assert Hex(a, n + 1) == Hex(a / 16, n) + [Digit(a % 16)];
    assert Hex(b, 2) == Hex(b / 16, 1) + [Digit(b % 16)];
    assert Hex(b / 16, 1) == Hex(b / 16 / 16, 0) + [Digit(b / 16 % 16)];
    hide Hex, Digit;
  }

  lemma ByteParts(x: nat)
    ensures x / 16 / 16 == x / 256 && x % 256 / 16 == x / 16 % 16 && x % 256 % 16 == x % 16
  {
  }

  lemma {:induction false} BytesHexJoins(a: seq<Byte>, b: seq<Byte>)
    ensures BytesHex(a + b) == BytesHex(a) + BytesHex(b)
  {
    if a == [] {
      assert a + b == b;
    } else {
      assert (a + b)[1..] == a[1..] + b;
      BytesHexJoins(a[1..], b);
    }
  }

  lemma Assembled(bytes: seq<Byte>, now: nat, sequence: nat, random: seq<Byte>)
    requires |bytes| == |random| == 16 && BytesHex(bytes[..6]) == Hex(now, 12)
    requires bytes[6] == 0x70 + sequence / 256 % 16 && bytes[7] == sequence % 256
    requires bytes[8] == 0x80 + random[8] % 64 && bytes[9..] == random[9..]
    ensures BytesHex(bytes)
         == Hex(now, 12) + Hex(0x7000 + sequence % 4096, 4) + Hex(0x80 + random[8] % 64, 2) + BytesHex(random[9..])
  {
    hide Hex, BytesHex;
    var middle := [bytes[6], bytes[7], bytes[8]];
    assert bytes == bytes[..6] + (middle + bytes[9..]);
    BytesHexJoins(bytes[..6], middle + bytes[9..]);
    BytesHexJoins(middle, bytes[9..]);
    ThreeBytes(bytes[6], bytes[7], bytes[8]);
    VersionBytes(sequence, bytes[6], bytes[7]);
    assert BytesHex(bytes) == Hex(now, 12) + (Hex(bytes[6], 2) + Hex(bytes[7], 2) + Hex(bytes[8], 2) + BytesHex(bytes[9..]));
  }

  lemma VersionBytes(sequence: nat, high: Byte, low: Byte)
    requires high == 0x70 + sequence / 256 % 16 && low == sequence % 256
    ensures Hex(0x7000 + sequence % 4096, 4) == Hex(high, 2) + Hex(low, 2)
  {
    hide Hex;
    WholeByte(0x7000 + sequence % 4096, 2);
    assert (0x7000 + sequence % 4096) / 256 == high && (0x7000 + sequence % 4096) % 256 == low;
  }

  lemma ThreeBytes(a: Byte, b: Byte, c: Byte)
    ensures BytesHex([a, b, c]) == Hex(a, 2) + Hex(b, 2) + Hex(c, 2)
  {
    hide Hex;
    assert [a, b, c][1..] == [b, c] && [b, c][1..] == [c] && [c][1..] == [];
    assert BytesHex([c]) == Hex(c, 2);
    assert BytesHex([b, c]) == Hex(b, 2) + BytesHex([c]);
  }

  // ----- the order of the texts

  /** The texts are of one length and the first place they differ is `k`, where `u` has the lower character. */
  ghost predicate Sooner(u: string, v: string, k: nat) {
    k < |u| == |v| && u[..k] == v[..k] && u[k] < v[k]
  }

  lemma {:induction false} SoonerIsBefore(u: string, v: string, k: nat)
    requires Sooner(u, v, k)
    ensures Before(u, v) && !Before(v, u)
  {
    if k > 0 {
      assert u[0] == u[..k][0] == v[..k][0] == v[0];
      assert u[1..][..k - 1] == u[..k][1..] && v[1..][..k - 1] == v[..k][1..];
      SoonerIsBefore(u[1..], v[1..], k - 1);
    }
    if Before(v, u) {
      AtMostAntisymmetric(u, v);
    }
  }

  lemma {:induction false} HexGrows(x: nat, y: nat, n: nat) returns (k: nat)
    requires x < y < Pow16(n)
    ensures Sooner(Hex(x, n), Hex(y, n), k)
  {
    if x / 16 < y / 16 {
      k := HexGrows(x / 16, y / 16, n - 1);
      assert Hex(x, n)[..k] == Hex(x / 16, n - 1)[..k] && Hex(y, n)[..k] == Hex(y / 16, n - 1)[..k];
    } else {
      k := n - 1;
      assert Hex(x, n)[..k] == Hex(x / 16, k) && Hex(y, n)[..k] == Hex(y / 16, k);
    }
  }

  lemma {:induction false} HexJoins(x: nat, y: nat, n: nat, m: nat)
    requires y < Pow16(m)
    ensures Hex(x * Pow16(m) + y, n + m) == Hex(x, n) + Hex(y, m)
  {
    if m == 0 {
      assert x * Pow16(0) + y == x;
    } else {
      var p := Pow16(m - 1);
      Shifted(x, y, p);
      HexJoins(x, y / 16, n, m - 1);
    }
  }

  lemma Shifted(x: nat, y: nat, p: nat)
    ensures (x * (16 * p) + y) / 16 == x * p + y / 16 && (x * (16 * p) + y) % 16 == y % 16
  {
    assert x * (16 * p) == 16 * (x * p);
  }

  /** What the first sixteen digits of an id stand for. */
  function Rank(time: nat, sequence: nat): nat {
    time * 65536 + 0x7000 + sequence % 4096
  }

  lemma DashedKeepsOrder(u: string, v: string, k: nat)
    requires |u| == |v| == 32 && Sooner(u, v, k)
    ensures Before(Dashed(u), Dashed(v)) && !Before(Dashed(v), Dashed(u))
  {
    var at := DashedAt(k);
    forall i | 0 <= i < k ensures u[i] == v[i] {
      assert u[..k][i] == v[..k][i];
    }
    DashedPlaces(u);
    DashedPlaces(v);
    hide Dashed, Before;
    assert Dashed(u)[..at] == Dashed(v)[..at] by {
      forall i | 0 <= i < at ensures Dashed(u)[i] == Dashed(v)[i] {
        if i !in DASHES {
          var m := Undashed(i);
          assert DashedAt(m) == i && m < k;
        }
      }
    }
    SoonerIsBefore(Dashed(u), Dashed(v), at);
  }

  const DASHES: set<int> := {8, 13, 18, 23}

  /** The place of digit `k` in the dashed text, and back. */
  function DashedAt(k: nat): nat {
    k + (if k < 8 then 0 else if k < 12 then 1 else if k < 16 then 2 else if k < 20 then 3 else 4)
  }

  function Undashed(i: nat): int {
    i - (if i < 8 then 0 else if i < 13 then 1 else if i < 18 then 2 else if i < 23 then 3 else 4)
  }

  lemma DashedPlaces(u: string)
    requires |u| == 32
    ensures forall k: nat {:trigger DashedAt(k)} :: k < 32 ==> DashedAt(k) < 36 && Dashed(u)[DashedAt(k)] == u[k]
    ensures forall i :: i in DASHES ==> Dashed(u)[i] == '-'
  {
  }

  lemma RankDigits(time: nat, sequence: nat)
    ensures Hex(Rank(time, sequence), 16) == Hex(time, 12) + Hex(0x7000 + sequence % 4096, 4)
  {
    PowersOf16();
    HexJoins(time, 0x7000 + sequence % 4096, 12, 4);
  }

  lemma PowersOf16()
    ensures Pow16(4) == 0x1_0000 && Pow16(16) == 0x1_0000_0000_0000_0000
  {
    assert Pow16(4) == 16 * (16 * (16 * (16 * Pow16(0))));
    assert Pow16(8) == 16 * (16 * (16 * (16 * Pow16(4))));
    assert Pow16(12) == 16 * (16 * (16 * (16 * Pow16(8))));
    assert Pow16(16) == 16 * (16 * (16 * (16 * Pow16(12))));
  }

  /** Ids of rising rank rise as text, whatever their random bytes. */
  lemma RankOrders(t0: nat, s0: nat, random0: seq<Byte>, t1: nat, s1: nat, random1: seq<Byte>)
    requires |random0| == |random1| == 16 && t0 < 0x1_0000_0000_0000 && t1 < 0x1_0000_0000_0000
    requires Rank(t0, s0) < Rank(t1, s1)
    ensures Before(Id(t0, s0, random0), Id(t1, s1, random1)) && !Before(Id(t1, s1, random1), Id(t0, s0, random0))
  {
    PowersOf16();
    RankDigits(t0, s0);
    RankDigits(t1, s1);
    var k := HexGrows(Rank(t0, s0), Rank(t1, s1), 16);
    hide Hex, BytesHex, Before, Rank, Dashed;
    var x, y := Hex(Rank(t0, s0), 16), Hex(Rank(t1, s1), 16);
    var u := x + Hex(0x80 + random0[8] % 64, 2) + BytesHex(random0[9..]);
    var v := y + Hex(0x80 + random1[8] % 64, 2) + BytesHex(random1[9..]);
    assert u[..k] == x[..k] && v[..k] == y[..k];
    DashedKeepsOrder(u, v, k);
  }

  // ----- a run of ids

  /** The counter of the id made at the clock's reading `k`: how many before it fell into the same millisecond in a row. */
  function SequenceAt(nows: seq<nat>, k: nat): (s: nat)
    requires k < |nows|
    ensures s <= k
  {
    if k > 0 && nows[k] == nows[k - 1] then SequenceAt(nows, k - 1) + 1 else 0
  }

  function IdAt(nows: seq<nat>, randoms: seq<seq<Byte>>, k: nat): string
    requires k < |nows| == |randoms| && |randoms[k]| == 16
  {
    Id(nows[k], SequenceAt(nows, k), randoms[k])
  }

  /** The ids one generator makes at these readings of its clock. */
  method Issue(nows: seq<nat>, randoms: seq<seq<Byte>>) returns (ids: seq<string>)
    requires |nows| == |randoms| && forall k :: 0 <= k < |randoms| ==> |randoms[k]| == 16
    ensures |ids| == |nows| && forall k :: 0 <= k < |ids| ==> ids[k] == IdAt(nows, randoms, k)
  {
    hide Id;
    var generator := new Generator();
    ids := [];
    for n := 0 to |nows|
      invariant |ids| == n && forall k :: 0 <= k < n ==> ids[k] == IdAt(nows, randoms, k)
      invariant n == 0 ==> generator.lastTime == -1
      invariant n > 0 ==> generator.lastTime == nows[n - 1] && generator.sequence == SequenceAt(nows, n - 1)
    {
      var id := generator.Next(nows[n], randoms[n]);
      ids := ids + [id];
    }
  }

  ghost predicate Rises(nows: seq<nat>, randoms: seq<seq<Byte>>)
    requires |nows| == |randoms| && forall k :: 0 <= k < |randoms| ==> |randoms[k]| == 16
  {
    forall i, j :: 0 <= i < j < |nows| ==> Before(IdAt(nows, randoms, i), IdAt(nows, randoms, j))
  }

  /** The clock never goes back, and no millisecond takes more than 4096 ids. */
  ghost predicate Steady(nows: seq<nat>) {
    && (forall i, j :: 0 <= i < j < |nows| ==> nows[i] <= nows[j])
    && (forall i :: 0 <= i < |nows| - 4096 ==> nows[i] != nows[i + 4096])
  }

  lemma {:induction false} SameMillisecond(nows: seq<nat>, k: nat, back: nat)
    requires k < |nows| && back <= SequenceAt(nows, k)
    ensures nows[k - back] == nows[k] && SequenceAt(nows, k - back) == SequenceAt(nows, k) - back
  {
    if back > 0 {
      SameMillisecond(nows, k, back - 1);
    }
  }

  lemma {:induction false} WholeMillisecond(nows: seq<nat>, i: nat, k: nat)
    requires i <= k < |nows| && forall j :: i <= j <= k ==> nows[j] == nows[k]
    ensures SequenceAt(nows, k) >= k - i
  {
    if i < k {
      WholeMillisecond(nows, i, k - 1);
    }
  }

  lemma {:induction false} RanksRise(nows: seq<nat>, i: nat, j: nat)
    requires Steady(nows) && i < j < |nows|
    ensures Rank(nows[i], SequenceAt(nows, i)) < Rank(nows[j], SequenceAt(nows, j))
  {
    var s := SequenceAt(nows, j);
    if s >= 4096 {
      SameMillisecond(nows, j, 4096);
      assert false;
    }
    assert nows[j - 1] <= nows[j];
    if i < j - 1 {
      RanksRise(nows, i, j - 1);
    }
    OneRankUp(nows[j - 1], SequenceAt(nows, j - 1), nows[j], s);
  }

  lemma OneRankUp(t0: nat, s0: nat, t1: nat, s1: nat)
    requires t0 < t1 || (t0 == t1 && s1 == s0 + 1 && s1 < 4096)
    ensures Rank(t0, s0) < Rank(t1, s1)
  {
  }

  /** The clock that goes back, or the 4097th id of a millisecond: the next id sorts before the last. */
  lemma FirstFall(nows: seq<nat>) returns (k: nat)
    requires !Steady(nows)
    ensures 0 < k < |nows| && Rank(nows[k], SequenceAt(nows, k)) < Rank(nows[k - 1], SequenceAt(nows, k - 1))
  {
    if adjacent: int :| 0 < adjacent < |nows| && nows[adjacent] < nows[adjacent - 1] {
      k := adjacent;
    } else {
      hide SequenceAt, Rank;
      forall i: nat, j: nat | i < j < |nows| ensures nows[i] <= nows[j] {
        NeverBack(nows, i, j);
      }
      var i :| 0 <= i < |nows| - 4096 && nows[i] == nows[i + 4096];
      k := CounterWraps(nows, i);
    }
  }

  /** Somewhere in a millisecond of more than 4096 ids the counter wraps. */
  lemma CounterWraps(nows: seq<nat>, i: nat) returns (k: nat)
    requires i + 4096 < |nows| && forall j :: i <= j <= i + 4096 ==> nows[j] == nows[i + 4096]
    ensures 0 < k < |nows| && Rank(nows[k], SequenceAt(nows, k)) < Rank(nows[k - 1], SequenceAt(nows, k - 1))
  {
    hide SequenceAt;
    WholeMillisecond(nows, i, i + 4096);
    var s := SequenceAt(nows, i + 4096);
    SameMillisecond(nows, i + 4096, s - 4096);
    k := i + 4096 - (s - 4096);
    SameMillisecond(nows, k, 1);
  }

  lemma {:induction false} NeverBack(nows: seq<nat>, i: nat, j: nat)
    requires i < j < |nows| && forall k :: 0 < k < |nows| ==> nows[k - 1] <= nows[k]
    ensures nows[i] <= nows[j]
  {
    if i < j - 1 {
      NeverBack(nows, i, j - 1);
    }
  }

  /** The ids rise as text exactly when the clock never goes back and no millisecond takes more than 4096 of them. */
  lemma RisesIffSteady(nows: seq<nat>, randoms: seq<seq<Byte>>)
    requires |nows| == |randoms| && forall k :: 0 <= k < |randoms| ==> |randoms[k]| == 16
    requires forall k :: 0 <= k < |nows| ==> nows[k] < 0x1_0000_0000_0000
    ensures Rises(nows, randoms) <==> Steady(nows)
  {
    hide Id, Rank, Before, SequenceAt;
    if Steady(nows) {
      hide Steady;
      forall i, j | 0 <= i < j < |nows| ensures Before(IdAt(nows, randoms, i), IdAt(nows, randoms, j)) {
        RanksRise(nows, i, j);
        RankOrders(nows[i], SequenceAt(nows, i), randoms[i], nows[j], SequenceAt(nows, j), randoms[j]);
      }
    } else {
      var k := FirstFall(nows);
      RankOrders(nows[k], SequenceAt(nows, k), randoms[k], nows[k - 1], SequenceAt(nows, k - 1), randoms[k - 1]);
      assert !Before(IdAt(nows, randoms, k - 1), IdAt(nows, randoms, k));
    }
  }
}
