/**
 * `sha256Hex` on the bytes of a text: its padding, its in-place schedule and its rounds on JavaScript numbers compute
 * FIPS 180-4.
 */
module Sha256 {
  import opened Words
  import opened Fips180

  // ----- the functions on numbers

  /** `rotateRight`: a signed number that is the rotation modulo 2^32. */
  function RotateRight(value: int, bits: nat): int
    requires bits <= 32
  {
    JsOr(JsShr(value, bits), JsShl(value, 32 - bits))
  }

  lemma RotateIsRotr(value: int, bits: nat)
    requires bits <= 32
    ensures ToUint32(RotateRight(value, bits)) == Rotr(bits, ToUint32(value)) && IsNumber32(RotateRight(value, bits))
  {
    hide JsOr, JsShr, JsShl, ToUint32, Or, Shr, Shl;
    OperatorsAreWords(value, 0, bits);
    OperatorsAreWords(value, 0, 32 - bits);
    OperatorsAreWords(JsShr(value, bits), JsShl(value, 32 - bits), 0);
  }

  function Xor3(a: int, b: int, c: int): int {
    JsXor(JsXor(a, b), c)
  }

  lemma Xor3IsXor(a: int, b: int, c: int)
    ensures ToUint32(Xor3(a, b, c)) == Xor(Xor(ToUint32(a), ToUint32(b)), ToUint32(c)) && IsNumber32(Xor3(a, b, c))
  {
    hide JsXor, ToUint32, Xor;
    OperatorsAreWords(a, b, 0);
    OperatorsAreWords(JsXor(a, b), c, 0);
  }

  function JsSigma0(x: int): int { Xor3(RotateRight(x, 7), RotateRight(x, 18), JsShr(x, 3)) }

  function JsSigma1(x: int): int { Xor3(RotateRight(x, 17), RotateRight(x, 19), JsShr(x, 10)) }

  function JsSum0(x: int): int { Xor3(RotateRight(x, 2), RotateRight(x, 13), RotateRight(x, 22)) }

  function JsSum1(x: int): int { Xor3(RotateRight(x, 6), RotateRight(x, 11), RotateRight(x, 25)) }

  function JsChoice(e: int, f: int, g: int): int { JsXor(JsAnd(e, f), JsAnd(JsNot(e), g)) }

  function JsMajority(a: int, b: int, c: int): int { Xor3(JsAnd(a, b), JsAnd(a, c), JsAnd(b, c)) }

  /** The functions of section 4.1.2, on numbers that stand for words. */
  lemma SigmasAreFips(x: Word)
    ensures ToUint32(JsSigma0(x)) == SmallSigma0(x) && IsNumber32(JsSigma0(x))
    ensures ToUint32(JsSigma1(x)) == SmallSigma1(x) && IsNumber32(JsSigma1(x))
    ensures ToUint32(JsSum0(x)) == BigSigma0(x) && IsNumber32(JsSum0(x))
    ensures ToUint32(JsSum1(x)) == BigSigma1(x) && IsNumber32(JsSum1(x))
  {
    WordStays(x);
    hide Xor3, RotateRight, JsShr, ToUint32, Xor, Rotr, Shr;
    Rotations(x);
    OperatorsAreWords(x, 0, 3);
    OperatorsAreWords(x, 0, 10);
    Xor3IsXor(RotateRight(x, 7), RotateRight(x, 18), JsShr(x, 3));
    Xor3IsXor(RotateRight(x, 17), RotateRight(x, 19), JsShr(x, 10));
    Xor3IsXor(RotateRight(x, 2), RotateRight(x, 13), RotateRight(x, 22));
    Xor3IsXor(RotateRight(x, 6), RotateRight(x, 11), RotateRight(x, 25));
  }

  lemma Rotations(x: Word)
    ensures forall bits: nat :: bits <= 32 ==> ToUint32(RotateRight(x, bits)) == Rotr(bits, x)
  {
    WordStays(x);
    hide RotateRight, ToUint32, Rotr;
    forall bits: nat | bits <= 32 ensures ToUint32(RotateRight(x, bits)) == Rotr(bits, x) {
      RotateIsRotr(x, bits);
    }
  }

  lemma ChoiceIsFips(e: Word, f: Word, g: Word)
    ensures ToUint32(JsChoice(e, f, g)) == Ch(e, f, g) && IsNumber32(JsChoice(e, f, g))
  {
    WordStays(e);
    WordStays(f);
    WordStays(g);
    hide JsXor, JsAnd, JsNot, ToUint32, Xor, And, Not;
    OperatorsAreWords(e, f, 0);
    OperatorsAreWords(JsNot(e), g, 0);
    OperatorsAreWords(JsAnd(e, f), JsAnd(JsNot(e), g), 0);
  }

  lemma MajorityIsFips(a: Word, b: Word, c: Word)
    ensures ToUint32(JsMajority(a, b, c)) == Maj(a, b, c) && IsNumber32(JsMajority(a, b, c))
  {
    WordStays(a);
    WordStays(b);
    WordStays(c);
    hide Xor3, JsAnd, ToUint32, Xor, And;
    OperatorsAreWords(a, b, 0);
    OperatorsAreWords(a, c, 0);
    OperatorsAreWords(b, c, 0);
    Xor3IsXor(JsAnd(a, b), JsAnd(a, c), JsAnd(b, c));
  }

  // ----- one step of the schedule, one round

  lemma SumOfFour(a: Word, b: int, c: Word, d: int)
    requires IsNumber32(b) && IsNumber32(d)
    ensures -0x20_0000_0000_0000 < a + b + c + d < 0x20_0000_0000_0000
    ensures ToUint32(a + b + c + d) == Add(Add(Add(a, ToUint32(b)), c), ToUint32(d))
  {
    WordStays(a);
    WordStays(c);
    hide ToUint32, Add;
    SumReduces(a, b);
    SumReduces(a + b, c);
    SumReduces(a + b + c, d);
  }

  lemma ScheduleStep(w16: Word, early: Word, w7: Word, late: Word)
    ensures -0x20_0000_0000_0000 < w16 + JsSigma0(early) + w7 + JsSigma1(late) < 0x20_0000_0000_0000
    ensures ToUint32(w16 + JsSigma0(early) + w7 + JsSigma1(late)) == Add(Add(Add(w16, SmallSigma0(early)), w7), SmallSigma1(late))
  {
    hide *;
    SigmasAreFips(early);
    SigmasAreFips(late);
    SumOfFour(w16, JsSigma0(early), w7, JsSigma1(late));
  }

  function JsFirst(r: Registers, k: Word, w: Word): int {
    ToUint32(r.h + JsSum1(r.e) + JsChoice(r.e, r.f, r.g) + k + w)
  }

  function JsSecond(r: Registers): int {
    ToUint32(JsSum0(r.a) + JsMajority(r.a, r.b, r.c))
  }

  lemma FirstSum(h: Word, sum: int, choice: int, k: Word, w: Word)
    requires IsNumber32(sum) && IsNumber32(choice)
    ensures ToUint32(h + sum + choice + k + w) == Add(Add(Add(Add(h, ToUint32(sum)), ToUint32(choice)), k), w)
    ensures -0x20_0000_0000_0000 < h + sum + choice + k + w < 0x20_0000_0000_0000
  {
    WordStays(h);
    WordStays(k);
    WordStays(w);
    hide ToUint32, Add;
    SumOfFive(h, sum, choice, k, w);
  }

  lemma FirstIsT1(r: Registers, k: Word, w: Word)
    ensures JsFirst(r, k, w) == T1(r, k, w)
    ensures -0x20_0000_0000_0000 < r.h + JsSum1(r.e) + JsChoice(r.e, r.f, r.g) + k + w < 0x20_0000_0000_0000
  {
    FirstAndT1(r, k, w);
    hide *;
    SigmasAreFips(r.e);
    ChoiceIsFips(r.e, r.f, r.g);
    FirstSum(r.h, JsSum1(r.e), JsChoice(r.e, r.f, r.g), k, w);
  }

  lemma FirstAndT1(r: Registers, k: Word, w: Word)
    ensures JsFirst(r, k, w) == ToUint32(r.h + JsSum1(r.e) + JsChoice(r.e, r.f, r.g) + k + w)
    ensures T1(r, k, w) == Add(Add(Add(Add(r.h, BigSigma1(r.e)), Ch(r.e, r.f, r.g)), k), w)
  {
    hide JsSum1, JsChoice, BigSigma1, Ch, ToUint32, Add;
  }

  lemma SecondIsT2(r: Registers)
    ensures JsSecond(r) == T2(r)
  {
    SecondAndT2(r);
    hide *;
    SigmasAreFips(r.a);
    MajorityIsFips(r.a, r.b, r.c);
    SumReduces(JsSum0(r.a), JsMajority(r.a, r.b, r.c));
  }

  lemma SecondAndT2(r: Registers)
    ensures JsSecond(r) == ToUint32(JsSum0(r.a) + JsMajority(r.a, r.b, r.c))
    ensures T2(r) == Add(BigSigma0(r.a), Maj(r.a, r.b, r.c))
  {
    hide JsSum0, JsMajority, BigSigma0, Maj, ToUint32, Add;
  }

  /** Two words added and reduced. */
  lemma WordsAdd(x: Word, y: Word)
    ensures ToUint32(x + y) == Add(x, y)
  {
    SumReduces(x, y);
    WordStays(x);
    WordStays(y);
  }

  /** What one turn of the round loop computes. */
  lemma RoundStep(r: Registers, k: Word, w: Word)
    ensures ToUint32(r.d + JsFirst(r, k, w)) == Round(r, k, w).e
    ensures ToUint32(JsFirst(r, k, w) + JsSecond(r)) == Round(r, k, w).a
  {
    hide ToUint32, Add, T1, T2, JsFirst, JsSecond;
    FirstIsT1(r, k, w);
    SecondIsT2(r);
    WordsAdd(r.d, T1(r, k, w));
    WordsAdd(T1(r, k, w), T2(r));
  }

  // ----- the loops

  /** `Math.ceil((n + 9) / 64) * 64`. */
  function PaddedLength(n: nat): nat {
    (n + 9 + 63) / 64 * 64
  }

  /** The padding fills whole blocks, and as few as hold the message, the 0x80 byte and the length. */
  lemma PaddedLengthIsLeast(message: seq<Byte>)
    requires |message| < 0x2000_0000_0000_0000
    ensures PaddedLength(|message|) == |Pad(message)|
    ensures PaddedLength(|message|) % 64 == 0 && PaddedLength(|message|) >= |message| + 9
    ensures forall m :: m % 64 == 0 && m >= |message| + 9 ==> PaddedLength(|message|) <= m
  {
    assert |Pad(message)| == |message| + 1 + ZeroCount(|message|) + 8;
    hide Pad;
    PaddedIs(|message|);
    forall m | m % 64 == 0 && m >= |message| + 9 ensures PaddedLength(|message|) <= m {
      LeastMultiple(|message|, m);
    }
  }

  lemma PaddedIs(n: nat)
    ensures PaddedLength(n) % 64 == 0 && n + 9 <= PaddedLength(n) < n + 9 + 64
    ensures PaddedLength(n) == n + 1 + ZeroCount(n) + 8
  {
    var p := PaddedLength(n);
    assert p % 64 == 0 && n + 9 <= p < n + 9 + 64;
    hide PaddedLength;
    SameMultiple(p, n + 1 + ZeroCount(n) + 8, n);
  }

  lemma SameMultiple(p: nat, q: nat, n: nat)
    requires p % 64 == 0 && n + 9 <= p < n + 9 + 64 && q % 64 == 0 && n + 9 <= q < n + 9 + 64
    ensures p == q
  {
  }

  lemma LeastMultiple(n: nat, m: int)
    requires m % 64 == 0 && m >= n + 9
    ensures PaddedLength(n) <= m
  {
    var q := m / 64;
    assert m == 64 * q && (n + 72) / 64 <= q;
  }

  /** `DataView.setUint32`, big-endian. */
  method SetUint32(bytes: array<Byte>, offset: nat, value: int)
    requires offset + 4 <= bytes.Length
    modifies bytes
    ensures bytes[..] == old(bytes[..offset]) + BigEndian(ToUint32(value)) + old(bytes[offset + 4..])
  {
    var word := ToUint32(value);
    bytes[offset] := LowByte(word / 0x100_0000);
    bytes[offset + 1] := LowByte(word / 0x1_0000);
    bytes[offset + 2] := LowByte(word / 0x100);
    bytes[offset + 3] := LowByte(word);
  }

  method PadMessage(message: seq<Byte>) returns (padded: array<Byte>)
    requires |message| < 0x2000_0000_0000_0000
    ensures fresh(padded) && padded[..] == Pad(message)
  {
    hide Pad, BigEndian, ToUint32, PaddedLength;
    padded := PlaceMessage(message);
    ghost var front := message + [0x80] + Zeros(ZeroCount(|message|));
    var bitLength := |message| * 8;
    LengthWords(bitLength);
    hide Zeros, ZeroCount;
    SetUint32(padded, padded.Length - 8, bitLength / M32);
    assert padded[..] == front + BigEndian(bitLength / M32) + Zeros(8)[4..];
    SetUint32(padded, padded.Length - 4, bitLength);
    assert padded[..] == front + BigEndian(bitLength / M32) + BigEndian(bitLength % M32);
    PadIs(message);
  }

  lemma LengthWords(bitLength: nat)
    requires bitLength < 0x1_0000_0000_0000_0000
    ensures IsWord(bitLength / M32) && ToUint32(bitLength / M32) == bitLength / M32 && ToUint32(bitLength) == bitLength % M32
    ensures |Zeros(8)| == 8
  {
    WordStays(bitLength / M32);
  }

  lemma PadIs(message: seq<Byte>)
    requires |message| < 0x2000_0000_0000_0000
    ensures var bits := |message| * 8;
            Pad(message) == message + [0x80] + Zeros(ZeroCount(|message|)) + BigEndian(bits / M32) + BigEndian(bits % M32)
  {
    hide BigEndian, Zeros, ZeroCount;
  }

  /** A zeroed array of whole blocks with the message and its 0x80 byte. */
  method PlaceMessage(message: seq<Byte>) returns (padded: array<Byte>)
    requires |message| < 0x2000_0000_0000_0000
    ensures fresh(padded) && padded[..] == message + [0x80] + Zeros(ZeroCount(|message|)) + Zeros(8)
  {
    PaddedLengthIsLeast(message);
    var n := |message|;
    padded := new Byte[PaddedLength(n)](_ => 0);
    assert padded.Length == n + 1 + ZeroCount(n) + 8;
    hide PaddedLength, ZeroCount, Pad, BigEndian;
    forall i | 0 <= i < n {
      padded[i] := message[i];
    }
    padded[n] := 0x80;
  }

  method FillSchedule(padded: array<Byte>, offset: nat, schedule: array<Word>)
    requires offset + 64 <= padded.Length && schedule.Length == 64
    modifies schedule
    ensures padded[..] == old(padded[..])
    ensures Filled(schedule[..], padded[..], offset, 64)
  {
    ghost var bytes := padded[..];
    ReadBlock(padded, offset, schedule);
    hide *;
    for index := 16 to 64
      invariant padded[..] == bytes && Filled(schedule[..], bytes, offset, index)
    {
      ghost var was := schedule[..];
      var word := NextWord(schedule, bytes, offset, index);
      schedule[index] := word;
      FilledNext(was, schedule[..], bytes, offset, index);
    }
  }

  /** The first `count` words of the schedule are those of section 6.2.2. */
  ghost predicate Filled(schedule: seq<Word>, bytes: seq<Byte>, offset: nat, count: nat) {
    offset + 64 <= |bytes| && count <= 64 == |schedule| && forall t: nat :: t < count ==> schedule[t] == Schedule(bytes, offset, t)
  }

  lemma FilledNext(was: seq<Word>, now: seq<Word>, bytes: seq<Byte>, offset: nat, index: nat)
    requires index < 64 && Filled(was, bytes, offset, index)
    requires now == was[index := Schedule(bytes, offset, index)]
    ensures Filled(now, bytes, offset, index + 1)
  {
    hide Schedule;
  }

  method ReadBlock(padded: array<Byte>, offset: nat, schedule: array<Word>)
    requires offset + 64 <= padded.Length && schedule.Length == 64
    modifies schedule
    ensures padded[..] == old(padded[..])
    ensures Filled(schedule[..], padded[..], offset, 16)
  {
    ghost var bytes := padded[..];
    for index := 0 to 16
      invariant padded[..] == bytes && Filled(schedule[..], bytes, offset, index)
    {
      ghost var was := schedule[..];
      schedule[index] := WordAt(padded[..], offset + index * 4);
      hide WordAt;
      FilledNext(was, schedule[..], bytes, offset, index);
    }
  }

  method NextWord(schedule: array<Word>, ghost bytes: seq<Byte>, ghost offset: nat, index: nat) returns (word: Word)
    requires 16 <= index < 64 && schedule.Length == 64 && Filled(schedule[..], bytes, offset, index)
    ensures Filled(schedule[..], bytes, offset, index) && word == Schedule(bytes, offset, index)
  {
    hide JsSigma0, JsSigma1, Schedule, WordAt;
    FilledAt(schedule[..], bytes, offset, index);
    hide *;
    word := ToUint32(schedule[index - 16] + JsSigma0(schedule[index - 15]) + schedule[index - 7] + JsSigma1(schedule[index - 2]));
  }

  lemma FilledAt(schedule: seq<Word>, bytes: seq<Byte>, offset: nat, index: nat)
    requires 16 <= index < 64 && Filled(schedule, bytes, offset, index)
    ensures |schedule| == 64 && offset + 64 <= |bytes|
    ensures Schedule(bytes, offset, index)
         == ToUint32(schedule[index - 16] + JsSigma0(schedule[index - 15]) + schedule[index - 7] + JsSigma1(schedule[index - 2]))
  {
    hide JsSigma0, JsSigma1, Schedule, ToUint32;
    ScheduleIs(bytes, offset, index);
  }

  lemma ScheduleIs(bytes: seq<Byte>, offset: nat, t: nat)
    requires offset + 64 <= |bytes| && 16 <= t < 64
    ensures Schedule(bytes, offset, t)
         == ToUint32(Schedule(bytes, offset, t - 16) + JsSigma0(Schedule(bytes, offset, t - 15)) + Schedule(bytes, offset, t - 7)
                     + JsSigma1(Schedule(bytes, offset, t - 2)))
  {
    hide JsSigma0, JsSigma1, SmallSigma0, SmallSigma1, ToUint32, Add;
    ScheduleStep(Schedule(bytes, offset, t - 16), Schedule(bytes, offset, t - 15), Schedule(bytes, offset, t - 7), Schedule(bytes, offset, t - 2));
  }

  method RunRounds(start: Registers, schedule: array<Word>, ghost bytes: seq<Byte>, ghost offset: nat) returns (end: Registers)
    requires offset + 64 <= |bytes| && schedule.Length == 64
    requires Filled(schedule[..], bytes, offset, 64)
    ensures end == Rounds(start, bytes, offset, 64)
  {
    var a: Word, b: Word, c: Word, d: Word, e: Word, f: Word, g: Word, h: Word
      := start.a, start.b, start.c, start.d, start.e, start.f, start.g, start.h;
    hide JsSum0, JsSum1, JsChoice, JsMajority, JsFirst, JsSecond, ToUint32, Add, Schedule, Round;
    for index := 0 to 64
      invariant Registers(a, b, c, d, e, f, g, h) == Rounds(start, bytes, offset, index)
    {
      ghost var r := Registers(a, b, c, d, e, f, g, h);
      RoundIs(r, K[index], schedule[index]);
      var first := ToUint32(h + JsSum1(e) + JsChoice(e, f, g) + K[index] + schedule[index]);
      var second := ToUint32(JsSum0(a) + JsMajority(a, b, c));
      h := g;
      g := f;
      f := e;
      e := ToUint32(d + first);
      d := c;
      c := b;
      b := a;
      a := ToUint32(first + second);
    }
    end := Registers(a, b, c, d, e, f, g, h);
  }

  /** The working variables after one turn are those of section 6.2.2. */
  lemma RoundIs(r: Registers, k: Word, w: Word)
    ensures var first := ToUint32(r.h + JsSum1(r.e) + JsChoice(r.e, r.f, r.g) + k + w);
            var second := ToUint32(JsSum0(r.a) + JsMajority(r.a, r.b, r.c));
            Round(r, k, w) == Registers(ToUint32(first + second), r.a, r.b, r.c, ToUint32(r.d + first), r.e, r.f, r.g)
  {
    hide JsSum0, JsSum1, JsChoice, JsMajority, ToUint32, Add, T1, T2;
    RoundStep(r, k, w);
  }

  method AddRound(hash: array<Word>, round: seq<Word>)
    requires hash.Length == 8 && |round| == 8
    modifies hash
    ensures forall i :: 0 <= i < 8 ==> hash[i] == Add(old(hash[i]), round[i])
  {
    for index := 0 to 8
      invariant forall i :: 0 <= i < index ==> hash[i] == Add(old(hash[i]), round[i])
      invariant forall i :: index <= i < 8 ==> hash[i] == old(hash[i])
    {
      var was: int, more: int := hash[index], round[index];
      WordsAdd(was, more);
      hash[index] := ToUint32(was + more);
    }
  }

  method HashPadded(padded: array<Byte>) returns (words: seq<Word>)
    requires padded.Length % 64 == 0
    ensures padded[..] == old(padded[..]) && words == Blocks(padded[..], padded.Length / 64)
  {
    ghost var bytes := padded[..];
    var hash := new Word[8](i => if 0 <= i < 8 then H0[i] else 0);
    var schedule := new Word[64](_ => 0);
    assert hash[..] == H0;
    for block := 0 to padded.Length / 64
      invariant padded[..] == bytes
      invariant hash[..] == Blocks(bytes, block)
    {
      hide Compress;
      CompressBlock(hash, schedule, padded, 64 * block);
    }
    words := hash[..];
  }

  method CompressBlock(hash: array<Word>, schedule: array<Word>, padded: array<Byte>, offset: nat)
    requires hash.Length == 8 && schedule.Length == 64 && hash != schedule && offset + 64 <= padded.Length
    modifies hash, schedule
    ensures padded[..] == old(padded[..]) && hash[..] == Compress(old(hash[..]), padded[..], offset)
  {
    hide Rounds, Schedule;
    ghost var bytes := padded[..];
    ghost var was := hash[..];
    FillSchedule(padded, offset, schedule);
    var end := RunRounds(RegistersOf(hash[..]), schedule, bytes, offset);
    assert hash[..] == was;
    AddRound(hash, Listed(end));
    assert hash[..] == Compress(was, bytes, offset);
  }

  /** `word.toString(16).padStart(8, '0')`. */
  method HexWord(word: Word) returns (text: string)
    ensures text == HexDigits(word, 8)
  {
    var rest: int := word;
    text := "";
    for n := 0 to 8
      invariant IsWord(rest)
      invariant HexDigits(word, 8) == HexDigits(rest, 8 - n) + text
    {
      assert HexDigits(rest / 16, 8 - n - 1) + [HEX[rest % 16]] + text == HexDigits(rest / 16, 8 - n - 1) + ([HEX[rest % 16]] + text);
      text := [HEX[rest % 16]] + text;
      rest := rest / 16;
    }
  }

  /** The SHA-256 of the bytes, as 64 lower-case hexadecimal digits. */
  method Sha256Hex(message: seq<Byte>) returns (text: string)
    requires |message| < 0x2000_0000_0000_0000
    ensures text == Hash(message)
  {
    hide *;
    var padded := PadMessage(message);
    PaddedLengthIsLeast(message);
    assert padded.Length == |Pad(message)|;
    var words := HashPadded(padded);
    text := HexWords(words);
    HashIsText(message, words);
  }

  lemma HashIsText(message: seq<Byte>, words: seq<Word>)
    requires |message| < 0x2000_0000_0000_0000 && |Pad(message)| % 64 == 0 && words == Blocks(Pad(message), |Pad(message)| / 64)
    ensures HexText(words) == Hash(message)
  {
    hide Blocks, Pad, HexText;
  }

  method HexWords(words: seq<Word>) returns (text: string)
    ensures text == HexText(words)
  {
    text := "";
    for i := 0 to |words|
      invariant text == HexText(words[..i])
    {
      var digits := HexWord(words[i]);
      hide HexDigits;
      assert words[..i + 1][..i] == words[..i];
      text := text + digits;
    }
    assert words[..|words|] == words;
  }

  predicate LowerHex(s: string) {
    forall i :: 0 <= i < |s| ==> s[i] in HEX
  }

  lemma {:induction false} DigitsAreHex(x: int, n: nat)
    requires IsWord(x)
    ensures LowerHex(HexDigits(x, n))
  {
    if n > 0 {
      DigitsAreHex(x / 16, n - 1);
    }
  }

  lemma {:induction false} TextIsHex(words: seq<Word>)
    ensures |HexText(words)| == 8 * |words| && LowerHex(HexText(words))
  {
    if words != [] {
      TextIsHex(words[..|words| - 1]);
      DigitsAreHex(words[|words| - 1], 8);
      hide HexDigits;
    }
  }

  /** A hash is 64 lower-case hexadecimal digits. */
  lemma HashIsHex(message: seq<Byte>)
    requires |message| < 0x2000_0000_0000_0000
    ensures |Hash(message)| == 64 && LowerHex(Hash(message))
  {
    hide HashWords, HexText, Pad;
    TextIsHex(HashWords(message));
  }
}
