/**
 * A table's hash: folded row by row over keyset pages, each resuming after the last rowid, it is the hash of one pass
 * however the table was cut into pages, and two tables of one hash hold the same rows unless the digest collides.
 */
module DumpHash {
  import opened Wrappers
  import opened Seqs
  import opened RowCodec
  import Fips180
  import Sha256

  /** `SHA256_HEX`: 64 lower-case hexadecimal digits. */
  predicate IsHash(s: string) {
    |s| == 64 && forall i :: 0 <= i < 64 ==> '0' <= s[i] <= '9' || 'a' <= s[i] <= 'f'
  }

  /** The digest of a text, as 64 hexadecimal digits; the fold is over any such function. */
  type Digest = string -> string

  ghost predicate GivesHashes(digest: Digest) {
    forall text :: IsHash(digest(text))
  }

  /** `sha256Hex` over an encoding of texts as bytes; no text a program holds reaches the length the hash is defined for. */
  function ShaDigest(encode: string -> seq<Fips180.Byte>): Digest {
    text => if |encode(text)| < 0x2000_0000_0000_0000 then Fips180.Hash(encode(text)) else Fips180.Hash([])
  }

  /** The text of every SHA-256 is a hash the fold accepts, that of no row at all included. */
  lemma ShaGivesHashes(encode: string -> seq<Fips180.Byte>)
    ensures GivesHashes(ShaDigest(encode)) && IsHash(Fips180.Hash([]))
  {
    hide Fips180.Hash, IsHash;
    ShaIsHash([]);
    forall text ensures IsHash(ShaDigest(encode)(text)) {
      if |encode(text)| < 0x2000_0000_0000_0000 {
        ShaIsHash(encode(text));
      }
    }
  }

  lemma ShaIsHash(message: seq<Fips180.Byte>)
    requires |message| < 0x2000_0000_0000_0000
    ensures IsHash(Fips180.Hash(message))
  {
    hide Fips180.Hash;
    Sha256.HashIsHex(message);
    LowerHexIsHash(Fips180.Hash(message));
  }

  lemma LowerHexIsHash(s: string)
    requires |s| == 64 && Sha256.LowerHex(s)
    ensures IsHash(s)
  {
    forall i | 0 <= i < 64 ensures '0' <= s[i] <= '9' || 'a' <= s[i] <= 'f' {
      assert s[i] in Fips180.HEX;
    }
  }

  function StepHash(digest: Digest, hash: string, row: string): string {
    digest(hash + "\n" + row)
  }

  /** The hash after the rows, from the first to the last. */
  function Fold(digest: Digest, hash: string, rows: seq<string>): string {
    if rows == [] then hash else StepHash(digest, Fold(digest, hash, rows[..|rows| - 1]), rows[|rows| - 1])
  }

  /** `foldOpsTableHash`; `None` is its throw. */
  method FoldTableHash(digest: Digest, hash: string, rows: seq<string>) returns (folded: Option<string>)
    ensures folded == if IsHash(hash) then Some(Fold(digest, hash, rows)) else None
  {
    if !IsHash(hash) {
      return None;
    }
    var current := hash;
    for i := 0 to |rows|
      invariant current == Fold(digest, hash, rows[..i])
    {
      assert rows[..i + 1][..i] == rows[..i];
      current := digest(current + "\n" + rows[i]);
    }
    assert rows[..|rows|] == rows;
    folded := Some(current);
  }

  /** Folding goes on where it stopped. */
  lemma {:induction false} FoldResumes(digest: Digest, hash: string, a: seq<string>, b: seq<string>)
    ensures Fold(digest, Fold(digest, hash, a), b) == Fold(digest, hash, a + b)
  {
    if b == [] {
      assert a + b == a;
    } else {
      FoldResumes(digest, hash, a, b[..|b| - 1]);
      assert (a + b)[..|a + b| - 1] == a + b[..|b| - 1];
    }
  }

  lemma FoldIsHash(digest: Digest, hash: string, rows: seq<string>)
    requires GivesHashes(digest) && IsHash(hash)
    ensures IsHash(Fold(digest, hash, rows))
  {
  }

  // ----- keyset pages

  /** A stored row: its rowid and its canonical encoding. */
  datatype Entry = Entry(rowid: int, text: string)

  /** A table in keyset order. */
  predicate Ascending(rows: seq<Entry>) {
    forall i, j :: 0 <= i < j < |rows| ==> rows[i].rowid < rows[j].rowid
  }

  function Texts(rows: seq<Entry>): (r: seq<string>)
    ensures |r| == |rows|
  {
    Map((e: Entry) => e.text, rows)
  }

  predicate IsAfter(e: Entry, after: Option<int>) {
    after.None? || e.rowid > after.value
  }

  function Admits(after: Option<int>): Entry -> bool {
    e => IsAfter(e, after)
  }

  /** `WHERE keyset > after ORDER BY keyset LIMIT limit` over a table in keyset order. */
  function Page(rows: seq<Entry>, after: Option<int>, limit: nat): seq<Entry> {
    var rest := Filter(Admits(after), rows);
    if |rest| <= limit then rest else rest[..limit]
  }

  /** Where a reader stands: after which rowid, how many rows it read and their hash. */
  datatype Cursor = Cursor(after: Option<int>, rows: nat, hash: string)

  /** The reader has read exactly the first `n` rows. */
  ghost predicate Covers(digest: Digest, start: string, rows: seq<Entry>, cursor: Cursor, n: nat) {
    && n <= |rows|
    && cursor.after == (if n == 0 then None else Some(rows[n - 1].rowid))
    && cursor.rows == n
    && cursor.hash == Fold(digest, start, Texts(rows[..n]))
  }

  lemma {:induction false} FilterAll<T>(keep: T -> bool, s: seq<T>, all: bool)
    requires forall x :: x in s ==> keep(x) == all
    ensures Filter(keep, s) == if all then s else []
  {
    if s != [] {
      FilterAll(keep, s[1..], all);
      assert s == [s[0]] + s[1..];
      assert s[0] in s;
    }
  }

  /** The page after the `n`th row starts with the next one: no row is read twice and none is passed over. */
  lemma PageIsNext(rows: seq<Entry>, n: nat, limit: nat)
    requires Ascending(rows) && n <= |rows|
    ensures var after := if n == 0 then None else Some(rows[n - 1].rowid);
            Page(rows, after, limit) == rows[n..if n + limit < |rows| then n + limit else |rows|]
  {
    RestIs(rows, n, if n == 0 then None else Some(rows[n - 1].rowid));
    hide Filter, Ascending, Admits;
  }

  lemma RestIs(rows: seq<Entry>, n: nat, after: Option<int>)
    requires Ascending(rows) && n <= |rows| && after == (if n == 0 then None else Some(rows[n - 1].rowid))
    ensures Filter(Admits(after), rows) == rows[n..]
  {
    hide *;
    SidesOf(rows, n, after);
    FilterSplits(Admits(after), rows[..n], rows[n..]);
    FilterAll(Admits(after), rows[..n], false);
    FilterAll(Admits(after), rows[n..], true);
    assert rows == rows[..n] + rows[n..];
    assert [] + rows[n..] == rows[n..];
  }

  lemma SidesOf(rows: seq<Entry>, n: nat, after: Option<int>)
    requires Ascending(rows) && n <= |rows| && after == (if n == 0 then None else Some(rows[n - 1].rowid))
    ensures forall e :: e in rows[..n] ==> Admits(after)(e) == false
    ensures forall e :: e in rows[n..] ==> Admits(after)(e) == true
  {
  }

  lemma TextsJoin(rows: seq<Entry>, n: nat, end: nat)
    requires n <= end <= |rows|
    ensures Texts(rows[..n]) + Texts(rows[n..end]) == Texts(rows[..end])
  {
  }

  /** A reader that reads one page of at most `limit` rows and folds it. */
  method ReadNext(digest: Digest, rows: seq<Entry>, cursor: Cursor, limit: nat, ghost start: string, ghost n: nat)
    returns (next: Cursor, whole: bool)
    requires GivesHashes(digest) && IsHash(start) && Ascending(rows) && Covers(digest, start, rows, cursor, n)
    ensures Covers(digest, start, rows, next, if n + limit < |rows| then n + limit else |rows|)
    ensures whole <==> n + limit <= |rows|
  {
    hide *;
    var page := Page(rows, cursor.after, limit);
    CoveredPage(digest, start, rows, cursor, n, limit);
    var folded := FoldTableHash(digest, cursor.hash, Texts(page));
    next := Cursor(if page == [] then cursor.after else Some(page[|page| - 1].rowid), cursor.rows + |page|, folded.value);
    whole := |page| >= limit;
    CoversNext(digest, start, rows, cursor, n, if n + limit < |rows| then n + limit else |rows|);
  }

  lemma CoveredPage(digest: Digest, start: string, rows: seq<Entry>, cursor: Cursor, n: nat, limit: nat)
    requires GivesHashes(digest) && IsHash(start) && Ascending(rows) && Covers(digest, start, rows, cursor, n)
    ensures n <= |rows| && IsHash(cursor.hash)
    ensures Page(rows, cursor.after, limit) == rows[n..if n + limit < |rows| then n + limit else |rows|]
  {
    PageIsNext(rows, n, limit);
    FoldIsHash(digest, start, Texts(rows[..n]));
    hide Page, Fold, Texts, IsHash, GivesHashes, Ascending;
  }

  lemma CoversNext(digest: Digest, start: string, rows: seq<Entry>, cursor: Cursor, n: nat, end: nat)
    requires n <= end <= |rows| && Covers(digest, start, rows, cursor, n)
    ensures var page := rows[n..end];
            Covers(digest, start, rows,
                   Cursor(if page == [] then cursor.after else Some(page[|page| - 1].rowid), cursor.rows + |page|, Fold(digest, cursor.hash, Texts(page))),
                   end)
  {
    TextsJoin(rows, n, end);
    hide Fold, Texts;
    FoldResumes(digest, start, Texts(rows[..n]), Texts(rows[n..end]));
    assert n < end ==> rows[n..end][end - n - 1] == rows[end - 1];
  }

  /**
   * Reads a table from its start by pages of any sizes, until one is short. The count and the hash are those of one
   * pass over all its rows.
   */
  method ReadTable(digest: Digest, rows: seq<Entry>, empty: string, limits: nat -> nat) returns (count: nat, hash: string)
    requires GivesHashes(digest) && IsHash(empty) && Ascending(rows) && forall k :: limits(k) >= 1
    ensures count == |rows| && hash == Fold(digest, empty, Texts(rows))
  {
    hide GivesHashes, IsHash, Ascending, Fold, Texts;
    var cursor := Cursor(None, 0, empty);
    NothingFolded(digest, empty, rows);
    var n, pages := 0, 0;
    var whole := true;
    while whole
      invariant Covers(digest, empty, rows, cursor, n)
      invariant !whole ==> n == |rows|
      decreases |rows| - n, if whole then 1 else 0
    {
      cursor, whole := ReadNext(digest, rows, cursor, limits(pages), empty, n);
      n := cursor.rows;
      pages := pages + 1;
    }
    assert rows[..n] == rows;
    count, hash := cursor.rows, cursor.hash;
  }

  lemma NothingFolded(digest: Digest, empty: string, rows: seq<Entry>)
    ensures Fold(digest, empty, Texts(rows[..0])) == empty
  {
    assert Texts(rows[..0]) == [];
  }

  // ----- what a hash tells

  /** The text digested for row `i`. */
  function Digested(digest: Digest, hash: string, rows: seq<string>, i: nat): string
    requires i < |rows|
  {
    Fold(digest, hash, rows[..i]) + "\n" + rows[i]
  }

  /** At some row the two folds digest different texts to one hash. */
  ghost predicate Collides(digest: Digest, hash: string, a: seq<string>, b: seq<string>) {
    exists i :: 0 <= i < |a| && i < |b| && CollidesAt(digest, hash, a, b, i)
  }

  ghost predicate CollidesAt(digest: Digest, hash: string, a: seq<string>, b: seq<string>, i: nat)
    requires i < |a| && i < |b|
  {
    Digested(digest, hash, a, i) != Digested(digest, hash, b, i) && digest(Digested(digest, hash, a, i)) == digest(Digested(digest, hash, b, i))
  }

  /** As many rows with the same hash are the same rows in the same order, unless folding these very rows collides. */
  lemma {:induction false} HashTellsRows(digest: Digest, hash: string, a: seq<string>, b: seq<string>)
    requires GivesHashes(digest) && IsHash(hash) && |a| == |b| && Fold(digest, hash, a) == Fold(digest, hash, b)
    ensures a == b || Collides(digest, hash, a, b)
  {
    if a != [] {
      var last := |a| - 1;
      if !CollidesAt(digest, hash, a, b, last) {
        SameStep(digest, hash, a, b);
        HashTellsRows(digest, hash, a[..last], b[..last]);
        hide CollidesAt, Fold;
        if a[..last] == b[..last] {
          assert a == a[..last] + [a[last]] && b == b[..last] + [b[last]];
        } else {
          CollidesSooner(digest, hash, a, b);
        }
      }
    }
  }

  lemma SameStep(digest: Digest, hash: string, a: seq<string>, b: seq<string>)
    requires GivesHashes(digest) && IsHash(hash) && |a| == |b| > 0 && Fold(digest, hash, a) == Fold(digest, hash, b)
    requires !CollidesAt(digest, hash, a, b, |a| - 1)
    ensures Fold(digest, hash, a[..|a| - 1]) == Fold(digest, hash, b[..|b| - 1]) && a[|a| - 1] == b[|b| - 1]
  {
    var last := |a| - 1;
    var x, y := Fold(digest, hash, a[..last]), Fold(digest, hash, b[..last]);
    FoldIsHash(digest, hash, a[..last]);
    FoldIsHash(digest, hash, b[..last]);
    hide Fold;
    assert x + "\n" + a[last] == y + "\n" + b[last];
    SameParts(x, y, a[last], b[last]);
  }

  lemma SameParts(x: string, y: string, r: string, s: string)
    requires |x| == |y| && x + "\n" + r == y + "\n" + s
    ensures x == y && r == s
  {
    var p, q := x + "\n" + r, y + "\n" + s;
    assert p[..|x|] == x && q[..|y|] == y && p[|x| + 1..] == r && q[|y| + 1..] == s;
  }

  lemma CollidesSooner(digest: Digest, hash: string, a: seq<string>, b: seq<string>)
    requires |a| == |b| > 0 && Collides(digest, hash, a[..|a| - 1], b[..|b| - 1])
    ensures Collides(digest, hash, a, b)
  {
    var last := |a| - 1;
    var i :| 0 <= i < last && CollidesAt(digest, hash, a[..last], b[..last], i);
    hide Fold;
    assert a[..last][..i] == a[..i] && b[..last][..i] == b[..i];
    assert CollidesAt(digest, hash, a, b, i);
  }

  /** The canonical encodings of a table's rows. */
  function Encoded<D(==)>(ds: Doubles<D>, rows: seq<seq<Value<D>>>): (r: seq<string>)
    requires forall i :: 0 <= i < |rows| ==> ValidRow(ds, rows[i])
    ensures |r| == |rows|
  {
    seq(|rows|, i requires 0 <= i < |rows| => EncodeRow(ds, rows[i]).value)
  }

  /** A table that verifies against a dump's count and hash holds the dump's rows, value for value. */
  lemma VerifiedIsSame<D(!new)>(ds: Doubles<D>, digest: Digest, empty: string, source: seq<seq<Value<D>>>, loaded: seq<seq<Value<D>>>)
    requires Faithful(ds) && GivesHashes(digest) && IsHash(empty)
    requires forall i :: 0 <= i < |source| ==> ValidRow(ds, source[i])
    requires forall i :: 0 <= i < |loaded| ==> ValidRow(ds, loaded[i])
    requires !Collides(digest, empty, Encoded(ds, loaded), Encoded(ds, source))
    ensures |loaded| == |source| && Fold(digest, empty, Encoded(ds, loaded)) == Fold(digest, empty, Encoded(ds, source))
       <==> loaded == source
  {
    hide Faithful, GivesHashes, IsHash, Collides, Fold, ValidRow, EncodeRow;
    if |loaded| == |source| && Fold(digest, empty, Encoded(ds, loaded)) == Fold(digest, empty, Encoded(ds, source)) {
      HashTellsRows(digest, empty, Encoded(ds, loaded), Encoded(ds, source));
      forall i | 0 <= i < |source| ensures loaded[i] == source[i] {
        assert Encoded(ds, loaded)[i] == Encoded(ds, source)[i];
        SameEncoding(ds, loaded[i], source[i]);
      }
    }
  }

  lemma SameEncoding<D(!new)>(ds: Doubles<D>, a: seq<Value<D>>, b: seq<Value<D>>)
    requires Faithful(ds) && ValidRow(ds, a) && ValidRow(ds, b) && EncodeRow(ds, a).value == EncodeRow(ds, b).value
    ensures a == b
  {
    hide Faithful, Valid, ItemTexts;
    EncodingIsInjective(ds, a, b);
  }
}
