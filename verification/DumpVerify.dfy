/**
 * The verification of an import, step by step: each step reads some pages of the loaded tables and hands out where the
 * next one starts. Whatever a caller sends, lost, repeated or made up, the import is verified only if every table matches.
 */
module DumpVerify {
  import opened Wrappers
  import opened DumpHash

  /** A table as the manifest lists it. */
  datatype Expected = Expected(name: string, rows: nat, hash: string)

  /** Where a verification stands: `OpsDumpCursor`. */
  datatype Standing = Standing(table: string, at: Cursor)

  datatype Ack = Ack(finished: seq<Expected>, next: Option<Standing>)

  datatype Answer = Read(ack: Ack) | Mismatch(table: Option<string>)

  /** What the marker keeps: the cursor handed out last, and the step that did, for a caller that lost its answer. */
  datatype Progress = Progress(next: Option<Standing>, replay: Option<(Standing, Ack)>)

  const PAGE_ROWS: nat := 1000
  const STEP_ROWS: int := 50000

  /** What is compared: the manifest's tables and the loaded ones. */
  datatype Tables = Tables(digest: Digest, empty: string, order: seq<Expected>, loaded: map<string, seq<Entry>>)

  ghost predicate WellFormed(s: Tables) {
    && GivesHashes(s.digest) && IsHash(s.empty)
    && (forall i, j :: 0 <= i < j < |s.order| ==> s.order[i].name != s.order[j].name)
    && (forall i :: 0 <= i < |s.order| ==> s.order[i].name in s.loaded)
    && (forall name :: name in s.loaded ==> Ascending(s.loaded[name]))
  }

  /** A loaded table has the manifest's count and hash. */
  ghost predicate Matches(s: Tables, i: nat)
    requires i < |s.order|
  {
    && s.order[i].name in s.loaded
    && |s.loaded[s.order[i].name]| == s.order[i].rows
    && Fold(s.digest, s.empty, Texts(s.loaded[s.order[i].name])) == s.order[i].hash
  }

  ghost predicate MatchFirst(s: Tables, n: nat)
    requires n <= |s.order|
  {
    forall i :: 0 <= i < n ==> Matches(s, i)
  }

  ghost predicate AllMatch(s: Tables) {
    MatchFirst(s, |s.order|)
  }

  /** The tables before `i` match, and the first `n` rows of table `i` are read; `None` stands past the last table. */
  ghost predicate StandsAt(s: Tables, c: Option<Standing>, i: nat, n: nat) {
    && i <= |s.order| && MatchFirst(s, i)
    && match c
       case None => i == |s.order|
       case Some(c) =>
         && i < |s.order| && c.table == s.order[i].name && c.table in s.loaded
         && Covers(s.digest, s.empty, s.loaded[c.table], c.at, n)
  }

  ghost predicate Stands(s: Tables, c: Option<Standing>) {
    exists i: nat, n: nat :: StandsAt(s, c, i, n)
  }

  function StartOf(s: Tables, i: nat): Option<Standing> {
    if i < |s.order| then Some(Standing(s.order[i].name, Cursor(None, 0, s.empty))) else None
  }

  lemma StartStands(s: Tables, i: nat)
    requires WellFormed(s) && i <= |s.order| && MatchFirst(s, i)
    ensures StandsAt(s, StartOf(s, i), i, 0)
  {
    if i < |s.order| {
      NothingFolded(s.digest, s.empty, s.loaded[s.order[i].name]);
    }
  }

  /** What reading one more page of table `i` shows of it. */
  lemma PageShows(s: Tables, i: nat, at: Cursor, n: nat)
    requires i < |s.order| && s.order[i].name in s.loaded
    requires Covers(s.digest, s.empty, s.loaded[s.order[i].name], at, n)
    ensures at.rows == n && (at.rows > s.order[i].rows ==> !Matches(s, i))
    ensures n == |s.loaded[s.order[i].name]| ==> (Matches(s, i) <==> at.rows == s.order[i].rows && at.hash == s.order[i].hash)
  {
    hide Fold, Texts;
    var rows := s.loaded[s.order[i].name];
    assert rows[..|rows|] == rows;
  }

  lemma MatchesOneMore(s: Tables, i: nat)
    requires i < |s.order| && MatchFirst(s, i)
    ensures Matches(s, i) ==> MatchFirst(s, i + 1)
    ensures !Matches(s, i) ==> !AllMatch(s)
  {
    hide Matches;
  }

  /** The table of this name is not the one the manifest lists. */
  ghost predicate Differs(s: Tables, name: Option<string>) {
    exists i: nat :: i < |s.order| && name == Some(s.order[i].name) && !Matches(s, i)
  }

  lemma DiffersSomewhere(s: Tables, name: Option<string>)
    requires Differs(s, name)
    ensures !AllMatch(s)
  {
    hide Matches;
  }

  /** How many rows the tables before `i` hold. */
  ghost function RowsBefore(s: Tables, i: nat): nat
    requires i <= |s.order|
  {
    if i == 0 then 0 else RowsBefore(s, i - 1) + RowsOf(s, i - 1)
  }

  ghost function RowsOf(s: Tables, i: nat): nat
    requires i < |s.order|
  {
    if s.order[i].name in s.loaded then |s.loaded[s.order[i].name]| else 0
  }

  /** How many rows lie between two places of a verification. */
  ghost function RowsRead(s: Tables, start: nat, already: nat, end: nat, read: nat): int
    requires start <= |s.order| && end <= |s.order|
  {
    RowsBefore(s, end) + read - RowsBefore(s, start) - already
  }

  /** A step stops within a page of its rows, and only at its rows or at the end. */
  ghost predicate StepIsBounded(s: Tables, next: Option<Standing>, start: nat, already: nat, end: nat, read: nat)
    requires start <= |s.order| && end <= |s.order|
  {
    RowsRead(s, start, already, end, read) < STEP_ROWS + PAGE_ROWS && (next.Some? ==> RowsRead(s, start, already, end, read) >= STEP_ROWS)
  }

  /** The rows read of a table are no more than the manifest lists. */
  ghost predicate WithinListed(s: Tables, c: Option<Standing>, i: nat) {
    c.Some? ==> i < |s.order| && c.value.at.rows <= s.order[i].rows
  }

  /** The loop of one step: pages until the step's rows are read or every table is. */
  method ReadOn(s: Tables, start: nat, from: Option<Standing>, ghost already: nat) returns (answer: Answer, ghost end: nat, ghost read: nat)
    requires WellFormed(s) && StandsAt(s, from, start, already)
    ensures answer.Mismatch? ==> Differs(s, answer.table)
    ensures answer.Read? ==> StandsAt(s, answer.ack.next, end, read) && WithinListed(s, answer.ack.next, end)
    ensures answer.Read? && from.Some? ==> StepIsBounded(s, answer.ack.next, start, already, end, read)
    ensures answer.Read? ==> start <= end && answer.ack.finished == s.order[start..end]
    ensures answer.Read? && from.Some? ==> end > start || read > already
  {
    hide Covers, Matches, MatchFirst, AllMatch, GivesHashes, IsHash, Ascending, RowsBefore;
    var index, current, budget := start, from, STEP_ROWS;
    var finished: seq<Expected> := [];
    end, read := start, already;
    ghost var moved := false;
    while current.Some? && budget > 0
      invariant start <= index <= |s.order| && StandsAt(s, current, index, read)
      invariant finished == s.order[start..index]
      invariant budget == STEP_ROWS - RowsRead(s, start, already, index, read) && budget + PAGE_ROWS > 0
      invariant moved ==> WithinListed(s, current, index)
      invariant if moved then index > start || read > already else current == from && budget == STEP_ROWS && index == start && read == already
      decreases |s.order| - index,
                if index < |s.order| && s.order[index].name in s.loaded then |s.loaded[s.order[index].name]| - read else 0
    {
      var expected := s.order[index];
      var rows := s.loaded[expected.name];
      var next, whole := ReadNext(s.digest, rows, current.value.at, PAGE_ROWS, s.empty, read);
      ghost var upTo := if read + PAGE_ROWS < |rows| then read + PAGE_ROWS else |rows|;
      PageShows(s, index, current.value.at, read);
      PageShows(s, index, next, upTo);
      MatchesOneMore(s, index);
      RowsBeforeNext(s, index);
      budget := budget - (next.rows - current.value.at.rows);
      if next.rows > expected.rows {
        return Mismatch(Some(expected.name)), start, already;
      }
      if whole {
        current, read := Some(Standing(expected.name, next)), upTo;
      } else {
        if next.rows != expected.rows || next.hash != expected.hash {
          return Mismatch(Some(expected.name)), start, already;
        }
        assert s.order[start..index + 1] == s.order[start..index] + [expected];
        finished := finished + [expected];
        index := index + 1;
        StartStands(s, index);
        current, read := StartOf(s, index), 0;
      }
      moved := true;
    }
    end := index;
    answer := Read(Ack(finished, current));
  }

  lemma RowsBeforeNext(s: Tables, i: nat)
    requires i < |s.order| && s.order[i].name in s.loaded
    ensures RowsBefore(s, i + 1) == RowsBefore(s, i) + |s.loaded[s.order[i].name]|
  {
  }

  /** `order.findIndex(…)`, the length for none. */
  method FindTable(order: seq<Expected>, name: string) returns (k: nat)
    ensures k <= |order| && (forall i :: 0 <= i < k ==> order[i].name != name) && (k < |order| ==> order[k].name == name)
  {
    k := 0;
    while k < |order| && order[k].name != name
      invariant k <= |order| && forall i :: 0 <= i < k ==> order[i].name != name
    {
      k := k + 1;
    }
  }

  /** A cursor that stands somewhere stands in the first table of its name. */
  lemma StandsWhereFound(s: Tables, c: Standing, k: nat) returns (n: nat)
    requires WellFormed(s) && Stands(s, Some(c))
    requires k <= |s.order| && (forall i :: 0 <= i < k ==> s.order[i].name != c.table) && (k < |s.order| ==> s.order[k].name == c.table)
    ensures StandsAt(s, Some(c), k, n)
  {
    hide Covers, MatchFirst, GivesHashes, IsHash, Ascending;
    var i: nat, m: nat :| StandsAt(s, Some(c), i, m);
    assert k == i;
    n := m;
  }

  // ----- the dump

  /** The manifest lists the count and the hash of each table of a dump. */
  ghost predicate Lists(s: Tables, dumped: map<string, seq<string>>) {
    forall i :: 0 <= i < |s.order| ==> ListsTable(s, dumped, s.order[i])
  }

  ghost predicate ListsTable(s: Tables, dumped: map<string, seq<string>>, t: Expected) {
    t.name in dumped && t.rows == |dumped[t.name]| && t.hash == Fold(s.digest, s.empty, dumped[t.name])
  }

  ghost predicate SameTable(s: Tables, dumped: map<string, seq<string>>, name: string) {
    name in s.loaded && name in dumped && Texts(s.loaded[name]) == dumped[name]
  }

  ghost predicate TableCollides(s: Tables, dumped: map<string, seq<string>>, name: string) {
    name in s.loaded && name in dumped && Collides(s.digest, s.empty, Texts(s.loaded[name]), dumped[name])
  }

  /** Unless two texts digest alike, every table matches the manifest of a dump exactly when every table is the dump's. */
  lemma AllMatchIffSame(s: Tables, dumped: map<string, seq<string>>)
    requires WellFormed(s) && Lists(s, dumped)
    requires forall i :: 0 <= i < |s.order| ==> !TableCollides(s, dumped, s.order[i].name)
    ensures AllMatch(s) <==> forall i :: 0 <= i < |s.order| ==> SameTable(s, dumped, s.order[i].name)
  {
    hide WellFormed, Matches, SameTable, TableCollides, ListsTable;
    forall i | 0 <= i < |s.order| ensures Matches(s, i) <==> SameTable(s, dumped, s.order[i].name) {
      assert ListsTable(s, dumped, s.order[i]);
      MatchesIffSame(s, dumped, i);
    }
  }

  lemma MatchesIffSame(s: Tables, dumped: map<string, seq<string>>, i: nat)
    requires WellFormed(s) && i < |s.order| && ListsTable(s, dumped, s.order[i])
    requires !TableCollides(s, dumped, s.order[i].name)
    ensures Matches(s, i) <==> SameTable(s, dumped, s.order[i].name)
  {
    hide Fold, Collides, Texts, GivesHashes, IsHash, Ascending;
    var t := s.order[i];
    var a, b := Texts(s.loaded[t.name]), dumped[t.name];
    if |a| == |b| && Fold(s.digest, s.empty, a) == Fold(s.digest, s.empty, b) {
      HashTellsRows(s.digest, s.empty, a, b);
    }
  }

  // ----- the marker

  /** An import between its first part and its completion, with the progress of its verification. */
  class Verification {
    const digest: Digest
    const empty: string
    const order: seq<Expected>
    var loaded: map<string, seq<Entry>>
    var verified: Option<Progress>

    constructor (digest: Digest, empty: string, order: seq<Expected>, loaded: map<string, seq<Entry>>)
      requires WellFormed(Tables(digest, empty, order, loaded))
      ensures Valid() && Compared() == Tables(digest, empty, order, loaded) && verified == None
    {
      this.digest, this.empty, this.order, this.loaded := digest, empty, order, loaded;
      verified := None;
    }

    function Compared(): Tables
      reads this
    {
      Tables(digest, empty, order, loaded)
    }

    /** What the marker records is so: past the last table every table matches, and every cursor in it stands somewhere. */
    ghost predicate Valid()
      reads this
    {
      && WellFormed(Compared())
      && (verified.Some? ==>
            && Stands(Compared(), verified.value.next)
            && (verified.value.replay.Some? ==>
                  && verified.value.replay.value.1.next == verified.value.next
                  && !ContinuesFinished(verified.value.replay.value.1)))
    }

    /** Loading and linking write rows, and what was verified of the old ones is forgotten. */
    method Write(rows: map<string, seq<Entry>>)
      requires Valid() && WellFormed(Tables(digest, empty, order, rows))
      modifies this
      ensures Valid() && loaded == rows && verified == None
    {
      loaded := rows;
      verified := None;
    }

    /** The marker lets an import complete: only when every table matches what was loaded last. */
    method MayComplete() returns (allowed: bool)
      requires Valid()
      ensures allowed <==> verified.Some? && verified.value.next == None
      ensures allowed ==> AllMatch(Compared())
    {
      allowed := verified.Some? && verified.value.next == None;
    }

    /**
     * `verify`, for any cursor at all. The step that was answered last is answered again and changes nothing; a cursor that
     * was not handed out, like a table that differs, clears the progress; and a mismatch that follows a cursor handed out,
     * or the start, is of the table it names. Whatever was answered is answered to the same cursor again.
     */
    method Verify(cursor: Option<Standing>) returns (answer: Answer)
      requires Valid()
      modifies this`verified
      ensures Valid()
      ensures answer.Mismatch? ==> verified == None
      ensures answer.Read? ==> verified.Some? && verified.value.next == answer.ack.next
      ensures answer.Read? ==> !ContinuesFinished(answer.ack)
      ensures old(Replays(cursor)) ==> answer == Read(old(verified).value.replay.value.1) && verified == old(verified)
      ensures answer.Read? && cursor.Some? ==> Replays(cursor) && verified.value.replay.value.1 == answer.ack
      ensures cursor == None || old(Expects(cursor)) ==> (answer.Mismatch? ==> Differs(Compared(), answer.table))
      ensures cursor.Some? && !old(Expects(cursor)) && !old(Replays(cursor)) ==> answer == Mismatch(Some(cursor.value.table))
    {
      hide WellFormed, StandsAt, AllMatch;
      if cursor.Some? {
        if Replays(cursor) {
          return Read(verified.value.replay.value.1);
        }
        if !Expects(cursor) {
          verified := None;
          return Mismatch(Some(cursor.value.table));
        }
      }
      ghost var begin, end, read;
      answer, begin, end, read := Answered(cursor);
    }

    /** The step was the last one answered. */
    predicate Replays(cursor: Option<Standing>)
      reads this
    {
      cursor.Some? && verified.Some? && verified.value.replay.Some? && verified.value.replay.value.0 == cursor.value
    }

    /** The cursor is the one handed out last. */
    predicate Expects(cursor: Option<Standing>)
      reads this
    {
      cursor.Some? && verified.Some? && verified.value.next == cursor
    }

    /** A step from the start or from the cursor handed out last. */
    method Answered(cursor: Option<Standing>) returns (answer: Answer, ghost begin: nat, ghost end: nat, ghost read: nat)
      requires Valid() && (cursor == None || Expects(cursor))
      modifies this`verified
      ensures Valid()
      ensures answer.Mismatch? ==> verified == None && Differs(Compared(), answer.table)
      ensures answer.Read? && cursor.Some? ==> Replays(cursor) && verified.value.replay.value.1 == answer.ack
      ensures answer.Read? ==> WithinListed(Compared(), answer.ack.next, end)
      ensures answer.Read? ==> verified.Some? && verified.value.next == answer.ack.next && StandsAt(Compared(), answer.ack.next, end, read)
      ensures answer.Read? ==> begin <= end && answer.ack.finished == order[begin..end] && !ContinuesFinished(answer.ack)
      ensures cursor == None ==> begin == 0
      ensures forall i: nat, n: nat :: cursor.Some? && StandsAt(Compared(), cursor, i, n) ==> begin == i && (answer.Read? ==> end > i || read > n)
    {
      ghost var s := Compared();
      var index := 0;
      ghost var already := 0;
      var current := StartOf(Compared(), 0);
      if cursor.Some? {
        index := FindTable(order, cursor.value.table);
        already := StandsWhereFound(s, cursor.value, index);
        current := cursor;
        OnlyThere(s, cursor.value, index, already);
      } else {
        StartStands(s, 0);
      }
      begin := index;
      hide WellFormed, AllMatch;
      answer, end, read := ReadOn(Compared(), index, current, already);
      if answer.Mismatch? {
        verified := None;
      } else {
        verified := Some(Progress(answer.ack.next, if cursor == None then None else Some((cursor.value, answer.ack))));
        assert Stands(s, answer.ack.next);
        NotContinued(s, begin, end, read, answer.ack);
      }
    }

    /** The loop of a caller that starts at `null` and sends each cursor back: it ends, is told the truth, and once of each table. */
    method VerifyAll() returns (matched: bool, ghost told: seq<Expected>)
      requires Valid()
      modifies this`verified
      ensures Valid() && (matched <==> AllMatch(Compared()))
      ensures matched ==> verified.Some? && verified.value.next == None && told == order
    {
      hide WellFormed, StandsAt, Stands, AllMatch, ContinuesFinished, RowsLeft;
      ghost var begin: nat, end: nat, read: nat;
      var answer: Answer;
      answer, begin, end, read := Answered(None);
      told := [];
      if answer.Read? {
        told := answer.ack.finished;
        WhereStands(Compared(), answer.ack.next, end, read);
      } else {
        DiffersSomewhere(Compared(), answer.table);
      }
      while answer.Read? && answer.ack.next.Some?
        invariant Valid() && Compared() == old(Compared())
        invariant answer.Mismatch? ==> !AllMatch(Compared())
        invariant answer.Read? ==> StandsAt(Compared(), answer.ack.next, end, read) && end <= |order| && told == order[..end]
        invariant answer.Read? ==> verified.Some? && verified.value.next == answer.ack.next
        decreases answer.Read?, |order| - end, RowsLeft(Compared(), end, read)
      {
        ghost var s := Compared();
        WhereStands(s, answer.ack.next, end, read);
        ghost var wasEnd, wasRead := end, read;
        answer, begin, end, read := Answered(answer.ack.next);
        if answer.Mismatch? {
          DiffersSomewhere(s, answer.table);
        } else {
          WhereStands(s, answer.ack.next, end, read);
          FewerLeft(s, wasEnd, wasRead, read);
          assert order[..end] == order[..begin] + order[begin..end];
          told := told + answer.ack.finished;
        }
      }
      matched := answer.Read?;
      if matched {
        PastTheLast(Compared(), end, read);
      }
    }
  }

  /** An answer that finishes a table and goes on in it, which a caller takes for no answer. */
  predicate ContinuesFinished(ack: Ack) {
    ack.next.Some? && exists i :: 0 <= i < |ack.finished| && ack.finished[i].name == ack.next.value.table
  }

  lemma NotContinued(s: Tables, begin: nat, end: nat, read: nat, ack: Ack)
    requires WellFormed(s) && begin <= end && StandsAt(s, ack.next, end, read) && ack.finished == s.order[begin..end]
    ensures !ContinuesFinished(ack)
  {
    hide Covers, MatchFirst, GivesHashes, IsHash, Ascending;
  }

  function RowsLeft(s: Tables, i: nat, n: nat): int {
    if i < |s.order| && s.order[i].name in s.loaded then |s.loaded[s.order[i].name]| - n else 0
  }

  lemma WhereStands(s: Tables, c: Option<Standing>, i: nat, n: nat)
    requires StandsAt(s, c, i, n)
    ensures i <= |s.order| && RowsLeft(s, i, n) >= 0 && (c.Some? ==> i < |s.order| && s.order[i].name in s.loaded)
  {
    hide MatchFirst;
  }

  lemma FewerLeft(s: Tables, i: nat, m: nat, n: nat)
    requires i < |s.order| && s.order[i].name in s.loaded
    ensures m < n ==> RowsLeft(s, i, n) < RowsLeft(s, i, m)
  {
  }

  lemma PastTheLast(s: Tables, i: nat, n: nat)
    requires StandsAt(s, None, i, n)
    ensures AllMatch(s) && i == |s.order|
  {
    hide Matches;
  }

  /** A cursor stands in one place. */
  lemma OnlyThere(s: Tables, c: Standing, k: nat, n: nat)
    requires WellFormed(s) && StandsAt(s, Some(c), k, n)
    ensures forall i: nat, m: nat :: StandsAt(s, Some(c), i, m) ==> i == k && m == n
  {
    hide MatchFirst, GivesHashes, IsHash, Ascending, Fold, Texts;
  }
}
