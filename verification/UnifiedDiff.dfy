/**
 * `unifiedDiff` of a line-preserving rewrite, and a patch reader as its partner: applying the diff to `before` gives
 * `after`.
 */
module UnifiedDiff {
  import opened Wrappers
  import opened Text
  import opened Seqs

  /** One line of a diff after its two file headers; a hunk's first line counts from 0. */
  datatype Entry = Hunk(start: nat, count: nat) | Keep(line: string) | Minus(line: string) | Plus(line: string)

  /** Lines `start` to `end`, both included. */
  datatype Span = Span(start: nat, end: nat)

  datatype DiffResult = Diff(text: string) | LineCountChanged

  /** An entry as the diff writes it. */
  function Written(e: Entry): string {
    match e
    case Hunk(start, count) =>
      var range := Decimal(start + 1) + "," + Decimal(count);
      "@@ -" + range + " +" + range + " @@"
    case Keep(line) => " " + line
    case Minus(line) => "-" + line
    case Plus(line) => "+" + line
  }

  // ----- what a diff does to a text

  /**
   * The lines after applying `entries` to `lines` from `cursor` on, where the hunk under way still owes `owedOld` old and
   * `owedNew` new lines; `None` when the entries do not fit the lines or a hunk's header.
   */
  function Apply(entries: seq<Entry>, lines: seq<string>, cursor: nat, owedOld: nat, owedNew: nat): Option<seq<string>>
    requires cursor <= |lines|
  {
    if entries == [] then
      if owedOld == 0 && owedNew == 0 then Some(lines[cursor..]) else None
    else match entries[0]
      case Hunk(start, count) =>
        if owedOld == 0 && owedNew == 0 && cursor <= start <= |lines| then
          Emit(lines[cursor..start], Apply(entries[1..], lines, start, count, count))
        else None
      case Keep(line) =>
        if owedOld > 0 && owedNew > 0 && cursor < |lines| && lines[cursor] == line then
          Emit([line], Apply(entries[1..], lines, cursor + 1, owedOld - 1, owedNew - 1))
        else None
      case Minus(line) =>
        if owedOld > 0 && cursor < |lines| && lines[cursor] == line then Apply(entries[1..], lines, cursor + 1, owedOld - 1, owedNew) else None
      case Plus(line) =>
        if owedNew > 0 then Emit([line], Apply(entries[1..], lines, cursor, owedOld, owedNew - 1)) else None
  }

  function Emit(first: seq<string>, rest: Option<seq<string>>): Option<seq<string>> {
    match rest
    case None => None
    case Some(lines) => Some(first + lines)
  }

  lemma EmitTwice(a: seq<string>, b: seq<string>, rest: Option<seq<string>>)
    ensures Emit(a, Emit(b, rest)) == Emit(a + b, rest)
    ensures Emit([], rest) == rest
  {
    if rest.Some? {
      assert a + (b + rest.value) == a + b + rest.value;
      assert [] + rest.value == rest.value;
    }
  }

  /** How many lines of the old and of the new text the entries show. */
  function OldCount(entries: seq<Entry>): nat {
    if entries == [] then 0 else (if entries[0].Keep? || entries[0].Minus? then 1 else 0) + OldCount(entries[1..])
  }

  function NewCount(entries: seq<Entry>): nat {
    if entries == [] then 0 else (if entries[0].Keep? || entries[0].Plus? then 1 else 0) + NewCount(entries[1..])
  }

  lemma {:induction false} CountsAdd(a: seq<Entry>, b: seq<Entry>)
    ensures OldCount(a + b) == OldCount(a) + OldCount(b) && NewCount(a + b) == NewCount(a) + NewCount(b)
  {
    if a == [] {
      assert a + b == b;
    } else {
      CountsAdd(a[1..], b);
      assert (a + b)[1..] == a[1..] + b;
    }
  }

  // ----- hunks

  ghost predicate Changed(b: seq<string>, a: seq<string>, i: int)
    requires |b| == |a|
  {
    0 <= i < |b| && b[i] != a[i]
  }

  /** Some changed line before `bound` lies within `context` lines of `i`. */
  ghost predicate Near(b: seq<string>, a: seq<string>, context: nat, bound: int, i: int)
    requires |b| == |a|
  {
    exists c :: Changed(b, a, c) && c < bound && c - context <= i <= c + context
  }

  ghost predicate InHunk(hunks: seq<Span>, i: int) {
    exists k :: 0 <= k < |hunks| && hunks[k].start <= i <= hunks[k].end
  }

  /** Ascending, never overlapping and never adjacent. */
  ghost predicate Apart(hunks: seq<Span>, n: nat) {
    && (forall k :: 0 <= k < |hunks| ==> hunks[k].start <= hunks[k].end < n)
    && (forall k, m :: 0 <= k < m < |hunks| ==> hunks[k].end + 1 < hunks[m].start)
  }

  /** The hunks show exactly the lines near a change. */
  ghost predicate HunksOf(b: seq<string>, a: seq<string>, context: nat, hunks: seq<Span>)
    requires |b| == |a|
  {
    && Apart(hunks, |b|)
    && forall i :: 0 <= i < |b| ==> (InHunk(hunks, i) <==> Near(b, a, context, |b|, i))
  }

  /** The span runs from `context` lines before one changed line to `context` lines after another, or to the ends. */
  ghost predicate EndsAt(b: seq<string>, a: seq<string>, context: nat, bound: int, span: Span)
    requires |b| == |a|
  {
    && (exists c :: Changed(b, a, c) && c < bound && span.start == Max(0, c - context))
    && (exists c :: Changed(b, a, c) && c < bound && span.end == Min(|b| - 1, c + context))
  }

  /** The first changed lines, those before `bound`, have their hunks. */
  ghost predicate HunksSoFar(b: seq<string>, a: seq<string>, context: nat, bound: nat, hunks: seq<Span>)
    requires |b| == |a|
  {
    && Apart(hunks, |b|)
    && (forall i :: 0 <= i < |b| ==> (InHunk(hunks, i) <==> Near(b, a, context, bound, i)))
    && (hunks != [] ==> EndsAt(b, a, context, bound, hunks[|hunks| - 1]))
  }

  function Min(x: int, y: int): int {
    if x <= y then x else y
  }

  function Max(x: int, y: int): int {
    if x >= y then x else y
  }

  /** The hunks after one more changed line. */
  function AddChange(hunks: seq<Span>, n: nat, context: nat, index: nat): (r: seq<Span>)
    requires index < n && Apart(hunks, n)
    ensures |r| >= 1
  {
    var start := Max(0, index - context);
    var end := Min(n - 1, index + context);
    if hunks != [] && start <= hunks[|hunks| - 1].end + 1 then
      hunks[..|hunks| - 1] + [Span(hunks[|hunks| - 1].start, Max(hunks[|hunks| - 1].end, end))]
    else
      hunks + [Span(start, end)]
  }

  lemma NearGrows(b: seq<string>, a: seq<string>, context: nat, index: nat, i: int)
    requires |b| == |a| && Changed(b, a, index)
    ensures Near(b, a, context, index + 1, i) <==> Near(b, a, context, index, i) || index - context <= i <= index + context
  {
  }

  /** The new hunks cover what the old ones did and the lines near the change. */
  lemma AddChangeCovers(hunks: seq<Span>, n: nat, context: nat, index: nat, i: int)
    requires index < n && Apart(hunks, n)
    requires hunks != [] ==> hunks[|hunks| - 1].start <= Max(0, index - context) && hunks[|hunks| - 1].end <= Min(n - 1, index + context)
    ensures InHunk(AddChange(hunks, n, context, index), i) <==>
              InHunk(hunks, i) || Max(0, index - context) <= i <= Min(n - 1, index + context)
  {
    var more := AddChange(hunks, n, context, index);
    var last := |hunks| - 1;
    if InHunk(hunks, i) {
      var k :| 0 <= k < |hunks| && hunks[k].start <= i <= hunks[k].end;
      assert more[k].start <= i <= more[k].end;
    }
    if Max(0, index - context) <= i <= Min(n - 1, index + context) {
      assert more[|more| - 1].start <= i <= more[|more| - 1].end;
    }
    if InHunk(more, i) {
      var k :| 0 <= k < |more| && more[k].start <= i <= more[k].end;
      if k < last {
        assert more[k] == hunks[k];
      } else if k == last && i <= hunks[last].end {
        assert hunks[last].start <= i <= hunks[last].end;
      }
    }
  }

  /** One more changed line keeps the hunks apart and adds exactly the lines near it. */
  lemma AddChangeStep(b: seq<string>, a: seq<string>, context: nat, index: nat, hunks: seq<Span>)
    requires |b| == |a| && HunksSoFar(b, a, context, index, hunks) && Changed(b, a, index)
    ensures HunksSoFar(b, a, context, index + 1, AddChange(hunks, |b|, context, index))
    ensures Apart(AddChange(hunks, |b|, context, index), |b|)
  {
    var n := |b|;
    var more := AddChange(hunks, n, context, index);
    forall i | 0 <= i < n ensures InHunk(more, i) <==> Near(b, a, context, index + 1, i) {
      NearGrows(b, a, context, index, i);
      AddChangeCovers(hunks, n, context, index, i);
    }
    assert EndsAt(b, a, context, index + 1, more[|more| - 1]);
  }

  lemma SkipLine(b: seq<string>, a: seq<string>, context: nat, index: nat, hunks: seq<Span>)
    requires |b| == |a| && HunksSoFar(b, a, context, index, hunks) && !Changed(b, a, index)
    ensures HunksSoFar(b, a, context, index + 1, hunks)
  {
    forall i ensures Near(b, a, context, index + 1, i) <==> Near(b, a, context, index, i) {
      if Near(b, a, context, index + 1, i) {
        var c :| Changed(b, a, c) && c < index + 1 && c - context <= i <= c + context;
        assert c != index;
      }
    }
    if hunks != [] {
      assert EndsAt(b, a, context, index, hunks[|hunks| - 1]);
    }
  }

  lemma NoHunks(b: seq<string>, a: seq<string>, context: nat)
    requires |b| == |a|
    ensures HunksSoFar(b, a, context, 0, [])
  {
  }

  lemma AllHunks(b: seq<string>, a: seq<string>, context: nat, hunks: seq<Span>)
    requires |b| == |a| && HunksSoFar(b, a, context, |b|, hunks)
    ensures HunksOf(b, a, context, hunks)
  {
  }

  /** The loop over the changed lines, `last` extended in place or a new hunk pushed. */
  method FindHunks(b: seq<string>, a: seq<string>, context: nat) returns (hunks: seq<Span>)
    requires |b| == |a|
    ensures HunksOf(b, a, context, hunks)
  {
    hunks := [];
    hide HunksSoFar;
    NoHunks(b, a, context);
    for index := 0 to |b|
      invariant Apart(hunks, |b|)
      invariant HunksSoFar(b, a, context, index, hunks)
    {
      if b[index] == a[index] {
        SkipLine(b, a, context, index, hunks);
        continue;
      }
      AddChangeStep(b, a, context, index, hunks);
      var start := Max(0, index - context);
      var end := Min(|b| - 1, index + context);
      if |hunks| > 0 && start <= hunks[|hunks| - 1].end + 1 {
        hunks := hunks[..|hunks| - 1] + [Span(hunks[|hunks| - 1].start, Max(hunks[|hunks| - 1].end, end))];
      } else {
        hunks := hunks + [Span(start, end)];
      }
    }
    AllHunks(b, a, context, hunks);
  }

  // ----- the lines of one hunk

  /** The first line from `i` to `end` that did not change. */
  function RunEnd(b: seq<string>, a: seq<string>, i: nat, end: nat): (j: nat)
    requires |b| == |a| && i <= end <= |b|
    ensures i <= j <= end && (i < end && b[i] != a[i] ==> i < j)
    ensures forall k :: i <= k < j ==> b[k] != a[k]
    ensures j < end ==> b[j] == a[j]
    decreases end - i
  {
    if i == end || b[i] == a[i] then i else RunEnd(b, a, i + 1, end)
  }

  /** The entries of the lines `i` to `end`: kept lines one by one, a run of changes as its old lines, then its new ones. */
  function Body(b: seq<string>, a: seq<string>, i: nat, end: nat): seq<Entry>
    requires |b| == |a| && i <= end <= |b|
    decreases end - i
  {
    if i == end then []
    else if b[i] == a[i] then [Keep(b[i])] + Body(b, a, i + 1, end)
    else
      var j := RunEnd(b, a, i, end);
      Changes(b, a, i, j) + Body(b, a, j, end)
  }

  /** A run of changed lines: the old ones, then the new ones. */
  function Changes(b: seq<string>, a: seq<string>, i: nat, j: nat): seq<Entry>
    requires |b| == |a| && i <= j <= |b|
  {
    Minuses(b[i..j]) + Pluses(a[i..j])
  }

  function Minuses(lines: seq<string>): seq<Entry> {
    Map(line => Minus(line), lines)
  }

  function Pluses(lines: seq<string>): seq<Entry> {
    Map(line => Plus(line), lines)
  }

  lemma {:induction false} ApplyMinuses(lines: seq<string>, i: nat, j: nat, rest: seq<Entry>, owedOld: nat, owedNew: nat)
    requires i <= j <= |lines| && j - i <= owedOld
    ensures Apply(Minuses(lines[i..j]) + rest, lines, i, owedOld, owedNew) == Apply(rest, lines, j, owedOld - (j - i), owedNew)
    decreases j - i
  {
    if i == j {
      assert Minuses(lines[i..j]) + rest == rest;
    } else {
      ApplyMinuses(lines, i + 1, j, rest, owedOld - 1, owedNew);
      assert (Minuses(lines[i..j]) + rest)[1..] == Minuses(lines[i + 1..j]) + rest;
    }
  }

  lemma {:induction false} ApplyPluses(added: seq<string>, lines: seq<string>, i: nat, rest: seq<Entry>, owedOld: nat, owedNew: nat)
    requires i <= |lines| && |added| <= owedNew
    ensures Apply(Pluses(added) + rest, lines, i, owedOld, owedNew) == Emit(added, Apply(rest, lines, i, owedOld, owedNew - |added|))
  {
    if added == [] {
      assert Pluses(added) + rest == rest;
      EmitTwice([], [], Apply(rest, lines, i, owedOld, owedNew));
    } else {
      ApplyPluses(added[1..], lines, i, rest, owedOld, owedNew - 1);
      assert (Pluses(added) + rest)[1..] == Pluses(added[1..]) + rest;
      EmitTwice([added[0]], added[1..], Apply(rest, lines, i, owedOld, owedNew - |added|));
      assert added == [added[0]] + added[1..];
    }
  }

  lemma ApplyKeep(lines: seq<string>, i: nat, rest: seq<Entry>, owed: nat)
    requires i < |lines| && owed > 0
    ensures Apply([Keep(lines[i])] + rest, lines, i, owed, owed) == Emit([lines[i]], Apply(rest, lines, i + 1, owed - 1, owed - 1))
  {
    assert ([Keep(lines[i])] + rest)[1..] == rest;
  }

  lemma ApplyRun(b: seq<string>, a: seq<string>, i: nat, j: nat, rest: seq<Entry>, owed: nat)
    requires |b| == |a| && i <= j <= |b| && j - i <= owed
    ensures Apply(Changes(b, a, i, j) + rest, b, i, owed, owed)
         == Emit(a[i..j], Apply(rest, b, j, owed - (j - i), owed - (j - i)))
  {
    assert Minuses(b[i..j]) + Pluses(a[i..j]) + rest == Minuses(b[i..j]) + (Pluses(a[i..j]) + rest);
    ApplyMinuses(b, i, j, Pluses(a[i..j]) + rest, owed, owed);
    ApplyPluses(a[i..j], b, j, rest, owed - (j - i), owed);
  }

  /** Applying the entries `body` from line `i` to line `end` gives the new lines of that stretch, whatever follows. */
  ghost predicate BodyApplies(b: seq<string>, a: seq<string>, body: seq<Entry>, i: nat, end: nat, rest: seq<Entry>)
    requires |b| == |a| && i <= end <= |b|
  {
    Apply(body + rest, b, i, end - i, end - i) == Emit(a[i..end], Apply(rest, b, end, 0, 0))
  }

  lemma NothingApplies(b: seq<string>, a: seq<string>, end: nat, rest: seq<Entry>)
    requires |b| == |a| && end <= |b|
    ensures BodyApplies(b, a, [], end, end, rest)
  {
    hide Apply;
    assert [] + rest == rest && a[end..end] == [];
    EmitTwice([], [], Apply(rest, b, end, 0, 0));
  }

  lemma KeptApplies(b: seq<string>, a: seq<string>, tail: seq<Entry>, i: nat, end: nat, rest: seq<Entry>)
    requires |b| == |a| && i < end <= |b| && b[i] == a[i] && BodyApplies(b, a, tail, i + 1, end, rest)
    ensures BodyApplies(b, a, [Keep(b[i])] + tail, i, end, rest)
  {
    hide Apply, Emit;
    Regrouped([Keep(b[i])], tail, rest);
    ApplyKeep(b, i, tail + rest, end - i);
    EmitTwice([a[i]], a[i + 1..end], Apply(rest, b, end, 0, 0));
    SliceSplits(a, i, i + 1, end);
  }

  lemma RunApplies(b: seq<string>, a: seq<string>, tail: seq<Entry>, i: nat, j: nat, end: nat, rest: seq<Entry>)
    requires |b| == |a| && i <= j <= end <= |b| && BodyApplies(b, a, tail, j, end, rest)
    ensures BodyApplies(b, a, Changes(b, a, i, j) + tail, i, end, rest)
  {
    hide Apply, Emit, Changes;
    Regrouped(Changes(b, a, i, j), tail, rest);
    ApplyRun(b, a, i, j, tail + rest, end - i);
    EmitTwice(a[i..j], a[j..end], Apply(rest, b, end, 0, 0));
    SliceSplits(a, i, j, end);
  }

  lemma SliceSplits(a: seq<string>, i: nat, j: nat, end: nat)
    requires i <= j <= end <= |a|
    ensures a[i..end] == a[i..j] + a[j..end]
    ensures i < |a| && j == i + 1 ==> a[i..j] == [a[i]]
  {
  }

  /** Applying a hunk's lines turns the old lines into the new ones, and uses up what its header promised. */
  lemma {:induction false} ApplyBody(b: seq<string>, a: seq<string>, i: nat, end: nat, rest: seq<Entry>)
    requires |b| == |a| && i <= end <= |b|
    ensures BodyApplies(b, a, Body(b, a, i, end), i, end, rest)
    decreases end - i
  {
    hide BodyApplies, Changes;
    if i == end {
      NothingApplies(b, a, end, rest);
    } else if b[i] == a[i] {
      ApplyBody(b, a, i + 1, end, rest);
      KeptApplies(b, a, Body(b, a, i + 1, end), i, end, rest);
    } else {
      var j := RunEnd(b, a, i, end);
      ApplyBody(b, a, j, end, rest);
      RunApplies(b, a, Body(b, a, j, end), i, j, end, rest);
    }
  }

  lemma {:induction false} MinusPlusCounts(lines: seq<string>)
    ensures OldCount(Minuses(lines)) == |lines| && NewCount(Minuses(lines)) == 0
    ensures OldCount(Pluses(lines)) == 0 && NewCount(Pluses(lines)) == |lines|
  {
    if lines != [] {
      MinusPlusCounts(lines[1..]);
      assert Minuses(lines)[1..] == Minuses(lines[1..]) && Pluses(lines)[1..] == Pluses(lines[1..]);
    }
  }

  /** A hunk shows as many old lines as new ones, the count its header gives. */
  lemma {:induction false} BodyCounts(b: seq<string>, a: seq<string>, i: nat, end: nat)
    requires |b| == |a| && i <= end <= |b|
    ensures OldCount(Body(b, a, i, end)) == end - i && NewCount(Body(b, a, i, end)) == end - i
    decreases end - i
  {
    if i < end {
      if b[i] == a[i] {
        BodyCounts(b, a, i + 1, end);
        CountsAdd([Keep(b[i])], Body(b, a, i + 1, end));
      } else {
        var j := RunEnd(b, a, i, end);
        BodyCounts(b, a, j, end);
        MinusPlusCounts(b[i..j]);
        MinusPlusCounts(a[i..j]);
        CountsAdd(Minuses(b[i..j]), Pluses(a[i..j]));
        CountsAdd(Minuses(b[i..j]) + Pluses(a[i..j]), Body(b, a, j, end));
      }
    }
  }

  function KeptCount(entries: seq<Entry>): nat {
    if entries == [] then 0 else (if entries[0].Keep? then 1 else 0) + KeptCount(entries[1..])
  }

  /** How many of the lines `i` to `end` did not change. */
  function SameCount(b: seq<string>, a: seq<string>, i: nat, end: nat): nat
    requires |b| == |a| && i <= end <= |b|
    decreases end - i
  {
    if i == end then 0 else (if b[i] == a[i] then 1 else 0) + SameCount(b, a, i + 1, end)
  }

  /** No new line goes before an old one of the same run. */
  ghost predicate Grouped(entries: seq<Entry>) {
    forall k {:trigger entries[k]} :: 0 <= k && k + 1 < |entries| ==> !(entries[k].Plus? && entries[k + 1].Minus?)
  }

  lemma {:induction false} KeptAdds(a: seq<Entry>, b: seq<Entry>)
    ensures KeptCount(a + b) == KeptCount(a) + KeptCount(b)
  {
    if a == [] {
      assert a + b == b;
    } else {
      KeptAdds(a[1..], b);
      assert (a + b)[1..] == a[1..] + b;
    }
  }

  lemma {:induction false} NoneKept(entries: seq<Entry>)
    requires forall k :: 0 <= k < |entries| ==> !entries[k].Keep?
    ensures KeptCount(entries) == 0
  {
    if entries != [] {
      NoneKept(entries[1..]);
    }
  }

  lemma {:induction false} NoneSame(b: seq<string>, a: seq<string>, i: nat, j: nat, end: nat)
    requires |b| == |a| && i <= j <= end <= |b| && forall k :: i <= k < j ==> b[k] != a[k]
    ensures SameCount(b, a, i, end) == SameCount(b, a, j, end)
    decreases j - i
  {
    if i < j {
      NoneSame(b, a, i + 1, j, end);
    }
  }

  lemma RunIsGrouped(b: seq<string>, a: seq<string>, i: nat, j: nat, rest: seq<Entry>)
    requires |b| == |a| && i <= j <= |b| && Grouped(rest) && (rest != [] ==> !rest[0].Minus?)
    ensures Grouped(Changes(b, a, i, j) + rest)
  {
    var all := Changes(b, a, i, j) + rest;
    var n := j - i;
    assert |Minuses(b[i..j])| == n && |Pluses(a[i..j])| == n;
    forall k {:trigger all[k]} | 0 <= k && k + 1 < |all| ensures !(all[k].Plus? && all[k + 1].Minus?) {
      if 2 * n <= k {
        assert all[k] == rest[k - 2 * n] && all[k + 1] == rest[k + 1 - 2 * n];
      } else if k + 1 == 2 * n {
        assert all[k + 1] == rest[0];
      } else if k < n {
        assert all[k] == Minuses(b[i..j])[k];
      } else {
        assert all[k + 1] == Pluses(a[i..j])[k + 1 - n];
      }
    }
  }

  /**
   * A hunk shows a line as kept exactly as often as one did not change, so as removed and added only where it did; and the
   * old lines of a run stand before its new ones.
   */
  lemma {:induction false} BodyIsMinimal(b: seq<string>, a: seq<string>, i: nat, end: nat)
    requires |b| == |a| && i <= end <= |b|
    ensures KeptCount(Body(b, a, i, end)) == SameCount(b, a, i, end) && Grouped(Body(b, a, i, end))
    ensures i < end && b[i] == a[i] ==> Body(b, a, i, end) != [] && Body(b, a, i, end)[0].Keep?
    decreases end - i
  {
    if i < end {
      if b[i] == a[i] {
        var rest := Body(b, a, i + 1, end);
        BodyIsMinimal(b, a, i + 1, end);
        KeptAdds([Keep(b[i])], rest);
        var all := [Keep(b[i])] + rest;
        forall k {:trigger all[k]} | 0 <= k && k + 1 < |all| ensures !(all[k].Plus? && all[k + 1].Minus?) {
          if k > 0 {
            assert all[k] == rest[k - 1] && all[k + 1] == rest[k];
          }
        }
      } else {
        var j := RunEnd(b, a, i, end);
        BodyIsMinimal(b, a, j, end);
        NoneSame(b, a, i, j, end);
        NoneKept(Changes(b, a, i, j));
        KeptAdds(Changes(b, a, i, j), Body(b, a, j, end));
        RunIsGrouped(b, a, i, j, Body(b, a, j, end));
      }
    }
  }

  // ----- the whole diff

  function HunkEntries(b: seq<string>, a: seq<string>, hunk: Span): seq<Entry>
    requires |b| == |a| && hunk.start <= hunk.end < |b|
  {
    [Hunk(hunk.start, hunk.end - hunk.start + 1)] + Body(b, a, hunk.start, hunk.end + 1)
  }

  /** The entries of the hunks from `k` on. */
  function Entries(b: seq<string>, a: seq<string>, hunks: seq<Span>, k: nat): seq<Entry>
    requires |b| == |a| && Apart(hunks, |b|) && k <= |hunks|
    decreases |hunks| - k
  {
    if k == |hunks| then [] else HunkEntries(b, a, hunks[k]) + Entries(b, a, hunks, k + 1)
  }

  /** A line no hunk from `k` on shows is the same in both texts, from `cursor` on. */
  ghost predicate SameOutside(b: seq<string>, a: seq<string>, hunks: seq<Span>, k: nat, cursor: nat)
    requires |b| == |a|
  {
    forall i :: cursor <= i < |b| && (forall m :: k <= m < |hunks| ==> !(hunks[m].start <= i <= hunks[m].end)) ==> b[i] == a[i]
  }

  lemma SameAfter(b: seq<string>, a: seq<string>, hunks: seq<Span>, k: nat, cursor: nat)
    requires |b| == |a| && Apart(hunks, |b|) && k < |hunks| && cursor <= hunks[k].start && SameOutside(b, a, hunks, k, cursor)
    ensures SameOutside(b, a, hunks, k + 1, hunks[k].end + 1)
    ensures b[cursor..hunks[k].start] == a[cursor..hunks[k].start]
  {
  }

  lemma ApplyHunk(b: seq<string>, a: seq<string>, hunk: Span, rest: seq<Entry>, cursor: nat)
    requires |b| == |a| && cursor <= hunk.start <= hunk.end < |b| && b[cursor..hunk.start] == a[cursor..hunk.start]
    ensures Apply(HunkEntries(b, a, hunk) + rest, b, cursor, 0, 0) == Emit(a[cursor..hunk.end + 1], Apply(rest, b, hunk.end + 1, 0, 0))
  {
    hide Body;
    var body := Body(b, a, hunk.start, hunk.end + 1);
    var all := HunkEntries(b, a, hunk) + rest;
    assert all[0] == Hunk(hunk.start, hunk.end - hunk.start + 1) && all[1..] == body + rest;
    ApplyBody(b, a, hunk.start, hunk.end + 1, rest);
    EmitTwice(a[cursor..hunk.start], a[hunk.start..hunk.end + 1], Apply(rest, b, hunk.end + 1, 0, 0));
    assert a[cursor..hunk.end + 1] == a[cursor..hunk.start] + a[hunk.start..hunk.end + 1];
  }

  /** Applying the hunks from `k` on gives the new text from `cursor` on, where no line changed outside a hunk. */
  lemma {:induction false} ApplyHunks(b: seq<string>, a: seq<string>, hunks: seq<Span>, k: nat, cursor: nat)
    requires |b| == |a| && Apart(hunks, |b|) && k <= |hunks| && cursor <= |b|
    requires k < |hunks| ==> cursor <= hunks[k].start
    requires SameOutside(b, a, hunks, k, cursor)
    ensures Apply(Entries(b, a, hunks, k), b, cursor, 0, 0) == Some(a[cursor..])
    decreases |hunks| - k
  {
    if k == |hunks| {
      assert b[cursor..] == a[cursor..];
    } else {
      hide Apply, HunkEntries;
      var next := hunks[k].end + 1;
      SameAfter(b, a, hunks, k, cursor);
      ApplyHunks(b, a, hunks, k + 1, next);
      ApplyHunk(b, a, hunks[k], Entries(b, a, hunks, k + 1), cursor);
      assert a[cursor..] == a[cursor..next] + a[next..];
    }
  }

  /** Applying the diff of two texts of one line count to the first gives the second, whatever the context. */
  lemma DiffApplies(b: seq<string>, a: seq<string>, context: nat, hunks: seq<Span>)
    requires |b| == |a| && HunksOf(b, a, context, hunks)
    ensures Apply(Entries(b, a, hunks, 0), b, 0, 0, 0) == Some(a)
  {
    forall i | 0 <= i < |b| && !InHunk(hunks, i) ensures b[i] == a[i] {
      if Changed(b, a, i) {
        assert Near(b, a, context, |b|, i);
      }
    }
    assert SameOutside(b, a, hunks, 0, 0);
    ApplyHunks(b, a, hunks, 0, 0);
    assert a[0..] == a;
  }

  // ----- the text of the diff

  function FileHeaders(path: string): seq<string> {
    ["--- a/" + path, "+++ b/" + path]
  }

  function DiffText(path: string, entries: seq<Entry>): string {
    Join(FileHeaders(path) + Map(Written, entries), '\n')
  }

  lemma MapAdds(a: seq<Entry>, b: seq<Entry>)
    ensures Map(Written, a + b) == Map(Written, a) + Map(Written, b)
  {
  }

  /** One hunk's header and lines. */
  method WriteHunk(b: seq<string>, a: seq<string>, hunk: Span) returns (out: seq<string>)
    requires |b| == |a| && hunk.start <= hunk.end < |b|
    ensures out == Map(Written, HunkEntries(b, a, hunk))
  {
    hide *;
    var count := hunk.end - hunk.start + 1;
    out := [Written(Hunk(hunk.start, count))];
    var index := hunk.start;
    HeaderWrote(b, a, hunk);
    while index <= hunk.end
      invariant hunk.start <= index <= hunk.end + 1
      invariant Wrote(b, a, hunk, index, out)
    {
      if b[index] == a[index] {
        KeptRest(b, a, hunk, index);
        MoreWrote(b, a, hunk, index, index + 1, out, [" " + b[index]]);
        out := out + [" " + b[index]];
        index := index + 1;
      } else {
        var run := index;
        index := SkipRun(b, a, run, hunk.end + 1);
        var lines := WriteRun(b, a, run, index);
        RunRest(b, a, hunk, run);
        MoreWrote(b, a, hunk, run, index, out, lines);
        out := out + lines;
      }
    }
    AllWrote(b, a, hunk, out);
  }

  function Lines(entries: seq<Entry>): seq<string> {
    Map(Written, entries)
  }

  /** The lines of a hunk from line `index` of its file on. */
  function RestLines(b: seq<string>, a: seq<string>, hunk: Span, index: nat): seq<string>
    requires |b| == |a| && hunk.end < |b| && index <= hunk.end + 1
  {
    Lines(Body(b, a, index, hunk.end + 1))
  }

  function Joined(out: seq<string>, lines: seq<string>): seq<string> {
    out + lines
  }

  lemma JoinedTwice(out: seq<string>, lines: seq<string>, rest: seq<string>)
    ensures Joined(out, Joined(lines, rest)) == Joined(Joined(out, lines), rest)
    ensures Joined(out, lines) == out + lines
  {
  }

  /** `out` holds the hunk's header and its lines before `index`. */
  ghost predicate Wrote(b: seq<string>, a: seq<string>, hunk: Span, index: nat, out: seq<string>)
    requires |b| == |a| && hunk.start <= hunk.end < |b| && index <= hunk.end + 1
  {
    Map(Written, HunkEntries(b, a, hunk)) == Joined(out, RestLines(b, a, hunk, index))
  }

  lemma HeaderWrote(b: seq<string>, a: seq<string>, hunk: Span)
    requires |b| == |a| && hunk.start <= hunk.end < |b|
    ensures Wrote(b, a, hunk, hunk.start, [Written(Hunk(hunk.start, hunk.end - hunk.start + 1))])
  {
    hide Body, Written;
    var header := Hunk(hunk.start, hunk.end - hunk.start + 1);
    MapAdds([header], Body(b, a, hunk.start, hunk.end + 1));
    assert Map(Written, [header]) == [Written(header)];
  }

  lemma KeptRest(b: seq<string>, a: seq<string>, hunk: Span, index: nat)
    requires |b| == |a| && hunk.end < |b| && index <= hunk.end && b[index] == a[index]
    ensures RestLines(b, a, hunk, index) == Joined([" " + b[index]], RestLines(b, a, hunk, index + 1))
  {
    assert Body(b, a, index, hunk.end + 1) == [Keep(b[index])] + Body(b, a, index + 1, hunk.end + 1);
    hide Body;
    MapAdds([Keep(b[index])], Body(b, a, index + 1, hunk.end + 1));
    assert Map(Written, [Keep(b[index])]) == [" " + b[index]];
  }

  lemma RunRest(b: seq<string>, a: seq<string>, hunk: Span, run: nat)
    requires |b| == |a| && hunk.end < |b| && run <= hunk.end && b[run] != a[run]
    ensures var j := RunEnd(b, a, run, hunk.end + 1);
            RestLines(b, a, hunk, run) == Joined(Lines(Changes(b, a, run, j)), RestLines(b, a, hunk, j))
  {
    hide Changes, RunEnd, Written, Map;
    var j := RunEnd(b, a, run, hunk.end + 1);
    MapAdds(Changes(b, a, run, j), Body(b, a, j, hunk.end + 1));
  }

  lemma MoreWrote(b: seq<string>, a: seq<string>, hunk: Span, index: nat, next: nat, out: seq<string>, lines: seq<string>)
    requires |b| == |a| && hunk.start <= hunk.end < |b| && index <= next <= hunk.end + 1 && Wrote(b, a, hunk, index, out)
    requires RestLines(b, a, hunk, index) == Joined(lines, RestLines(b, a, hunk, next))
    ensures Wrote(b, a, hunk, next, out + lines)
  {
    hide Map, HunkEntries, RestLines, Joined, Written;
    JoinedTwice(out, lines, RestLines(b, a, hunk, next));
  }

  lemma AllWrote(b: seq<string>, a: seq<string>, hunk: Span, out: seq<string>)
    requires |b| == |a| && hunk.start <= hunk.end < |b| && Wrote(b, a, hunk, hunk.end + 1, out)
    ensures out == Map(Written, HunkEntries(b, a, hunk))
  {
    hide HunkEntries, Written;
    assert RestLines(b, a, hunk, hunk.end + 1) == [];
  }

  method SkipRun(b: seq<string>, a: seq<string>, run: nat, end: nat) returns (index: nat)
    requires |b| == |a| && run < end <= |b| && b[run] != a[run]
    ensures index == RunEnd(b, a, run, end)
  {
    index := run;
    while index < end && b[index] != a[index]
      invariant run <= index <= end
      invariant RunEnd(b, a, run, end) == RunEnd(b, a, index, end)
    {
      index := index + 1;
    }
  }

  /** The lines that a run has removed before `cursor`. */
  function Removed(b: seq<string>, run: nat, cursor: nat): seq<string>
    requires run <= cursor <= |b|
  {
    Lines(Minuses(b[run..cursor]))
  }

  function Added(a: seq<string>, run: nat, cursor: nat): seq<string>
    requires run <= cursor <= |a|
  {
    Lines(Pluses(a[run..cursor]))
  }

  lemma NothingRun(b: seq<string>, run: nat)
    requires run <= |b|
    ensures Removed(b, run, run) == [] && Added(b, run, run) == []
  {
  }

  lemma RemovedOne(b: seq<string>, run: nat, cursor: nat)
    requires run <= cursor < |b|
    ensures Removed(b, run, cursor + 1) == Removed(b, run, cursor) + ["-" + b[cursor]]
  {
    assert b[run..cursor + 1] == b[run..cursor] + [b[cursor]];
    var x, y := Minuses(b[run..cursor]), Minuses([b[cursor]]);
    assert Minuses(b[run..cursor + 1]) == x + y;
    MapAdds(x, y);
    assert Map(Written, [Minus(b[cursor])]) == ["-" + b[cursor]];
  }

  lemma AddedOne(a: seq<string>, run: nat, cursor: nat)
    requires run <= cursor < |a|
    ensures Added(a, run, cursor + 1) == Added(a, run, cursor) + ["+" + a[cursor]]
  {
    assert a[run..cursor + 1] == a[run..cursor] + [a[cursor]];
    var x, y := Pluses(a[run..cursor]), Pluses([a[cursor]]);
    assert Pluses(a[run..cursor + 1]) == x + y;
    MapAdds(x, y);
    assert Map(Written, [Plus(a[cursor])]) == ["+" + a[cursor]];
  }

  lemma RunWrote(b: seq<string>, a: seq<string>, run: nat, end: nat)
    requires |b| == |a| && run <= end <= |b|
    ensures Lines(Changes(b, a, run, end)) == Removed(b, run, end) + Added(a, run, end)
  {
    hide Written, Minuses, Pluses, Map;
    MapAdds(Minuses(b[run..end]), Pluses(a[run..end]));
  }

  method WriteRun(b: seq<string>, a: seq<string>, run: nat, end: nat) returns (out: seq<string>)
    requires |b| == |a| && run <= end <= |b|
    ensures out == Lines(Changes(b, a, run, end))
  {
    hide *;
    out := [];
    NothingRun(b, run);
    NothingRun(a, run);
    for cursor := run to end
      invariant out == Removed(b, run, cursor)
    {
      RemovedOne(b, run, cursor);
      out := out + ["-" + b[cursor]];
    }
    for cursor := run to end
      invariant out == Removed(b, run, end) + Added(a, run, cursor)
    {
      AddedOne(a, run, cursor);
      Regrouped(Removed(b, run, end), Added(a, run, cursor), ["+" + a[cursor]]);
      out := out + ["+" + a[cursor]];
    }
    RunWrote(b, a, run, end);
  }

  /** The diff of two texts, empty for equal ones; a changed line count is the source's throw. */
  method Unified(path: string, before: string, after: string, context: nat) returns (r: DiffResult)
    ensures before == after ==> r == Diff("")
    ensures before != after ==> (r == LineCountChanged <==> |Split(before, '\n')| != |Split(after, '\n')|)
    ensures before != after && r.Diff? ==>
              exists hunks :: HunksOf(Split(before, '\n'), Split(after, '\n'), context, hunks)
                              && r.text == DiffText(path, Entries(Split(before, '\n'), Split(after, '\n'), hunks, 0))
  {
    if before == after {
      return Diff("");
    }
    var b, a := Split(before, '\n'), Split(after, '\n');
    if |b| != |a| {
      return LineCountChanged;
    }
    hide HunksOf, DiffText;
    var text, hunks := WriteDiff(path, b, a, context);
    r := Diff(text);
  }

  lemma EntriesStart(path: string, b: seq<string>, a: seq<string>, hunks: seq<Span>)
    requires |b| == |a| && Apart(hunks, |b|)
    ensures Entries(b, a, hunks, 0) == [] + Entries(b, a, hunks, 0)
    ensures FileHeaders(path) == FileHeaders(path) + Map(Written, [])
  {
  }

  lemma EntriesStep(path: string, b: seq<string>, a: seq<string>, hunks: seq<Span>, k: nat, entries: seq<Entry>)
    requires |b| == |a| && Apart(hunks, |b|) && k < |hunks| && Entries(b, a, hunks, 0) == entries + Entries(b, a, hunks, k)
    ensures Entries(b, a, hunks, 0) == entries + HunkEntries(b, a, hunks[k]) + Entries(b, a, hunks, k + 1)
    ensures FileHeaders(path) + Map(Written, entries + HunkEntries(b, a, hunks[k]))
         == FileHeaders(path) + Map(Written, entries) + Map(Written, HunkEntries(b, a, hunks[k]))
  {
    hide HunkEntries;
    var hunk := HunkEntries(b, a, hunks[k]);
    assert entries + (hunk + Entries(b, a, hunks, k + 1)) == entries + hunk + Entries(b, a, hunks, k + 1);
    MapAdds(entries, hunk);
  }

  lemma EntriesEnd(path: string, b: seq<string>, a: seq<string>, hunks: seq<Span>, entries: seq<Entry>)
    requires |b| == |a| && Apart(hunks, |b|) && Entries(b, a, hunks, 0) == entries + Entries(b, a, hunks, |hunks|)
    ensures Entries(b, a, hunks, 0) == entries
    ensures DiffText(path, entries) == Join(FileHeaders(path) + Map(Written, entries), '\n')
  {
    assert entries + [] == entries;
  }

  method WriteDiff(path: string, b: seq<string>, a: seq<string>, context: nat) returns (text: string, ghost hunks: seq<Span>)
    requires |b| == |a|
    ensures HunksOf(b, a, context, hunks) && text == DiffText(path, Entries(b, a, hunks, 0))
  {
    var found := FindHunks(b, a, context);
    hunks := found;
    hide *;
    EntriesStart(path, b, a, found);
    var out := FileHeaders(path);
    ghost var entries: seq<Entry> := [];
    for k := 0 to |found|
      invariant out == FileHeaders(path) + Map(Written, entries)
      invariant Entries(b, a, found, 0) == entries + Entries(b, a, found, k)
    {
      var lines := WriteHunk(b, a, found[k]);
      EntriesStep(path, b, a, found, k, entries);
      out, entries := out + lines, entries + HunkEntries(b, a, found[k]);
    }
    EntriesEnd(path, b, a, found, entries);
    text := Join(out, '\n');
  }

  // ----- reading a diff back

  function DigitRun(s: string): (n: nat)
    ensures n <= |s| && AllDigits(s[..n])
  {
    if s == [] || !IsDigit(s[0]) then 0
    else
      var n := DigitRun(s[1..]);
      assert s[..n + 1] == [s[0]] + s[1..][..n];
      n + 1
  }

  lemma {:induction false} DigitRunIs(digits: string, rest: string)
    requires AllDigits(digits) && (rest != [] ==> !IsDigit(rest[0]))
    ensures DigitRun(digits + rest) == |digits|
  {
    if digits == [] {
      assert digits + rest == rest;
    } else {
      assert (digits + rest)[1..] == digits[1..] + rest;
      DigitRunIs(digits[1..], rest);
    }
  }

  /** A hunk's header, if it is written as the diff writes it. */
  function ReadHunk(s: string): Option<Entry> {
    if !StartsWith(s, "@@ -") then None
    else
      var n := DigitRun(s[4..]);
      var tail := s[4..][n..];
      var m := if |tail| > 0 then DigitRun(tail[1..]) else 0;
      var start := DecimalValue(s[4..][..n]);
      if start == 0 || |tail| == 0 then None
      else
        var hunk := Hunk(start - 1, DecimalValue(tail[1..][..m]));
        if Written(hunk) == s then Some(hunk) else None
  }

  function ReadEntry(s: string): Option<Entry> {
    if s == [] then None
    else if s[0] == ' ' then Some(Keep(s[1..]))
    else if s[0] == '-' then Some(Minus(s[1..]))
    else if s[0] == '+' then Some(Plus(s[1..]))
    else ReadHunk(s)
  }

  lemma EntryReads(e: Entry)
    ensures ReadEntry(Written(e)) == Some(e)
  {
    if e.Hunk? {
      HunkReads(e.start, e.count);
    }
  }

  lemma HunkReads(start: nat, count: nat)
    ensures ReadHunk(Written(Hunk(start, count))) == Some(Hunk(start, count))
  {
    hide *;
    var first, second := Decimal(start + 1), Decimal(count);
    var close := " +" + (first + "," + second) + " @@";
    var tail := "," + second + close;
    var s := "@@ -" + first + tail;
    DecimalReads(start + 1);
    DecimalReads(count);
    DecimalsAreDigits(start + 1);
    DecimalsAreDigits(count);
    HeaderSplits(first, second, close);
    HunkText(start, count);
    assert close[0] == ' ' && |tail| > 0;
    HunkOf(s, |first|, |second|, start, count);
  }

  lemma DecimalsAreDigits(n: nat)
    ensures AllDigits(Decimal(n))
  {
    hide Decimal;
  }

  lemma HunkText(start: nat, count: nat)
    ensures var first, second := Decimal(start + 1), Decimal(count);
            Written(Hunk(start, count)) == "@@ -" + first + ("," + second + (" +" + (first + "," + second) + " @@"))
  {
    hide Decimal;
  }

  /** What the reader of a header needs to know of it. */
  lemma HunkOf(s: string, n: nat, m: nat, start: nat, count: nat)
    requires StartsWith(s, "@@ -") && DigitRun(s[4..]) == n && n < |s[4..]| && DigitRun(s[4..][n..][1..]) == m
    requires DecimalValue(s[4..][..n]) == start + 1 && DecimalValue(s[4..][n..][1..][..m]) == count
    requires s == Written(Hunk(start, count))
    ensures ReadHunk(s) == Some(Hunk(start, count))
  {
    hide StartsWith, DigitRun, DecimalValue, Written;
  }

  lemma HeaderSplits(first: string, second: string, close: string)
    requires AllDigits(first) && AllDigits(second) && |close| > 0 && close[0] == ' '
    ensures var tail := "," + second + close;
            var s := "@@ -" + first + tail;
            && StartsWith(s, "@@ -") && DigitRun(s[4..]) == |first| && s[4..][..|first|] == first && s[4..][|first|..] == tail
            && DigitRun(tail[1..]) == |second| && tail[1..][..|second|] == second
  {
    var tail := "," + second + close;
    var s := "@@ -" + first + tail;
    assert s[4..] == first + tail && tail[1..] == second + close;
    DigitRunIs(first, tail);
    DigitRunIs(second, close);
  }

  function ReadEntries(lines: seq<string>): Option<seq<Entry>> {
    if lines == [] then Some([])
    else match ReadEntry(lines[0])
      case None => None
      case Some(e) =>
        match ReadEntries(lines[1..])
        case None => None
        case Some(rest) => Some([e] + rest)
  }

  lemma {:induction false} EntriesRead(entries: seq<Entry>)
    ensures ReadEntries(Map(Written, entries)) == Some(entries)
  {
    if entries != [] {
      EntryReads(entries[0]);
      EntriesRead(entries[1..]);
      assert Map(Written, entries)[1..] == Map(Written, entries[1..]);
      assert entries == [entries[0]] + entries[1..];
    }
  }

  /** A patch tool: the two file headers aside, every line is read and applied to the old text. */
  function Patch(diff: string, before: string): Option<string> {
    if diff == "" then Some(before)
    else
      var lines := Split(diff, '\n');
      if |lines| < 2 then None
      else match ReadEntries(lines[2..])
        case None => None
        case Some(entries) =>
          match Apply(entries, Split(before, '\n'), 0, 0, 0)
          case None => None
          case Some(after) => Some(Join(after, '\n'))
  }

  lemma WrittenIsLine(e: Entry)
    requires e.Hunk? || '\n' !in e.line
    ensures '\n' !in Written(e)
  {
  }

  ghost predicate OneLine(e: Entry) {
    e.Hunk? || '\n' !in e.line
  }

  ghost predicate NoBreaks(lines: seq<string>) {
    forall i :: 0 <= i < |lines| ==> '\n' !in lines[i]
  }

  ghost predicate AllLines(entries: seq<Entry>) {
    forall i :: 0 <= i < |entries| ==> OneLine(entries[i])
  }

  lemma {:induction false} BodyIsLines(b: seq<string>, a: seq<string>, i: nat, end: nat)
    requires |b| == |a| && i <= end <= |b| && NoBreaks(b) && NoBreaks(a)
    ensures AllLines(Body(b, a, i, end))
    decreases end - i
  {
    if i < end {
      BodyIsLines(b, a, if b[i] == a[i] then i + 1 else RunEnd(b, a, i, end), end);
    }
  }

  lemma LinesAdd(first: seq<Entry>, rest: seq<Entry>)
    ensures AllLines(first) && AllLines(rest) ==> AllLines(first + rest)
    ensures AllLines([])
  {
  }

  lemma HunkIsLines(b: seq<string>, a: seq<string>, hunk: Span)
    requires |b| == |a| && hunk.start <= hunk.end < |b| && NoBreaks(b) && NoBreaks(a)
    ensures AllLines(HunkEntries(b, a, hunk))
  {
    hide Body, NoBreaks;
    BodyIsLines(b, a, hunk.start, hunk.end + 1);
    LinesAdd([Hunk(hunk.start, hunk.end - hunk.start + 1)], Body(b, a, hunk.start, hunk.end + 1));
  }

  lemma {:induction false} EntriesAreLines(b: seq<string>, a: seq<string>, hunks: seq<Span>, k: nat)
    requires |b| == |a| && Apart(hunks, |b|) && k <= |hunks| && NoBreaks(b) && NoBreaks(a)
    ensures AllLines(Entries(b, a, hunks, k))
    decreases |hunks| - k
  {
    hide AllLines, HunkEntries;
    if k < |hunks| {
      EntriesAreLines(b, a, hunks, k + 1);
      HunkIsLines(b, a, hunks[k]);
      LinesAdd(HunkEntries(b, a, hunks[k]), Entries(b, a, hunks, k + 1));
    } else {
      LinesAdd([], []);
    }
  }

  /** Patching `before` with its diff gives `after`, for all texts of one line count and any context. */
  lemma DiffPatches(path: string, before: string, after: string, context: nat, hunks: seq<Span>)
    requires '\n' !in path && |Split(before, '\n')| == |Split(after, '\n')|
    requires HunksOf(Split(before, '\n'), Split(after, '\n'), context, hunks)
    ensures Patch(DiffText(path, Entries(Split(before, '\n'), Split(after, '\n'), hunks, 0)), before) == Some(after)
  {
    var b, a := Split(before, '\n'), Split(after, '\n');
    var entries := Entries(b, a, hunks, 0);
    JoinSplit(before, '\n');
    JoinSplit(after, '\n');
    EntriesAreLines(b, a, hunks, 0);
    DiffApplies(b, a, context, hunks);
    TextReads(path, entries);
  }

  lemma TextReads(path: string, entries: seq<Entry>)
    requires '\n' !in path && AllLines(entries)
    ensures DiffText(path, entries) != ""
    ensures Split(DiffText(path, entries), '\n') == FileHeaders(path) + Map(Written, entries)
    ensures ReadEntries(Split(DiffText(path, entries), '\n')[2..]) == Some(entries)
  {
    var lines := FileHeaders(path) + Map(Written, entries);
    forall i | 0 <= i < |lines| ensures '\n' !in lines[i] {
      if i >= 2 {
        WrittenIsLine(entries[i - 2]);
        assert lines[i] == Written(entries[i - 2]);
      }
    }
    SplitJoin(lines, '\n');
    assert lines[2..] == Map(Written, entries);
    EntriesRead(entries);
    assert lines[0] == "--- a/" + path && DiffText(path, entries)[0] == '-';
  }
}
