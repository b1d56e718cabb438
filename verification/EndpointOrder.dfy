/**
 * What specificity means, by the paths that patterns admit: a pattern that admits strictly fewer paths is the more
 * specific one, so no row of a table is chosen over a narrower one. And a table is refused for two rows only where some
 * request ties them.
 */
module EndpointOrder {
  import opened Wrappers
  import opened Seqs
  import opened Text
  import opened CanonicalPath
  import opened Endpoints

  /** A path the pattern admits: its literals, `value` for every parameter and `rest` for a wildcard. */
  function Filled(segments: seq<Segment>, value: string, rest: string): (path: seq<string>)
    ensures |path| == |segments|
  {
    seq(|segments|, i requires 0 <= i < |segments| =>
      match segments[i] case Literal(text) => text case Param(_) => value case Wildcard => rest)
  }

  lemma FilledIsAdmitted(segments: seq<Segment>, value: string, rest: string)
    requires WellFormed(segments) && value != ""
    ensures Admits(segments, Filled(segments, value, rest))
  {
  }

  /** Every path `a` admits, `b` admits. */
  ghost predicate Inside(a: seq<Segment>, b: seq<Segment>) {
    forall path :: Admits(a, path) ==> Admits(b, path)
  }

  /** `a` admits fewer paths than `b`. */
  ghost predicate Narrower(a: seq<Segment>, b: seq<Segment>) {
    Inside(a, b) && exists path :: Admits(b, path) && !Admits(a, path)
  }

  /** A text that is not `other`. */
  function OtherThan(other: string): (value: string)
    ensures value != other && value != ""
  {
    if other == "a" then "b" else "a"
  }

  /** Where a pattern's kind of segment is the wider one, it admits a path the other does not. */
  lemma NoWiderSegment(a: seq<Segment>, b: seq<Segment>, i: nat)
    requires WellFormed(a) && WellFormed(b) && Inside(a, b) && i < |a| && i < |b|
    ensures b[i].Literal? ==> a[i] == b[i]
    ensures b[i].Param? ==> !a[i].Wildcard?
  {
    var value := if b[i].Literal? then OtherThan(b[i].value) else "a";
    var path := Filled(a, value, if b[i].Literal? then value else "");
    FilledIsAdmitted(a, value, if b[i].Literal? then value else "");
    assert Admits(b, path);
  }

  /** Two patterns of one length and one kind of segment at each place, one within the other, admit the same paths. */
  lemma SameKindsSamePaths(a: seq<Segment>, b: seq<Segment>, path: seq<string>)
    requires |a| == |b|
    requires forall i :: 0 <= i < |a| ==>
               (b[i].Literal? ==> a[i] == b[i]) && (a[i].Literal? <==> b[i].Literal?) && (a[i].Param? <==> b[i].Param?)
    requires Admits(b, path)
    ensures Admits(a, path)
  {
  }

  /** A pattern within another of the same kinds is not longer. */
  lemma NotLonger(a: seq<Segment>, b: seq<Segment>)
    requires WellFormed(a) && WellFormed(b) && Inside(a, b) && |a| > |b|
    ensures exists i :: 0 <= i < |b| && b[i].Wildcard? && !a[i].Wildcard?
  {
    FilledIsAdmitted(a, "a", "a");
    assert Admits(b, Filled(a, "a", "a"));
  }

  /** How the first difference in kind decides. */
  lemma {:induction false} KindsDecide(a: seq<Segment>, b: seq<Segment>)
    requires forall i :: 0 <= i < |a| && i < |b| ==> (b[i].Literal? ==> a[i].Literal?) && (b[i].Param? ==> !a[i].Wildcard?)
    ensures Specificity(a, b) < 0
         || (|a| >= |b| && forall i :: 0 <= i < |b| ==> (a[i].Literal? <==> b[i].Literal?) && (a[i].Param? <==> b[i].Param?))
  {
    if a != [] && b != [] && Rank(a[0]) == Rank(b[0]) {
      KindsDecide(a[1..], b[1..]);
    }
  }

  /** Of two patterns, one admitting strictly fewer paths, that one is the more specific. */
  lemma NarrowerIsMoreSpecific(a: seq<Segment>, b: seq<Segment>)
    requires WellFormed(a) && WellFormed(b) && Narrower(a, b)
    ensures Specificity(a, b) < 0
  {
    forall i | 0 <= i < |a| && i < |b| ensures (b[i].Literal? ==> a[i] == b[i]) && (b[i].Param? ==> !a[i].Wildcard?) {
      NoWiderSegment(a, b, i);
    }
    KindsDecide(a, b);
    if Specificity(a, b) >= 0 {
      if |a| > |b| {
        NotLonger(a, b);
        assert false;
      }
      var path :| Admits(b, path) && !Admits(a, path);
      SameKindsSamePaths(a, b, path);
      assert false;
    }
  }

  /** The row an accepted table answers a request with: no other row that serves it admits strictly fewer paths. */
  lemma SelectedIsNarrowest(table: EndpointTable, endpoints: seq<Compiled>, verb: string, rawPath: string, plan: Plan)
    requires CompiledFrom(table, endpoints) && Selects(endpoints, table.reservedPrefixes, verb, rawPath, plan) && plan.Endpoint?
    ensures exists reserved, i: nat ::
              && IsLongestPrefix(rawPath, table.reservedPrefixes, reserved)
              && i < |endpoints| && endpoints[i].row == plan.row && Competes(endpoints[i], reserved, verb, SplitPath(rawPath))
              && forall j :: 0 <= j < |endpoints| && Competes(endpoints[j], reserved, verb, SplitPath(rawPath)) ==>
                   !Narrower(endpoints[j].segments, endpoints[i].segments)
  {
    var path := SplitPath(rawPath);
    var reserved :| IsLongestPrefix(rawPath, table.reservedPrefixes, reserved) && SelectsUnder(endpoints, reserved, verb, path, plan);
    var i: nat :| Wins(endpoints, reserved, verb, path, i) && plan.row == endpoints[i].row;
    forall j | 0 <= j < |endpoints| && Competes(endpoints[j], reserved, verb, path)
      ensures !Narrower(endpoints[j].segments, endpoints[i].segments)
    {
      PatternIsWritten(table.endpoints[i].path);
      PatternIsWritten(table.endpoints[j].path);
      hide Narrower, Competes, PatternOf;
      if j != i && Narrower(endpoints[j].segments, endpoints[i].segments) {
        NarrowerIsMoreSpecific(endpoints[j].segments, endpoints[i].segments);
        SpecificityReverses(endpoints[i].segments, endpoints[j].segments);
        assert false;
      } else if j == i {
        NotNarrowerThanItself(endpoints[i].segments);
      }
    }
  }

  lemma NotNarrowerThanItself(a: seq<Segment>)
    ensures !Narrower(a, a)
  {
  }

  // ----- why two rows are refused

  /** A row's own path, taken as a request, matches its pattern: `:name` is a value and `*` a rest. */
  lemma OwnPathMatches(path: string)
    requires PatternOf(path).Pattern?
    ensures Admits(PatternOf(path).segments, SplitPath(path))
  {
    ReadIsWritten(SplitPath(path), |SplitPath(path)|);
  }

  lemma {:induction false} SameShapeTies(a: seq<Segment>, b: seq<Segment>)
    requires Shape(a) == Shape(b)
    ensures Specificity(a, b) == 0
  {
    assert |Shape(a)| == |a| && |Shape(b)| == |b|;
    if a != [] {
      SameKind(a, b, 0);
      assert Shape(a[1..]) == Shape(a)[1..] && Shape(b[1..]) == Shape(b)[1..];
      SameShapeTies(a[1..], b[1..]);
    }
  }

  /** A shape tells the kind of each segment, and the text of a literal. */
  lemma SameKind(a: seq<Segment>, b: seq<Segment>, i: nat)
    requires Shape(a) == Shape(b) && i < |a|
    ensures i < |b| && Rank(a[i]) == Rank(b[i]) && (a[i].Literal? ==> a[i] == b[i])
  {
    assert |Shape(a)| == |a| && |Shape(b)| == |b|;
    assert ShapeOf(a[i]) == Shape(a)[i] && ShapeOf(b[i]) == Shape(b)[i];
    assert "param"[0] == 'p' && "wildcard"[0] == 'w' && "="[0] == '=';
    if a[i].Literal? && b[i].Literal? {
      assert ShapeOf(a[i])[1..] == a[i].value && ShapeOf(b[i])[1..] == b[i].value;
    }
  }

  lemma SameShapeAdmits(a: seq<Segment>, b: seq<Segment>, path: seq<string>)
    requires Shape(a) == Shape(b) && Admits(a, path)
    ensures Admits(b, path)
  {
    assert |Shape(a)| == |a| && |Shape(b)| == |b|;
    forall i | 0 <= i < |a| ensures Rank(a[i]) == Rank(b[i]) && (a[i].Literal? ==> a[i] == b[i]) {
      SameKind(a, b, i);
    }
    hide Shape;
  }

  ghost predicate Ties(a: Compiled, b: Compiled, verb: string, rawPath: string) {
    && IsCanonicalPath(rawPath)
    && Competes(a, None, verb, SplitPath(rawPath)) && Competes(b, None, verb, SplitPath(rawPath))
    && Specificity(a.segments, b.segments) == 0
  }

  function CompiledRow(row: Row): Compiled
    requires PatternOf(row.path).Pattern?
  {
    Compiled(row, PatternOf(row.path).segments)
  }

  /** Two rows are refused side by side exactly when some request would tie them. */
  lemma AmbiguousIffTied(a: Row, b: Row)
    requires PatternOf(a.path).Pattern? && PatternOf(b.path).Pattern?
    ensures Ambiguous(a, b) <==> exists verb, rawPath :: Ties(CompiledRow(a), CompiledRow(b), verb, rawPath)
  {
    if Ambiguous(a, b) {
      AmbiguousTies(a, b);
    }
    if verb, rawPath :| Ties(CompiledRow(a), CompiledRow(b), verb, rawPath) {
      TiedIsAmbiguous(a, b, verb, rawPath);
    }
  }

  lemma AmbiguousTies(a: Row, b: Row)
    requires Ambiguous(a, b)
    ensures exists verb, rawPath :: Ties(CompiledRow(a), CompiledRow(b), verb, rawPath)
  {
    var p, q := PatternOf(a.path).segments, PatternOf(b.path).segments;
    var verb := if a.verb == ANY_METHOD then b.verb else a.verb;
    var path := SplitPath(a.path);
    PatternIsWritten(a.path);
    PatternIsWritten(b.path);
    OwnPathMatches(a.path);
    SameShapeAdmits(p, q, path);
    MatchesIffAdmits(p, path);
    MatchesIffAdmits(q, path);
    SameShapeTies(p, q);
    assert IsCanonicalPath(a.path);
    hide ReadSegments, IsCanonicalPath, Admits, MatchParams, Specificity;
    assert Ties(CompiledRow(a), CompiledRow(b), verb, a.path);
  }

  lemma TiedIsAmbiguous(a: Row, b: Row, verb: string, rawPath: string)
    requires PatternOf(a.path).Pattern? && PatternOf(b.path).Pattern?
    requires Ties(CompiledRow(a), CompiledRow(b), verb, rawPath)
    ensures Ambiguous(a, b)
  {
    var p, q := PatternOf(a.path).segments, PatternOf(b.path).segments;
    PatternIsWritten(a.path);
    PatternIsWritten(b.path);
    assert p[0..] == p && q[0..] == q;
    hide PatternOf, IsCanonicalPath, Specificity, WellFormed;
    TieIsShape(p, q, SplitPath(rawPath), 0);
    assert Shape(p) == Shape(q);
  }

  // ----- which paths are patterns

  predicate IsParameterName(name: string) {
    && name != "" && (IsLetter(name[0]) || name[0] == '_')
    && (forall i :: 1 <= i < |name| ==> IsLetter(name[i]) || IsDigit(name[i]) || name[i] == '_')
    && !IsPrototypeName(name)
  }

  /** A segment that a pattern may hold: a literal that is written like no other segment, or a plain name. */
  predicate IsSegment(s: Segment) {
    match s
    case Literal(value) => '*' !in value && !StartsWith(value, ":")
    case Param(name) => IsParameterName(name)
    case Wildcard => true
  }

  lemma SegmentReads(s: Segment, last: bool, names: set<string>)
    requires IsSegment(s) && (s.Wildcard? ==> last) && (s.Param? ==> s.name !in names)
    ensures ReadSegment(Written(s), last, names) == Pattern([s])
  {
    match s
    case Param(name) =>
      var text := ":" + name;
      assert text[1..] == name && text[..1] == ":";
      assert forall i :: 0 <= i < |name| ==> text[i + 1] == name[i] && text[i + 1] != '*';
      assert text[1] == name[0] && '*' !in text;
      assert text[0] == ':' && "*"[0] == '*';
      assert ParameterName(text) == Some(name);
    case Literal(value) =>
      assert '*' in "*" by { assert "*"[0] == '*'; }
    case Wildcard =>
  }

  /** What was read is a segment, and is written as it was. */
  lemma SegmentIsRead(text: string, last: bool, names: set<string>)
    requires ReadSegment(text, last, names).Pattern?
    ensures |ReadSegment(text, last, names).segments| == 1 && IsSegment(ReadSegment(text, last, names).segments[0])
  {
    if StartsWith(text, ":") && text != "*" && '*' !in text {
      var name := text[1..];
      assert forall i :: 0 <= i < |name| ==> name[i] == text[i + 1];
    }
  }

  lemma {:induction false} SegmentsRead(segments: seq<Segment>, raw: seq<string>, n: nat)
    requires WellFormed(segments) && (forall i :: 0 <= i < |segments| ==> IsSegment(segments[i]))
    requires |raw| == |segments| && n <= |raw| && forall i :: 0 <= i < |raw| ==> raw[i] == Written(segments[i])
    ensures ReadSegments(raw, n) == Pattern(segments[..n])
  {
    if n > 0 {
      SegmentsRead(segments, raw, n - 1);
      SegmentReads(segments[n - 1], n == |raw|, ParamNames(segments[..n - 1]));
      assert segments[..n] == segments[..n - 1] + [segments[n - 1]];
    }
  }

  lemma {:induction false} ReadSegmentsAre(raw: seq<string>, n: nat)
    requires n <= |raw| && ReadSegments(raw, n).Pattern?
    ensures forall i :: 0 <= i < |ReadSegments(raw, n).segments| ==> IsSegment(ReadSegments(raw, n).segments[i])
  {
    if n > 0 {
      ReadSegmentsAre(raw, n - 1);
      SegmentIsRead(raw[n - 1], n == |raw|, ParamNames(ReadSegments(raw, n - 1).segments));
    }
  }

  function WrittenSegments(segments: seq<Segment>): (raw: seq<string>)
    ensures |raw| == |segments|
  {
    seq(|segments|, i requires 0 <= i < |segments| => Written(segments[i]))
  }

  /**
   * The paths that are patterns: a canonical path is the pattern of these segments exactly when they are well formed and
   * the path is theirs, written.
   */
  lemma PatternIff(path: string, segments: seq<Segment>)
    requires IsCanonicalPath(path)
    ensures PatternOf(path) == Pattern(segments) <==>
              && WellFormed(segments) && (forall i :: 0 <= i < |segments| ==> IsSegment(segments[i]))
              && SplitPath(path) == WrittenSegments(segments)
  {
    var raw := SplitPath(path);
    if PatternOf(path) == Pattern(segments) {
      PatternIsWritten(path);
      ReadIsWritten(raw, |raw|);
      ReadSegmentsAre(raw, |raw|);
    }
    if WellFormed(segments) && (forall i :: 0 <= i < |segments| ==> IsSegment(segments[i])) && raw == WrittenSegments(segments) {
      SegmentsRead(segments, raw, |raw|);
      assert segments[..|raw|] == segments;
    }
  }

  // ----- what lies under a prefix

  /** What `Split` makes of one more character in front. */
  function Fronted(x: char, c: char, rest: seq<string>): seq<string>
    requires rest != []
  {
    if x == c then [[]] + rest else [[x] + rest[0]] + rest[1..]
  }

  lemma FrontedAdds(x: char, c: char, p: seq<string>, q: seq<string>)
    requires p != []
    ensures Fronted(x, c, p + q) == Fronted(x, c, p) + q
  {
  }

  lemma SplitFronted(x: char, s: string, c: char)
    ensures Split([x] + s, c) == Fronted(x, c, Split(s, c))
  {
    assert ([x] + s)[1..] == s;
  }

  lemma {:induction false} SplitJoined(a: string, b: string, c: char)
    ensures Split(a + [c] + b, c) == Split(a, c) + Split(b, c)
  {
    if a == [] {
      assert a + [c] + b == [c] + b;
      SplitFronted(c, b, c);
    } else {
      hide Split, Fronted;
      SplitJoined(a[1..], b, c);
      assert a == [a[0]] + a[1..] && a + [c] + b == [a[0]] + (a[1..] + [c] + b);
      SplitFronted(a[0], a[1..], c);
      SplitFronted(a[0], a[1..] + [c] + b, c);
      FrontedAdds(a[0], c, Split(a[1..], c), Split(b, c));
    }
  }

  lemma JoinFirst(x: seq<string>, c: char)
    requires |x| > 1
    ensures Join(x, c) == x[0] + [c] + Join(x[1..], c)
  {
  }

  lemma {:induction false} JoinAdds(x: seq<string>, y: seq<string>, c: char)
    requires x != [] && y != []
    ensures Join(x + y, c) == Join(x, c) + [c] + Join(y, c)
  {
    assert (x + y)[0] == x[0] && (x + y)[1..] == x[1..] + y;
    JoinFirst(x + y, c);
    if |x| == 1 {
      assert x[1..] == [] && [] + y == y;
    } else {
      JoinAdds(x[1..], y, c);
      JoinFirst(x, c);
      hide Join;
      Regrouped(x[0] + [c], Join(x[1..], c), [c] + Join(y, c));
      Regrouped(Join(x[1..], c), [c], Join(y, c));
      Regrouped(x[0] + [c] + Join(x[1..], c), [c], Join(y, c));
    }
  }

  lemma StartsUnder(p: string, q: string, rest: string)
    requires p == q + ['/'] + rest
    ensures |p| > |q| && p[..|q| + 1] == q + ['/']
  {
  }

  lemma StartsWhole(p: string, q: string)
    ensures IsUnder("/" + p, "/" + q) <==> |p| > |q| && p[..|q| + 1] == q + ['/']
  {
    if |p| > |q| {
      assert ("/" + p)[..|q| + 2] == "/" + p[..|q| + 1];
      assert ("/" + p[..|q| + 1])[1..] == p[..|q| + 1];
      assert ("/" + q + "/")[1..] == q + ['/'];
      assert "/" + (q + ['/']) == "/" + q + "/";
    }
  }

  lemma UnderSegments(p: string, q: string)
    requires q != ""
    ensures p[..if |q| < |p| then |q| + 1 else 0] == q + ['/'] <==> Split(q, '/') < (if p == "" then [] else Split(p, '/'))
  {
    hide Split;
    if |q| < |p| && p[..|q| + 1] == q + ['/'] {
      assert p == q + ['/'] + p[|q| + 1..];
      SplitJoined(q, p[|q| + 1..], '/');
      SplitSome(p[|q| + 1..]);
    }
    if Split(q, '/') < (if p == "" then [] else Split(p, '/')) {
      UnderBySegments(p, q);
    }
  }

  lemma SplitSome(s: string)
    ensures Split(s, '/') != []
  {
  }

  /** A path lies under a prefix exactly when the prefix's segments start its own, and it has more. */
  lemma UnderIff(path: string, prefix: string)
    requires path != "" && path[0] == '/' && |prefix| > 1 && prefix[0] == '/'
    ensures IsUnder(path, prefix) <==> SplitPath(prefix) < SplitPath(path)
  {
    var p, q := path[1..], prefix[1..];
    assert path == "/" + p && prefix == "/" + q;
    SplitsRest(path);
    SplitsRest(prefix);
    hide IsUnder, SplitPath, Split;
    StartsWhole(p, q);
    UnderSegments(p, q);
  }

  lemma SplitsRest(path: string)
    requires path != "" && path[0] == '/'
    ensures SplitPath(path) == if path[1..] == "" then [] else Split(path[1..], '/')
  {
    assert path == "/" + path[1..];
  }

  lemma UnderBySegments(p: string, q: string)
    requires Split(q, '/') < (if p == "" then [] else Split(p, '/'))
    ensures |p| > |q| && p[..|q| + 1] == q + ['/']
  {
    JoinSplit(q, '/');
    JoinSplit(p, '/');
    PartsUnder(p, q, Split(p, '/'), Split(q, '/'));
  }

  lemma PartsUnder(p: string, q: string, parts: seq<string>, x: seq<string>)
    requires x != [] && x < parts && p == Join(parts, '/') && q == Join(x, '/')
    ensures |p| > |q| && p[..|q| + 1] == q + ['/']
  {
    hide Join;
    var y := parts[|x|..];
    assert parts == x + y;
    JoinAdds(x, y, '/');
    StartsUnder(p, q, Join(y, '/'));
  }
}
