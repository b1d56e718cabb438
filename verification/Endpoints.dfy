/**
 * The endpoint matcher: what a table is refused for, and which row a request selects. The methods follow the source's
 * loops; the predicates say what they compute.
 */
module Endpoints {
  import opened Wrappers
  import opened Seqs
  import Sorting
  import opened Text
  import opened CanonicalPath

  datatype Segment = Literal(value: string) | Param(name: string) | Wildcard

  /** An endpoint row, as far as its choice depends on it. */
  datatype Row = Row(id: string, verb: string, path: string)

  datatype EndpointTable = EndpointTable(endpoints: seq<Row>, reservedPrefixes: seq<string>)

  datatype Compiled = Compiled(row: Row, segments: seq<Segment>)

  datatype PatternProblem =
    NotCanonical | WildcardNotLast | WildcardNotWhole | BadParameter | PrototypeName(name: string) | ParameterTwice(name: string)

  datatype PatternResult = Pattern(segments: seq<Segment>) | Malformed(problem: PatternProblem)

  datatype Problem =
    | DuplicateId(id: string)
    | BadPath(id: string, path: string, problem: PatternProblem)
    | BothServe(id: string, previous: string, verb: string, path: string)
    | NotLiteral(prefix: string)
    | DuplicatePrefix(prefix: string)

  datatype Analysis = Accepted(endpoints: seq<Compiled>) | Refused(problems: seq<Problem>)

  datatype Plan = NonCanonical | NoEndpoint | Endpoint(row: Row, params: map<string, string>)

  const ANY_METHOD := "*"

  predicate MethodsOverlap(declared: string, other: string) {
    declared == other || declared == ANY_METHOD || other == ANY_METHOD
  }

  /** Only the declared side may be the wildcard; a client that sends `*` as its method gets no other row by it. */
  predicate ServesMethod(declared: string, requested: string) {
    declared == ANY_METHOD || declared == requested
  }

  /** The segments after the leading slash; a final slash adds an empty one. */
  function SplitPath(path: string): seq<string> {
    if path == "/" || path == "" then [] else Split(path[1..], '/')
  }

  // ----- patterns

  /** The name of a `:name` segment: `/^:([A-Za-z_][A-Za-z0-9_]*)$/`. */
  function ParameterName(segment: string): Option<string> {
    if |segment| >= 2 && segment[0] == ':' && (IsLetter(segment[1]) || segment[1] == '_')
       && forall i :: 2 <= i < |segment| ==> IsLetter(segment[i]) || IsDigit(segment[i]) || segment[i] == '_'
    then Some(segment[1..])
    else None
  }

  predicate IsPrototypeName(name: string) {
    name == "__proto__" || name == "constructor" || name == "prototype"
  }

  /** What one raw segment means, or why it means nothing. */
  function ReadSegment(segment: string, last: bool, names: set<string>): PatternResult {
    if segment == "*" then
      if last then Pattern([Wildcard]) else Malformed(WildcardNotLast)
    else if '*' in segment then
      Malformed(WildcardNotWhole)
    else if StartsWith(segment, ":") then
      match ParameterName(segment)
      case None => Malformed(BadParameter)
      case Some(name) =>
        if IsPrototypeName(name) then Malformed(PrototypeName(name))
        else if name in names then Malformed(ParameterTwice(name))
        else Pattern([Param(name)])
    else
      Pattern([Literal(segment)])
  }

  function ParamNames(segments: seq<Segment>): set<string> {
    set i | 0 <= i < |segments| && segments[i].Param? :: segments[i].name
  }

  /** The segments of `raw` up to `n`, or the first problem among them. */
  function ReadSegments(raw: seq<string>, n: nat): PatternResult
    requires n <= |raw|
  {
    if n == 0 then Pattern([])
    else
      var before := ReadSegments(raw, n - 1);
      if before.Malformed? then before
      else
        var next := ReadSegment(raw[n - 1], n == |raw|, ParamNames(before.segments));
        if next.Malformed? then next else Pattern(before.segments + next.segments)
  }

  function PatternOf(path: string): PatternResult {
    if !IsCanonicalPath(path) then Malformed(NotCanonical) else ReadSegments(SplitPath(path), |SplitPath(path)|)
  }

  lemma {:induction false} FirstProblemStays(raw: seq<string>, n: nat, m: nat)
    requires n <= m <= |raw| && ReadSegments(raw, n).Malformed?
    ensures ReadSegments(raw, m) == ReadSegments(raw, n)
  {
    if n < m {
      FirstProblemStays(raw, n, m - 1);
    }
  }

  method ParsePattern(path: string) returns (r: PatternResult)
    ensures r == PatternOf(path)
  {
    if !IsCanonicalPath(path) {
      return Malformed(NotCanonical);
    }
    var raw := SplitPath(path);
    var segments: seq<Segment> := [];
    var names: set<string> := {};
    for index := 0 to |raw|
      invariant ReadSegments(raw, index) == Pattern(segments)
      invariant names == ParamNames(segments)
    {
      var next := ReadSegment(raw[index], index == |raw| - 1, names);
      if next.Malformed? {
        FirstProblemStays(raw, index + 1, |raw|);
        return next;
      }
      ParamNamesGrow(segments, next.segments[0]);
      if next.segments[0].Param? {
        names := names + {next.segments[0].name};
      }
      segments := segments + next.segments;
    }
    r := Pattern(segments);
  }

  lemma ParamNamesGrow(segments: seq<Segment>, s: Segment)
    ensures ParamNames(segments + [s]) == ParamNames(segments) + (if s.Param? then {s.name} else {})
  {
    var longer := segments + [s];
    forall x | x in ParamNames(segments) ensures x in ParamNames(longer) {
      var i :| 0 <= i < |segments| && segments[i].Param? && segments[i].name == x;
      assert longer[i] == segments[i];
    }
    if s.Param? {
      assert longer[|segments|] == s;
    }
  }

  /** A segment as a pattern writes it. */
  function Written(s: Segment): string {
    match s
    case Literal(value) => value
    case Param(name) => ":" + name
    case Wildcard => "*"
  }

  /** What a parsed pattern promises: it reads its path segment by segment, a wildcard only last, no name twice. */
  ghost predicate WellFormed(segments: seq<Segment>) {
    && (forall i :: 0 <= i < |segments| - 1 ==> !segments[i].Wildcard?)
    && (forall i, j :: 0 <= i < j < |segments| && segments[i].Param? && segments[j].Param? ==> segments[i].name != segments[j].name)
  }

  lemma {:induction false} ReadIsWritten(raw: seq<string>, n: nat)
    requires n <= |raw| && ReadSegments(raw, n).Pattern?
    ensures var segments := ReadSegments(raw, n).segments;
            && |segments| == n
            && (forall i :: 0 <= i < n ==> Written(segments[i]) == raw[i])
            && (forall i :: 0 <= i < n && i < |raw| - 1 ==> !segments[i].Wildcard?)
            && (forall i, j :: 0 <= i < j < n && segments[i].Param? && segments[j].Param? ==> segments[i].name != segments[j].name)
  {
    if n > 0 {
      ReadIsWritten(raw, n - 1);
      var before := ReadSegments(raw, n - 1).segments;
      var next := ReadSegment(raw[n - 1], n == |raw|, ParamNames(before)).segments[0];
      if next.Param? {
        assert raw[n - 1] == [raw[n - 1][0]] + raw[n - 1][1..];
        forall i | 0 <= i < n - 1 && before[i].Param? ensures before[i].name != next.name {
          assert before[i].name in ParamNames(before);
        }
      }
    }
  }

  /** A pattern determines its path: the segments, written and joined, give it back. */
  lemma PatternIsWritten(path: string)
    requires PatternOf(path).Pattern?
    ensures WellFormed(PatternOf(path).segments)
    ensures path == "/" + Join(Map(Written, PatternOf(path).segments), '/')
  {
    var segments := PatternOf(path).segments;
    ReadIsWritten(SplitPath(path), |SplitPath(path)|);
    assert Map(Written, segments) == SplitPath(path);
    if path != "/" {
      JoinSplit(path[1..], '/');
      assert path == "/" + path[1..];
    }
  }

  predicate IsReservedPrefix(prefix: string) {
    var pattern := PatternOf(prefix);
    && pattern.Pattern? && |pattern.segments| > 0 && prefix[|prefix| - 1] != '/'
    && forall i :: 0 <= i < |pattern.segments| ==> pattern.segments[i].Literal?
  }

  predicate IsUnder(path: string, prefix: string) {
    StartsWith(path, prefix + "/")
  }

  // ----- shapes and specificity

  function ShapeOf(s: Segment): string {
    match s
    case Literal(value) => "=" + value
    case Param(_) => "param"
    case Wildcard => "wildcard"
  }

  function Shape(segments: seq<Segment>): seq<string> {
    Map(ShapeOf, segments)
  }

  function Rank(s: Segment): int {
    match s
    case Literal(_) => 0
    case Param(_) => 1
    case Wildcard => 2
  }

  /** Below zero where `a` wins, above it where `b` does. */
  function Specificity(a: seq<Segment>, b: seq<Segment>): int {
    if a == [] || b == [] then |a| - |b|
    else if Rank(a[0]) != Rank(b[0]) then Rank(a[0]) - Rank(b[0])
    else Specificity(a[1..], b[1..])
  }

  method CompareSpecificity(a: seq<Segment>, b: seq<Segment>) returns (order: int)
    ensures order == Specificity(a, b)
  {
    var shared := if |a| <= |b| then |a| else |b|;
    for index := 0 to shared
      invariant Specificity(a, b) == Specificity(a[index..], b[index..])
    {
      order := Rank(a[index]) - Rank(b[index]);
      if order != 0 {
        return;
      }
    }
    order := |a| - |b|;
  }

  lemma {:induction false} SpecificityReverses(a: seq<Segment>, b: seq<Segment>)
    ensures Specificity(a, b) == -Specificity(b, a)
  {
    if a != [] && b != [] && Rank(a[0]) == Rank(b[0]) {
      SpecificityReverses(a[1..], b[1..]);
    }
  }

  /** Specificity is a total preorder: with `SpecificityReverses`, every two patterns compare and the order is transitive. */
  lemma {:induction false} SpecificityTransitive(a: seq<Segment>, b: seq<Segment>, c: seq<Segment>)
    requires Specificity(a, b) <= 0 && Specificity(b, c) <= 0
    ensures Specificity(a, c) <= 0
    ensures Specificity(a, b) < 0 || Specificity(b, c) < 0 ==> Specificity(a, c) < 0
  {
    if a != [] && b != [] && c != [] && Rank(a[0]) == Rank(b[0]) && Rank(b[0]) == Rank(c[0]) {
      SpecificityTransitive(a[1..], b[1..], c[1..]);
    }
  }

  // ----- matching

  /** The parameters a path gives a pattern's segments from index `i` on, in order; `None` when it does not match. */
  function Match(segments: seq<Segment>, path: seq<string>, i: nat): Option<seq<(string, string)>>
    decreases |segments| - i
  {
    if i >= |segments| then
      if |segments| == |path| then Some([]) else None
    else if segments[i].Wildcard? then
      if i == 0 || |path| > i then Some([]) else None
    else if i >= |path| then
      None
    else if segments[i].Param? then
      if path[i] == "" then None
      else
        var rest := Match(segments, path, i + 1);
        if rest == None then None else Some([(segments[i].name, path[i])] + rest.value)
    else if segments[i].value != path[i] then
      None
    else
      Match(segments, path, i + 1)
  }

  function FromEntries(entries: seq<(string, string)>): map<string, string> {
    if entries == [] then map[]
    else FromEntries(entries[..|entries| - 1])[entries[|entries| - 1].0 := entries[|entries| - 1].1]
  }

  function MatchParams(segments: seq<Segment>, path: seq<string>): Option<map<string, string>> {
    match Match(segments, path, 0)
    case None => None
    case Some(entries) => Some(FromEntries(entries))
  }

  method MatchSegments(segments: seq<Segment>, path: seq<string>) returns (params: Option<map<string, string>>)
    ensures params == MatchParams(segments, path)
  {
    var entries: seq<(string, string)> := [];
    if Match(segments, path, 0).Some? {
      assert entries + Match(segments, path, 0).value == Match(segments, path, 0).value;
    }
    for index := 0 to |segments|
      invariant Match(segments, path, 0) ==
                match Match(segments, path, index) { case None => None case Some(rest) => Some(entries + rest) }
    {
      if segments[index].Wildcard? {
        assert entries + [] == entries;
        return if index == 0 || |path| > index then Some(FromEntries(entries)) else None;
      }
      if index >= |path| {
        return None;
      }
      if segments[index].Param? {
        if path[index] == "" {
          return None;
        }
        ghost var rest := Match(segments, path, index + 1);
        if rest.Some? {
          assert entries + ([(segments[index].name, path[index])] + rest.value) == entries + [(segments[index].name, path[index])] + rest.value;
        }
        entries := entries + [(segments[index].name, path[index])];
      } else if segments[index].value != path[index] {
        return None;
      }
    }
    assert entries + [] == entries;
    return if |segments| == |path| then Some(FromEntries(entries)) else None;
  }

  /** A pattern matches a path when each segment admits the path's own. */
  ghost predicate Admits(segments: seq<Segment>, path: seq<string>) {
    var n := if segments != [] && segments[|segments| - 1].Wildcard? then |segments| - 1 else |segments|;
    && n <= |path|
    && (forall i :: 0 <= i < n && segments[i].Literal? ==> segments[i].value == path[i])
    && (forall i :: 0 <= i < n && segments[i].Param? ==> path[i] != "")
    && (if n == |segments| then |path| == n else n == 0 || |path| > n)
  }

  ghost predicate AdmitsFrom(segments: seq<Segment>, path: seq<string>, i: nat) {
    var n := if segments != [] && segments[|segments| - 1].Wildcard? then |segments| - 1 else |segments|;
    && (n <= |path| || i > n)
    && (forall j :: i <= j < n && segments[j].Literal? && j < |path| ==> segments[j].value == path[j])
    && (forall j :: i <= j < n && segments[j].Param? && j < |path| ==> path[j] != "")
    && (if n == |segments| then |path| == n else n == 0 || |path| > n)
  }

  lemma {:induction false} MatchAdmits(segments: seq<Segment>, path: seq<string>, i: nat)
    requires WellFormed(segments) && i <= |segments| && (segments != [] && segments[|segments| - 1].Wildcard? ==> i < |segments|)
    ensures Match(segments, path, i).Some? <==> AdmitsFrom(segments, path, i)
    decreases |segments| - i
  {
    if i < |segments| && !segments[i].Wildcard? && i < |path| {
      MatchAdmits(segments, path, i + 1);
    }
  }

  /** `matchSegments` accepts exactly the paths its pattern admits. */
  lemma MatchesIffAdmits(segments: seq<Segment>, path: seq<string>)
    requires WellFormed(segments)
    ensures MatchParams(segments, path).Some? <==> Admits(segments, path)
  {
    MatchAdmits(segments, path, 0);
  }

  lemma {:induction false} FromEntriesCons(x: (string, string), rest: seq<(string, string)>)
    ensures FromEntries([x] + rest) == map[x.0 := x.1] + FromEntries(rest)
  {
    var all := [x] + rest;
    if rest == [] {
      assert all == [x] && all[..0] == [];
    } else {
      var n := |rest| - 1;
      FromEntriesCons(x, rest[..n]);
      assert all[..|all| - 1] == [x] + rest[..n] && all[|all| - 1] == rest[n];
    }
  }

  /** The parameter segments from index `i` on, each bound to the path's own segment, and nothing else. */
  ghost predicate Binds(segments: seq<Segment>, path: seq<string>, i: nat, params: map<string, string>) {
    && (forall j :: i <= j < |segments| && segments[j].Param? ==> j < |path| && segments[j].name in params && params[segments[j].name] == path[j])
    && (forall name :: name in params ==> exists j :: i <= j < |segments| && segments[j].Param? && segments[j].name == name)
  }

  lemma {:induction false} MatchBinds(segments: seq<Segment>, path: seq<string>, i: nat)
    requires WellFormed(segments) && Match(segments, path, i).Some?
    ensures Binds(segments, path, i, FromEntries(Match(segments, path, i).value))
    decreases |segments| - i
  {
    if i < |segments| && !segments[i].Wildcard? {
      MatchBinds(segments, path, i + 1);
      if segments[i].Param? {
        FromEntriesCons((segments[i].name, path[i]), Match(segments, path, i + 1).value);
      }
    }
  }

  /** The parameters of a match are the pattern's own, each the raw segment at its place. */
  lemma ParamsAreBound(segments: seq<Segment>, path: seq<string>)
    requires WellFormed(segments) && MatchParams(segments, path).Some?
    ensures Binds(segments, path, 0, MatchParams(segments, path).value)
  {
    MatchBinds(segments, path, 0);
  }

  /** Two patterns of one rank order that match one path have the same shape: the path fixes their literals. */
  lemma {:induction false} TieIsShape(a: seq<Segment>, b: seq<Segment>, path: seq<string>, i: nat)
    requires WellFormed(a) && WellFormed(b) && i <= |a| && i <= |b|
    requires Match(a, path, i).Some? && Match(b, path, i).Some? && Specificity(a[i..], b[i..]) == 0
    ensures |a| == |b| && forall k :: i <= k < |a| ==> ShapeOf(a[k]) == ShapeOf(b[k])
    decreases |a| - i
  {
    if i < |a| && i < |b| && !a[i].Wildcard? {
      assert a[i..][1..] == a[i + 1..] && b[i..][1..] == b[i + 1..];
      TieIsShape(a, b, path, i + 1);
    }
  }

  // ----- analyse

  ghost predicate PatternsAccepted(table: EndpointTable) {
    forall i :: 0 <= i < |table.endpoints| ==> PatternOf(table.endpoints[i].path).Pattern?
  }

  ghost predicate Ambiguous(a: Row, b: Row) {
    && PatternOf(a.path).Pattern? && PatternOf(b.path).Pattern?
    && Shape(PatternOf(a.path).segments) == Shape(PatternOf(b.path).segments)
    && MethodsOverlap(a.verb, b.verb)
  }

  /** No path or prefix is invalid, no id or prefix is declared twice, and no two rows share a shape and a method. */
  ghost predicate Acceptable(table: EndpointTable) {
    && PatternsAccepted(table)
    && (forall i, j :: 0 <= i < j < |table.endpoints| ==> table.endpoints[i].id != table.endpoints[j].id)
    && (forall i, j :: 0 <= i < j < |table.endpoints| ==> !Ambiguous(table.endpoints[i], table.endpoints[j]))
    && (forall i :: 0 <= i < |table.reservedPrefixes| ==> IsReservedPrefix(table.reservedPrefixes[i]))
    && Distinct(table.reservedPrefixes)
  }

  ghost function CompiledRows(rows: seq<Row>): seq<Compiled>
    requires forall i :: 0 <= i < |rows| ==> PatternOf(rows[i].path).Pattern?
  {
    seq(|rows|, i requires 0 <= i < |rows| => Compiled(rows[i], PatternOf(rows[i].path).segments))
  }

  /** Why a problem is reported: each names a row or a prefix that breaks its rule. */
  ghost predicate IsProblem(table: EndpointTable, p: Problem) {
    match p
    case DuplicateId(id) =>
      exists i, j :: 0 <= i < j < |table.endpoints| && table.endpoints[i].id == id && table.endpoints[j].id == id
    case BadPath(id, path, problem) =>
      exists i :: 0 <= i < |table.endpoints| && table.endpoints[i].id == id && table.endpoints[i].path == path
                  && PatternOf(path) == Malformed(problem)
    case BothServe(id, previous, verb, path) =>
      exists i, j :: 0 <= i < j < |table.endpoints| && Ambiguous(table.endpoints[i], table.endpoints[j])
                     && table.endpoints[i].id == previous && table.endpoints[j] == Row(id, verb, path)
    case NotLiteral(prefix) =>
      prefix in table.reservedPrefixes && !IsReservedPrefix(prefix)
    case DuplicatePrefix(prefix) =>
      exists i, j :: 0 <= i < j < |table.reservedPrefixes| && table.reservedPrefixes[i] == prefix && table.reservedPrefixes[j] == prefix
  }

  ghost predicate HasShape(row: Row, shape: seq<string>) {
    PatternOf(row.path).Pattern? && Shape(PatternOf(row.path).segments) == shape
  }

  /** `shapes`: the first `n` rows that parse, by shape. */
  ghost predicate ShapesOf(rows: seq<Row>, n: nat, shapes: map<seq<string>, seq<Row>>)
    requires n <= |rows|
  {
    && (forall shape, k :: shape in shapes && 0 <= k < |shapes[shape]| ==> Seen(rows, n, shapes[shape][k]) && HasShape(shapes[shape][k], shape))
    && (forall i :: 0 <= i < n && PatternOf(rows[i].path).Pattern? ==> Holds(shapes, Shape(PatternOf(rows[i].path).segments), rows[i]))
  }

  ghost predicate Seen(rows: seq<Row>, n: nat, row: Row)
    requires n <= |rows|
  {
    exists i :: 0 <= i < n && rows[i] == row
  }

  ghost predicate Holds(shapes: map<seq<string>, seq<Row>>, shape: seq<string>, row: Row) {
    shape in shapes && row in shapes[shape]
  }

  lemma ShapesGrow(rows: seq<Row>, n: nat, shapes: map<seq<string>, seq<Row>>, shape: seq<string>)
    requires n < |rows| && ShapesOf(rows, n, shapes) && HasShape(rows[n], shape)
    ensures ShapesOf(rows, n + 1, shapes[shape := (if shape in shapes then shapes[shape] else []) + [rows[n]]])
  {
    hide Shape, PatternOf;
    var more := shapes[shape := (if shape in shapes then shapes[shape] else []) + [rows[n]]];
    forall s, k | s in more && 0 <= k < |more[s]| ensures Seen(rows, n + 1, more[s][k]) && HasShape(more[s][k], s) {
      if s == shape && k == |more[s]| - 1 {
        assert rows[n] == more[s][k];
      } else {
        assert s in shapes && more[s][k] == shapes[s][k];
        assert Seen(rows, n, shapes[s][k]);
      }
    }
    forall i | 0 <= i < n + 1 && PatternOf(rows[i].path).Pattern? ensures Holds(more, Shape(PatternOf(rows[i].path).segments), rows[i]) {
      if i < n {
        assert Holds(shapes, Shape(PatternOf(rows[i].path).segments), rows[i]);
      }
    }
  }

  /** `sameShape.find(…)`: the first row whose methods overlap. */
  method FindOverlap(sameShape: seq<Row>, verb: string) returns (previous: Option<Row>)
    ensures previous == None ==> forall k :: 0 <= k < |sameShape| ==> !MethodsOverlap(sameShape[k].verb, verb)
    ensures previous.Some? ==> previous.value in sameShape && MethodsOverlap(previous.value.verb, verb)
  {
    for k := 0 to |sameShape|
      invariant forall j :: 0 <= j < k ==> !MethodsOverlap(sameShape[j].verb, verb)
    {
      if MethodsOverlap(sameShape[k].verb, verb) {
        return Some(sameShape[k]);
      }
    }
    previous := None;
  }

  /** Row `n` parses and is ambiguous with no earlier row. */
  ghost predicate RowServes(rows: seq<Row>, n: nat)
    requires n < |rows|
  {
    PatternOf(rows[n].path).Pattern? && forall i :: 0 <= i < n ==> !Ambiguous(rows[i], rows[n])
  }

  ghost predicate NewId(rows: seq<Row>, n: nat)
    requires n < |rows|
  {
    forall i :: 0 <= i < n ==> rows[i].id != rows[n].id
  }

  /** What is wrong with the path of row `n`, alone or beside an earlier row, is among the problems. */
  ghost predicate PathReported(rows: seq<Row>, n: nat, problems: seq<Problem>)
    requires n < |rows|
  {
    match PatternOf(rows[n].path)
    case Malformed(problem) => BadPath(rows[n].id, rows[n].path, problem) in problems
    case Pattern(_) => RowServes(rows, n) || exists i :: 0 <= i < n && OverlapReported(rows[i], rows[n], problems)
  }

  ghost predicate OverlapReported(previous: Row, row: Row, problems: seq<Problem>) {
    Ambiguous(previous, row) && BothServe(row.id, previous.id, row.verb, row.path) in problems
  }

  ghost predicate RowReported(rows: seq<Row>, n: nat, problems: seq<Problem>)
    requires n < |rows|
  {
    PathReported(rows, n, problems) && (NewId(rows, n) || DuplicateId(rows[n].id) in problems)
  }

  ghost predicate RowsReported(rows: seq<Row>, n: nat, problems: seq<Problem>)
    requires n <= |rows|
  {
    forall i :: 0 <= i < n ==> RowReported(rows, i, problems)
  }

  lemma PathStaysReported(rows: seq<Row>, n: nat, problems: seq<Problem>, more: seq<Problem>)
    requires n < |rows| && PathReported(rows, n, problems) && forall p :: p in problems ==> p in more
    ensures PathReported(rows, n, more)
  {
    hide PatternOf, Ambiguous, RowServes;
    if PatternOf(rows[n].path).Pattern? && !RowServes(rows, n) {
      var i :| 0 <= i < n && OverlapReported(rows[i], rows[n], problems);
      assert OverlapReported(rows[i], rows[n], more);
    }
  }

  lemma RowsStayReported(rows: seq<Row>, n: nat, problems: seq<Problem>, more: seq<Problem>)
    requires n <= |rows| && RowsReported(rows, n, problems) && forall p :: p in problems ==> p in more
    ensures RowsReported(rows, n, more)
  {
    hide PathReported, NewId;
    forall i | 0 <= i < n ensures RowReported(rows, i, more) {
      assert RowReported(rows, i, problems);
      PathStaysReported(rows, i, problems, more);
    }
  }

  /** The problems of one more row: those of its id, then those of its path. */
  lemma RowIsReported(rows: seq<Row>, n: nat, before: seq<Problem>, own: seq<Problem>, found: seq<Problem>)
    requires n < |rows| && RowsReported(rows, n, before) && PathReported(rows, n, found)
    requires NewId(rows, n) || DuplicateId(rows[n].id) in own
    ensures RowsReported(rows, n + 1, before + own + found)
  {
    hide PathReported, NewId, RowReported;
    RowsStayReported(rows, n, before, before + own + found);
    PathStaysReported(rows, n, found, before + own + found);
    RowHasBoth(rows, n, before + own + found);
  }

  lemma RowHasBoth(rows: seq<Row>, n: nat, problems: seq<Problem>)
    requires n < |rows| && PathReported(rows, n, problems) && (NewId(rows, n) || DuplicateId(rows[n].id) in problems)
    ensures RowReported(rows, n, problems)
  {
  }

  method AnalysePath(table: EndpointTable, n: nat, shapes: map<seq<string>, seq<Row>>)
      returns (found: seq<Problem>, compiled: Option<Compiled>, more: map<seq<string>, seq<Row>>)
    requires n < |table.endpoints| && ShapesOf(table.endpoints, n, shapes)
    ensures ShapesOf(table.endpoints, n + 1, more)
    ensures found == [] <==> RowServes(table.endpoints, n)
    ensures AllProblems(table, found) && PathReported(table.endpoints, n, found)
    ensures found == [] ==> compiled == Some(Compiled(table.endpoints[n], PatternOf(table.endpoints[n].path).segments))
  {
    var rows := table.endpoints;
    var row := rows[n];
    var pattern := ParsePattern(row.path);
    if pattern.Malformed? {
      assert ShapesOf(rows, n + 1, shapes) by {
        forall shape, k | shape in shapes && 0 <= k < |shapes[shape]| ensures Seen(rows, n + 1, shapes[shape][k]) {
          assert Seen(rows, n, shapes[shape][k]);
        }
      }
      assert IsProblem(table, BadPath(row.id, row.path, pattern.problem));
      return [BadPath(row.id, row.path, pattern.problem)], None, shapes;
    }
    var shape := Shape(pattern.segments);
    var sameShape := if shape in shapes then shapes[shape] else [];
    var previous := FindOverlap(sameShape, row.verb);
    ShapesGrow(rows, n, shapes, shape);
    more := shapes[shape := sameShape + [row]];
    compiled := Some(Compiled(row, pattern.segments));
    if previous.Some? {
      var k :| 0 <= k < |shapes[shape]| && shapes[shape][k] == previous.value;
      assert Seen(rows, n, shapes[shape][k]);
      var i :| 0 <= i < n && rows[i] == previous.value;
      assert Ambiguous(rows[i], rows[n]);
      assert rows[n] == Row(row.id, row.verb, row.path);
      found := [BothServe(row.id, previous.value.id, row.verb, row.path)];
      assert IsProblem(table, found[0]);
      assert OverlapReported(rows[i], rows[n], found);
    } else {
      found := [];
      forall i | 0 <= i < n ensures !Ambiguous(rows[i], rows[n]) {
        if PatternOf(rows[i].path).Pattern? {
          assert Holds(shapes, Shape(PatternOf(rows[i].path).segments), rows[i]);
        }
      }
    }
  }

  /** The first `n` rows break no rule. */
  ghost predicate RowsAccepted(rows: seq<Row>, n: nat)
    requires n <= |rows|
  {
    forall i :: 0 <= i < n ==> RowServes(rows, i) && NewId(rows, i)
  }

  method AnalyseRows(table: EndpointTable) returns (problems: seq<Problem>, endpoints: seq<Compiled>)
    ensures problems == [] <==> RowsAccepted(table.endpoints, |table.endpoints|)
    ensures forall k :: 0 <= k < |problems| ==> IsProblem(table, problems[k])
    ensures RowsReported(table.endpoints, |table.endpoints|, problems)
    ensures problems == [] ==> PatternsAccepted(table) && endpoints == CompiledRows(table.endpoints)
  {
    var rows := table.endpoints;
    problems, endpoints := [], [];
    var ids: set<string> := {};
    var shapes: map<seq<string>, seq<Row>> := map[];
    NothingAnalysed(table);
    hide *;
    for n := 0 to |rows|
      invariant IdsOf(rows, n, ids) && ShapesOf(rows, n, shapes)
      invariant problems == [] <==> RowsAccepted(rows, n)
      invariant AllProblems(table, problems) && RowsReported(rows, n, problems)
      invariant problems == [] ==> CompiledTo(rows, n, endpoints)
    {
      RowStep(table, n, ids);
      ghost var before, wasCompiled := problems, endpoints;
      ghost var own: seq<Problem> := [];
      if rows[n].id in ids {
        ProblemsAdd(table, problems, [DuplicateId(rows[n].id)]);
        own := [DuplicateId(rows[n].id)];
        problems := problems + [DuplicateId(rows[n].id)];
      }
      ids := ids + {rows[n].id};
      var found, compiled, more := AnalysePath(table, n, shapes);
      ProblemsAdd(table, problems, found);
      RowIsReported(rows, n, before, own, found);
      assert before + own == problems;
      problems, shapes := problems + found, more;
      if compiled.Some? {
        endpoints := endpoints + [compiled.value];
      }
      if before == [] && found == [] {
        CompiledStep(rows, n, wasCompiled);
      }
    }
    CompiledWhole(table, endpoints);
  }

  ghost predicate IdsOf(rows: seq<Row>, n: nat, ids: set<string>)
    requires n <= |rows|
  {
    forall id :: id in ids <==> exists i :: 0 <= i < n && rows[i].id == id
  }

  ghost predicate AllProblems(table: EndpointTable, problems: seq<Problem>) {
    forall k :: 0 <= k < |problems| ==> IsProblem(table, problems[k])
  }

  ghost predicate CompiledTo(rows: seq<Row>, n: nat, endpoints: seq<Compiled>)
    requires n <= |rows|
  {
    |endpoints| == n && forall i :: 0 <= i < n ==>
      PatternOf(rows[i].path).Pattern? && endpoints[i] == Compiled(rows[i], PatternOf(rows[i].path).segments)
  }

  lemma NothingAnalysed(table: EndpointTable)
    ensures IdsOf(table.endpoints, 0, {}) && ShapesOf(table.endpoints, 0, map[]) && RowsAccepted(table.endpoints, 0)
    ensures AllProblems(table, []) && CompiledTo(table.endpoints, 0, []) && RowsReported(table.endpoints, 0, [])
  {
  }

  /** One more row is accepted when it serves and its id is new. */
  lemma RowStep(table: EndpointTable, n: nat, ids: set<string>)
    requires n < |table.endpoints| && IdsOf(table.endpoints, n, ids)
    ensures IdsOf(table.endpoints, n + 1, ids + {table.endpoints[n].id})
    ensures table.endpoints[n].id in ids <==> !NewId(table.endpoints, n)
    ensures table.endpoints[n].id in ids ==> AllProblems(table, [DuplicateId(table.endpoints[n].id)])
    ensures RowsAccepted(table.endpoints, n + 1) <==>
              RowsAccepted(table.endpoints, n) && RowServes(table.endpoints, n) && NewId(table.endpoints, n)
  {
    hide RowServes;
    var rows := table.endpoints;
    forall id ensures id in ids + {rows[n].id} <==> exists i :: 0 <= i < n + 1 && rows[i].id == id {
      if id in ids {
        var i :| 0 <= i < n && rows[i].id == id;
        assert rows[i].id == id;
      } else if id == rows[n].id {
        assert rows[n].id == id;
      }
    }
    if rows[n].id in ids {
      var i :| 0 <= i < n && rows[i].id == rows[n].id;
      assert IsProblem(table, DuplicateId(rows[n].id));
    }
  }

  lemma ProblemsAdd(table: EndpointTable, a: seq<Problem>, b: seq<Problem>)
    requires AllProblems(table, a)
    ensures AllProblems(table, b) ==> AllProblems(table, a + b)
  {
    hide IsProblem;
  }

  lemma CompiledStep(rows: seq<Row>, n: nat, endpoints: seq<Compiled>)
    requires n < |rows| && RowServes(rows, n)
    ensures PatternOf(rows[n].path).Pattern?
    ensures CompiledTo(rows, n, endpoints) ==>
              CompiledTo(rows, n + 1, endpoints + [Compiled(rows[n], PatternOf(rows[n].path).segments)])
  {
    hide PatternOf;
  }

  lemma CompiledWhole(table: EndpointTable, endpoints: seq<Compiled>)
    ensures CompiledTo(table.endpoints, |table.endpoints|, endpoints) ==>
              PatternsAccepted(table) && endpoints == CompiledRows(table.endpoints)
    ensures forall problems :: AllProblems(table, problems) ==> forall k :: 0 <= k < |problems| ==> IsProblem(table, problems[k])
  {
    hide PatternOf, IsProblem;
  }

  /** The first `n` prefixes are reserved prefixes, each new. */
  ghost predicate PrefixesAccepted(prefixes: seq<string>, n: nat)
    requires n <= |prefixes|
  {
    forall i :: 0 <= i < n ==> IsReservedPrefix(prefixes[i]) && forall j :: 0 <= j < i ==> prefixes[j] != prefixes[i]
  }

  /** A prefix that is none, or that an earlier one repeats, is among the problems. */
  ghost predicate PrefixesReported(prefixes: seq<string>, n: nat, problems: seq<Problem>)
    requires n <= |prefixes|
  {
    forall i :: 0 <= i < n ==>
      (if IsReservedPrefix(prefixes[i]) then prefixes[i] !in prefixes[..i] || DuplicatePrefix(prefixes[i]) in problems
       else NotLiteral(prefixes[i]) in problems)
  }

  method AnalysePrefixes(table: EndpointTable) returns (problems: seq<Problem>)
    ensures problems == [] <==> PrefixesAccepted(table.reservedPrefixes, |table.reservedPrefixes|)
    ensures forall k :: 0 <= k < |problems| ==> IsProblem(table, problems[k])
    ensures PrefixesReported(table.reservedPrefixes, |table.reservedPrefixes|, problems)
  {
    hide IsReservedPrefix;
    var all := table.reservedPrefixes;
    problems := [];
    var prefixes: set<string> := {};
    for n := 0 to |all|
      invariant forall prefix :: prefix in prefixes <==> exists i :: 0 <= i < n && all[i] == prefix
      invariant problems == [] <==> PrefixesAccepted(all, n)
      invariant forall k :: 0 <= k < |problems| ==> IsProblem(table, problems[k])
      invariant PrefixesReported(all, n, problems)
    {
      if !IsReservedPrefix(all[n]) {
        problems := problems + [NotLiteral(all[n])];
      } else if all[n] in prefixes {
        assert IsProblem(table, DuplicatePrefix(all[n]));
        problems := problems + [DuplicatePrefix(all[n])];
      }
      prefixes := prefixes + {all[n]};
    }
  }

  method Analyse(table: EndpointTable) returns (r: Analysis)
    ensures r.Accepted? <==> Acceptable(table)
    ensures r.Accepted? ==> r.endpoints == CompiledRows(table.endpoints)
    ensures r.Refused? ==> r.problems != [] && forall k :: 0 <= k < |r.problems| ==> IsProblem(table, r.problems[k])
    ensures r.Refused? ==>
              && RowsReported(table.endpoints, |table.endpoints|, r.problems)
              && PrefixesReported(table.reservedPrefixes, |table.reservedPrefixes|, r.problems)
  {
    hide RowsReported, IsReservedPrefix;
    var rowProblems, endpoints := AnalyseRows(table);
    var prefixProblems := AnalysePrefixes(table);
    var problems := rowProblems + prefixProblems;
    RowsStayReported(table.endpoints, |table.endpoints|, rowProblems, problems);
    AcceptedIsAcceptable(table);
    if |problems| > 0 {
      return Refused(problems);
    }
    return Accepted(endpoints);
  }

  lemma AcceptedIsAcceptable(table: EndpointTable)
    ensures Acceptable(table) <==>
              && RowsAccepted(table.endpoints, |table.endpoints|)
              && PrefixesAccepted(table.reservedPrefixes, |table.reservedPrefixes|)
  {
    hide IsReservedPrefix, PatternOf, Shape;
    var rows := table.endpoints;
    if RowsAccepted(rows, |rows|) {
      forall i, j | 0 <= i < j < |rows| ensures rows[i].id != rows[j].id && !Ambiguous(rows[i], rows[j]) {
        assert RowServes(rows, j) && NewId(rows, j);
      }
      forall i | 0 <= i < |rows| ensures PatternOf(rows[i].path).Pattern? {
        assert RowServes(rows, i);
      }
    }
  }

  // ----- select

  /** The longest reserved prefix the path lies under. */
  ghost predicate IsLongestPrefix(path: string, prefixes: seq<string>, longest: Option<string>) {
    match longest
    case None => forall i :: 0 <= i < |prefixes| ==> !IsUnder(path, prefixes[i])
    case Some(prefix) =>
      prefix in prefixes && IsUnder(path, prefix) && forall i :: 0 <= i < |prefixes| && IsUnder(path, prefixes[i]) ==> |prefixes[i]| <= |prefix|
  }

  method LongestPrefixOf(path: string, prefixes: seq<string>) returns (longest: Option<string>)
    ensures IsLongestPrefix(path, prefixes, longest)
  {
    longest := None;
    for i := 0 to |prefixes|
      invariant longest == None ==> forall j :: 0 <= j < i ==> !IsUnder(path, prefixes[j])
      invariant longest.Some? ==> longest.value in prefixes && IsUnder(path, longest.value)
                                  && forall j :: 0 <= j < i && IsUnder(path, prefixes[j]) ==> |prefixes[j]| <= |longest.value|
    {
      if IsUnder(path, prefixes[i]) && (longest == None || |prefixes[i]| > |longest.value|) {
        longest := Some(prefixes[i]);
      }
    }
  }

  /** The longest prefix is one text: two prefixes of one path and one length are equal. */
  lemma LongestPrefixUnique(path: string, prefixes: seq<string>, others: seq<string>, a: Option<string>, b: Option<string>)
    requires multiset(prefixes) == multiset(others)
    requires IsLongestPrefix(path, prefixes, a) && IsLongestPrefix(path, others, b)
    ensures a == b
  {
    Sorting.SameElements(prefixes, others);
    if a.Some? && b.Some? {
      var x, y := a.value, b.value;
      var i :| 0 <= i < |others| && others[i] == x;
      var j :| 0 <= j < |prefixes| && prefixes[j] == y;
      assert |x| == |y| && x == path[..|x| + 1][..|x|] && y == path[..|y| + 1][..|y|];
    } else {
      assert forall x :: x in prefixes ==> exists i :: 0 <= i < |others| && others[i] == x;
      assert forall x :: x in others ==> exists i :: 0 <= i < |prefixes| && prefixes[i] == x;
    }
  }

  /** A row that serves the method, lies under the reserved prefix if there is one, and matches the path. */
  ghost predicate Competes(e: Compiled, reserved: Option<string>, verb: string, path: seq<string>) {
    && ServesMethod(e.row.verb, verb)
    && (reserved.Some? ==> IsUnder(e.row.path, reserved.value))
    && MatchParams(e.segments, path).Some?
  }

  /** Row `i` competes and every other competitor is strictly less specific. */
  ghost predicate Wins(endpoints: seq<Compiled>, reserved: Option<string>, verb: string, path: seq<string>, i: nat) {
    && i < |endpoints| && Competes(endpoints[i], reserved, verb, path)
    && forall j :: 0 <= j < |endpoints| && j != i && Competes(endpoints[j], reserved, verb, path) ==>
         Specificity(endpoints[i].segments, endpoints[j].segments) < 0
  }

  /** What `select` answers for any rows: the unique most specific competitor, or none. */
  ghost predicate Selects(endpoints: seq<Compiled>, prefixes: seq<string>, verb: string, rawPath: string, plan: Plan) {
    if !IsCanonicalPath(rawPath) then plan == NonCanonical
    else exists reserved :: IsLongestPrefix(rawPath, prefixes, reserved) && SelectsUnder(endpoints, reserved, verb, SplitPath(rawPath), plan)
  }

  ghost predicate SelectsUnder(endpoints: seq<Compiled>, reserved: Option<string>, verb: string, path: seq<string>, plan: Plan) {
    match plan
    case NonCanonical => false
    case NoEndpoint => forall i: nat :: !Wins(endpoints, reserved, verb, path, i)
    case Endpoint(row, params) =>
      exists i: nat :: Wins(endpoints, reserved, verb, path, i) && row == endpoints[i].row
                       && MatchParams(endpoints[i].segments, path) == Some(params)
  }

  /** What the loop of `select` knows after `n` rows: `best` is a most specific competitor, alone unless `tied`. */
  ghost predicate BestSoFar(endpoints: seq<Compiled>, reserved: Option<string>, verb: string, path: seq<string>, n: nat, best: Option<nat>, tied: bool)
    requires n <= |endpoints|
  {
    && (best == None ==> !tied && forall j :: 0 <= j < n ==> !Competes(endpoints[j], reserved, verb, path))
    && (best.Some? ==>
          && best.value < n && Competes(endpoints[best.value], reserved, verb, path)
          && (forall j :: 0 <= j < n && Competes(endpoints[j], reserved, verb, path) ==>
                Specificity(endpoints[best.value].segments, endpoints[j].segments) <= 0)
          && (tied <==> exists j :: 0 <= j < n && j != best.value && Competes(endpoints[j], reserved, verb, path)
                                    && Specificity(endpoints[best.value].segments, endpoints[j].segments) == 0))
  }

  lemma BestStep(endpoints: seq<Compiled>, reserved: Option<string>, verb: string, path: seq<string>, n: nat, best: Option<nat>, tied: bool)
    requires n < |endpoints| && BestSoFar(endpoints, reserved, verb, path, n, best, tied) && Competes(endpoints[n], reserved, verb, path)
    ensures var order := if best == None then -1 else Specificity(endpoints[n].segments, endpoints[best.value].segments);
            BestSoFar(endpoints, reserved, verb, path, n + 1, if order < 0 then Some(n) else best, if order < 0 then false else tied || order == 0)
  {
    SpecificityReverses(endpoints[n].segments, endpoints[n].segments);
    if best.Some? {
      var b := best.value;
      SpecificityReverses(endpoints[n].segments, endpoints[b].segments);
      if Specificity(endpoints[n].segments, endpoints[b].segments) < 0 {
        forall j | 0 <= j < n && Competes(endpoints[j], reserved, verb, path)
          ensures Specificity(endpoints[n].segments, endpoints[j].segments) < 0
        {
          SpecificityTransitive(endpoints[n].segments, endpoints[b].segments, endpoints[j].segments);
        }
      }
    }
  }

  method Select(endpoints: seq<Compiled>, reservedPrefixes: seq<string>, verb: string, rawPath: string) returns (plan: Plan)
    ensures Selects(endpoints, reservedPrefixes, verb, rawPath, plan)
  {
    if !IsCanonicalPath(rawPath) {
      return NonCanonical;
    }
    var path := SplitPath(rawPath);
    var reserved := LongestPrefixOf(rawPath, reservedPrefixes);
    plan := SelectUnder(endpoints, reserved, verb, path);
  }

  method SelectUnder(endpoints: seq<Compiled>, reserved: Option<string>, verb: string, path: seq<string>) returns (plan: Plan)
    ensures SelectsUnder(endpoints, reserved, verb, path, plan)
  {
    var best: Option<nat> := None;
    var bestParams: map<string, string> := map[];
    var tied := false;
    for n := 0 to |endpoints|
      invariant BestSoFar(endpoints, reserved, verb, path, n, best, tied)
      invariant best.Some? ==> MatchParams(endpoints[best.value].segments, path) == Some(bestParams)
    {
      var endpoint := endpoints[n];
      if !ServesMethod(endpoint.row.verb, verb) || (reserved.Some? && !IsUnder(endpoint.row.path, reserved.value)) {
        assert !Competes(endpoint, reserved, verb, path);
        continue;
      }
      var params := MatchSegments(endpoint.segments, path);
      if params == None {
        assert !Competes(endpoint, reserved, verb, path);
        continue;
      }
      BestStep(endpoints, reserved, verb, path, n, best, tied);
      var order := -1;
      if best.Some? {
        order := CompareSpecificity(endpoint.segments, endpoints[best.value].segments);
      }
      if order < 0 {
        best, bestParams := Some(n), params.value;
        tied := false;
      } else if order == 0 {
        tied := true;
      }
    }
    BestDecides(endpoints, reserved, verb, path, best, tied);
    if best == None || tied {
      return NoEndpoint;
    }
    assert Wins(endpoints, reserved, verb, path, best.value);
    return Endpoint(endpoints[best.value].row, bestParams);
  }

  lemma BestDecides(endpoints: seq<Compiled>, reserved: Option<string>, verb: string, path: seq<string>, best: Option<nat>, tied: bool)
    requires BestSoFar(endpoints, reserved, verb, path, |endpoints|, best, tied)
    ensures best == None || tied ==> forall i: nat :: !Wins(endpoints, reserved, verb, path, i)
    ensures best.Some? && !tied ==> Wins(endpoints, reserved, verb, path, best.value)
  {
    if best.Some? && tied {
      var b := best.value;
      var j :| 0 <= j < |endpoints| && j != b && Competes(endpoints[j], reserved, verb, path)
               && Specificity(endpoints[b].segments, endpoints[j].segments) == 0;
      SpecificityReverses(endpoints[b].segments, endpoints[j].segments);
      forall i: nat | i < |endpoints| ensures !Wins(endpoints, reserved, verb, path, i) {
        SpecificityReverses(endpoints[b].segments, endpoints[i].segments);
      }
    }
  }

  // ----- an accepted table is never tied

  /** `Analyse` accepted `table`. */
  ghost predicate CompiledFrom(table: EndpointTable, endpoints: seq<Compiled>) {
    Acceptable(table) && endpoints == CompiledRows(table.endpoints)
  }

  /** Two different rows of an accepted table that serve one request are strictly ordered. */
  lemma NeverTied(table: EndpointTable, endpoints: seq<Compiled>, reserved: Option<string>, verb: string, path: seq<string>, i: nat, j: nat)
    requires CompiledFrom(table, endpoints) && i < |endpoints| && j < |endpoints| && i != j
    requires Competes(endpoints[i], reserved, verb, path) && Competes(endpoints[j], reserved, verb, path)
    ensures Specificity(endpoints[i].segments, endpoints[j].segments) != 0
  {
    var a, b := endpoints[i].segments, endpoints[j].segments;
    PatternIsWritten(table.endpoints[i].path);
    PatternIsWritten(table.endpoints[j].path);
    ShapesDiffer(table, i, j, verb);
    assert a[0..] == a && b[0..] == b;
    if Specificity(a, b) == 0 {
      TieIsShape(a, b, path, 0);
    }
  }

  /** Two rows of an accepted table that serve one method have different shapes. */
  lemma ShapesDiffer(table: EndpointTable, i: nat, j: nat, verb: string)
    requires Acceptable(table) && i < |table.endpoints| && j < |table.endpoints| && i != j
    requires ServesMethod(table.endpoints[i].verb, verb) && ServesMethod(table.endpoints[j].verb, verb)
    ensures PatternOf(table.endpoints[i].path).Pattern? && PatternOf(table.endpoints[j].path).Pattern?
    ensures Shape(PatternOf(table.endpoints[i].path).segments) != Shape(PatternOf(table.endpoints[j].path).segments)
  {
    hide PatternOf, Shape;
    var first, second := if i < j then i else j, if i < j then j else i;
    assert !Ambiguous(table.endpoints[first], table.endpoints[second]);
  }

  lemma SkipStep(endpoints: seq<Compiled>, reserved: Option<string>, verb: string, path: seq<string>, n: nat, best: Option<nat>, tied: bool)
    requires n < |endpoints| && BestSoFar(endpoints, reserved, verb, path, n, best, tied) && !Competes(endpoints[n], reserved, verb, path)
    ensures BestSoFar(endpoints, reserved, verb, path, n + 1, best, tied)
  {
  }

  lemma UntiedStep(table: EndpointTable, endpoints: seq<Compiled>, reserved: Option<string>, verb: string, path: seq<string>, n: nat, best: Option<nat>)
      returns (next: Option<nat>)
    requires CompiledFrom(table, endpoints) && n < |endpoints| && BestSoFar(endpoints, reserved, verb, path, n, best, false)
    ensures BestSoFar(endpoints, reserved, verb, path, n + 1, next, false)
  {
    next := best;
    if !Competes(endpoints[n], reserved, verb, path) {
      SkipStep(endpoints, reserved, verb, path, n, best, false);
    } else {
      BestStep(endpoints, reserved, verb, path, n, best, false);
      if best.Some? {
        NeverTied(table, endpoints, reserved, verb, path, n, best.value);
      }
      if best == None || Specificity(endpoints[n].segments, endpoints[best.value].segments) < 0 {
        next := Some(n);
      }
    }
  }

  /** Where something competes, the most specific competitor wins. */
  lemma {:induction false} SomethingWins(table: EndpointTable, endpoints: seq<Compiled>, reserved: Option<string>, verb: string, path: seq<string>, n: nat)
      returns (best: Option<nat>)
    requires CompiledFrom(table, endpoints) && n <= |endpoints|
    ensures BestSoFar(endpoints, reserved, verb, path, n, best, false)
  {
    best := None;
    if n > 0 {
      best := SomethingWins(table, endpoints, reserved, verb, path, n - 1);
      best := UntiedStep(table, endpoints, reserved, verb, path, n - 1, best);
    }
  }

  /** On a table `analyse` accepted, `select` finds no endpoint exactly when no row competes. */
  lemma AcceptedSelects(table: EndpointTable, endpoints: seq<Compiled>, verb: string, rawPath: string, plan: Plan)
    requires CompiledFrom(table, endpoints) && IsCanonicalPath(rawPath)
    requires Selects(endpoints, table.reservedPrefixes, verb, rawPath, plan)
    ensures exists reserved :: IsLongestPrefix(rawPath, table.reservedPrefixes, reserved)
              && (plan == NoEndpoint <==> forall i :: 0 <= i < |endpoints| ==> !Competes(endpoints[i], reserved, verb, SplitPath(rawPath)))
              && SelectsUnder(endpoints, reserved, verb, SplitPath(rawPath), plan)
  {
    var path := SplitPath(rawPath);
    var reserved :| IsLongestPrefix(rawPath, table.reservedPrefixes, reserved) && SelectsUnder(endpoints, reserved, verb, path, plan);
    var best := SomethingWins(table, endpoints, reserved, verb, path, |endpoints|);
    BestDecides(endpoints, reserved, verb, path, best, false);
  }

  // ----- the order of the rows

  lemma AmbiguousSymmetric(a: Row, b: Row)
    ensures Ambiguous(a, b) <==> Ambiguous(b, a)
  {
  }

  /** Acceptance does not depend on the order of the rows or of the prefixes. */
  lemma AcceptanceForgetsOrder(table: EndpointTable, other: EndpointTable)
    requires multiset(table.endpoints) == multiset(other.endpoints)
    requires multiset(table.reservedPrefixes) == multiset(other.reservedPrefixes)
    requires Acceptable(table)
    ensures Acceptable(other)
  {
    Sorting.SameElements(table.endpoints, other.endpoints);
    Sorting.SameElements(table.reservedPrefixes, other.reservedPrefixes);
    DistinctMultiset(table.reservedPrefixes, other.reservedPrefixes);
    DistinctMultiset(table.endpoints, other.endpoints);
    forall i | 0 <= i < |other.endpoints| ensures PatternOf(other.endpoints[i].path).Pattern? {
      assert other.endpoints[i] in table.endpoints;
    }
    forall i | 0 <= i < |other.reservedPrefixes| ensures IsReservedPrefix(other.reservedPrefixes[i]) {
      assert other.reservedPrefixes[i] in table.reservedPrefixes;
    }
    forall i, j | 0 <= i < j < |other.endpoints|
      ensures other.endpoints[i].id != other.endpoints[j].id && !Ambiguous(other.endpoints[i], other.endpoints[j])
    {
      RowsDiffer(table, other.endpoints[i], other.endpoints[j]);
    }
  }

  lemma RowsDiffer(table: EndpointTable, a: Row, b: Row)
    requires Acceptable(table) && a in table.endpoints && b in table.endpoints && a != b
    ensures a.id != b.id && !Ambiguous(a, b)
  {
    var i :| 0 <= i < |table.endpoints| && table.endpoints[i] == a;
    var j :| 0 <= j < |table.endpoints| && table.endpoints[j] == b;
    AmbiguousSymmetric(a, b);
  }

  /** A winner under one order of the rows wins under any other. */
  lemma WinnerForgetsOrder(table: EndpointTable, endpoints: seq<Compiled>, other: EndpointTable, others: seq<Compiled>,
      reserved: Option<string>, verb: string, path: seq<string>, i: nat) returns (k: nat)
    requires multiset(table.endpoints) == multiset(other.endpoints)
    requires CompiledFrom(table, endpoints) && CompiledFrom(other, others) && Wins(endpoints, reserved, verb, path, i)
    ensures Wins(others, reserved, verb, path, k) && others[k] == endpoints[i]
  {
    Sorting.SameElements(table.endpoints, other.endpoints);
    assert table.endpoints[i] in other.endpoints;
    k :| 0 <= k < |other.endpoints| && other.endpoints[k] == table.endpoints[i];
    forall j | 0 <= j < |others| && j != k && Competes(others[j], reserved, verb, path)
      ensures Specificity(others[k].segments, others[j].segments) < 0
    {
      assert other.endpoints[j] in table.endpoints;
      var m :| 0 <= m < |table.endpoints| && table.endpoints[m] == other.endpoints[j];
      assert other.endpoints[j].id != other.endpoints[k].id;
      assert m != i && Competes(endpoints[m], reserved, verb, path);
    }
  }

  /** The answer does not depend on the order of the rows or of the prefixes. */
  lemma AnswerForgetsOrder(table: EndpointTable, endpoints: seq<Compiled>, other: EndpointTable, others: seq<Compiled>,
      verb: string, rawPath: string, plan: Plan, answer: Plan)
    requires multiset(table.endpoints) == multiset(other.endpoints)
    requires multiset(table.reservedPrefixes) == multiset(other.reservedPrefixes)
    requires CompiledFrom(table, endpoints) && CompiledFrom(other, others)
    requires Selects(endpoints, table.reservedPrefixes, verb, rawPath, plan)
    requires Selects(others, other.reservedPrefixes, verb, rawPath, answer)
    ensures plan == answer
  {
    if IsCanonicalPath(rawPath) {
      var path := SplitPath(rawPath);
      var reserved :| IsLongestPrefix(rawPath, table.reservedPrefixes, reserved) && SelectsUnder(endpoints, reserved, verb, path, plan);
      var again :| IsLongestPrefix(rawPath, other.reservedPrefixes, again) && SelectsUnder(others, again, verb, path, answer);
      LongestPrefixUnique(rawPath, table.reservedPrefixes, other.reservedPrefixes, reserved, again);
      UnderForgetsOrder(table, endpoints, other, others, reserved, verb, path, plan, answer);
    }
  }

  lemma OneWinner(endpoints: seq<Compiled>, reserved: Option<string>, verb: string, path: seq<string>, i: nat, j: nat)
    requires Wins(endpoints, reserved, verb, path, i) && Wins(endpoints, reserved, verb, path, j)
    ensures i == j
  {
    SpecificityReverses(endpoints[i].segments, endpoints[j].segments);
  }

  lemma UnderForgetsOrder(table: EndpointTable, endpoints: seq<Compiled>, other: EndpointTable, others: seq<Compiled>,
      reserved: Option<string>, verb: string, path: seq<string>, plan: Plan, answer: Plan)
    requires multiset(table.endpoints) == multiset(other.endpoints)
    requires CompiledFrom(table, endpoints) && CompiledFrom(other, others)
    requires SelectsUnder(endpoints, reserved, verb, path, plan) && SelectsUnder(others, reserved, verb, path, answer)
    ensures plan == answer
  {
    if plan.Endpoint? {
      var i: nat :| Wins(endpoints, reserved, verb, path, i) && plan.row == endpoints[i].row
                    && MatchParams(endpoints[i].segments, path) == Some(plan.params);
      var k := WinnerForgetsOrder(table, endpoints, other, others, reserved, verb, path, i);
      var j: nat :| Wins(others, reserved, verb, path, j) && answer.row == others[j].row
                    && MatchParams(others[j].segments, path) == Some(answer.params);
      OneWinner(others, reserved, verb, path, k, j);
    } else if answer.Endpoint? {
      var j: nat :| Wins(others, reserved, verb, path, j) && answer.row == others[j].row;
      var k := WinnerForgetsOrder(other, others, table, endpoints, reserved, verb, path, j);
      assert false;
    }
  }
}
