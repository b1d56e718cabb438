/**
 * The canonical forms a contract artifact is made of: schema shapes, outputs, endpoints and CSP lists. Two of a kind have
 * one canonical form exactly when they differ only in the order of lists whose order carries no meaning.
 */
module ContractCanonical {
  import opened Wrappers
  import opened Seqs
  import opened Sorting

  /** A schema shape; `Leaf` stands for every shape without parts, and `extra` for the fields canonicalization copies. */
  datatype Shape =
    | Leaf(extra: string)
    | Enum(values: seq<string>)
    | Array(items: Shape, extra: string)
    | Tuple(parts: seq<Shape>, rest: Option<Shape>)
    | Record(key: Shape, value: Shape)
    | Object(fields: seq<Field>)
    | Optional(inner: Shape)
    | Nullable(inner: Shape)
    | Union(options: seq<Shape>)

  datatype Field = Field(name: string, shape: Shape)

  datatype Output = Redirect(origins: seq<string>) | Attachment(columns: seq<Field>, extra: string) | Plain(shape: Shape)

  /** `sorted`: code-unit order. */
  function Sorted(values: seq<string>): seq<string> {
    SortBy(AtMost, values)
  }

  /** `sortedTuple`: a list that is not empty, sorted as its head and the rest. */
  function SortedTuple(values: seq<string>): seq<string>
    requires values != []
  {
    var all := Sorted(values);
    [if all != [] then all[0] else values[0]] + (if all != [] then all[1..] else [])
  }

  lemma SortedTupleIsSorted(values: seq<string>)
    requires values != []
    ensures SortedTuple(values) == Sorted(values)
  {
    var all := Sorted(values);
    assert |all| == |values|;
    assert all == [all[0]] + all[1..];
  }

  // ----- shapes

  function CanonicalShape(s: Shape): Shape {
    match s
    case Leaf(_) => s
    case Enum(values) => Enum(Sorted(values))
    case Array(items, extra) => Array(CanonicalShape(items), extra)
    case Tuple(parts, rest) =>
      Tuple(CanonicalShapes(parts), match rest { case None => None case Some(r) => Some(CanonicalShape(r)) })
    case Record(key, value) => Record(CanonicalShape(key), CanonicalShape(value))
    case Object(fields) => Object(CanonicalFields(fields))
    case Optional(inner) => Optional(CanonicalShape(inner))
    case Nullable(inner) => Nullable(CanonicalShape(inner))
    case Union(options) => Union(CanonicalShapes(options))
  }

  function CanonicalShapes(shapes: seq<Shape>): (r: seq<Shape>)
    ensures |r| == |shapes|
  {
    if shapes == [] then [] else [CanonicalShape(shapes[0])] + CanonicalShapes(shapes[1..])
  }

  function CanonicalFields(fields: seq<Field>): (r: seq<Field>)
    ensures |r| == |fields|
  {
    if fields == [] then [] else [Field(fields[0].name, CanonicalShape(fields[0].shape))] + CanonicalFields(fields[1..])
  }

  /** One shape becomes the other by permuting enum values at any depth; everything else is in place. */
  ghost predicate Permuted(s: Shape, t: Shape) {
    match s
    case Leaf(_) => s == t
    case Enum(values) => t.Enum? && multiset(values) == multiset(t.values)
    case Array(items, extra) => t.Array? && extra == t.extra && Permuted(items, t.items)
    case Tuple(parts, rest) =>
      t.Tuple? && PermutedAll(parts, t.parts)
      && match rest { case None => t.rest == None case Some(r) => t.rest.Some? && Permuted(r, t.rest.value) }
    case Record(key, value) => t.Record? && Permuted(key, t.key) && Permuted(value, t.value)
    case Object(fields) => t.Object? && PermutedFields(fields, t.fields)
    case Optional(inner) => t.Optional? && Permuted(inner, t.inner)
    case Nullable(inner) => t.Nullable? && Permuted(inner, t.inner)
    case Union(options) => t.Union? && PermutedAll(options, t.options)
  }

  ghost predicate PermutedAll(s: seq<Shape>, t: seq<Shape>) {
    if s == [] then t == [] else t != [] && Permuted(s[0], t[0]) && PermutedAll(s[1..], t[1..])
  }

  ghost predicate PermutedFields(s: seq<Field>, t: seq<Field>) {
    if s == [] then t == []
    else t != [] && s[0].name == t[0].name && Permuted(s[0].shape, t[0].shape) && PermutedFields(s[1..], t[1..])
  }

  /** Sorting names forgets exactly their order. */
  lemma SortedIffPermuted(a: seq<string>, b: seq<string>)
    ensures Sorted(a) == Sorted(b) <==> multiset(a) == multiset(b)
  {
    NamesAreOrdered();
    if multiset(a) == multiset(b) {
      forall x, y | x in a && y in a && AtMost(x, y) && AtMost(y, x) ensures x == y {
        AtMostAntisymmetric(x, y);
      }
      SortForgetsOrder(AtMost, a, b);
    }
  }

  lemma SortedTwice(a: seq<string>)
    ensures Sorted(Sorted(a)) == Sorted(a)
  {
    NamesAreOrdered();
    SortIsSorted(AtMost, a);
    SortOfSorted(AtMost, Sorted(a));
  }

  lemma ConsEqual<T>(x: T, s: seq<T>, y: T, t: seq<T>)
    ensures [x] + s == [y] + t <==> x == y && s == t
  {
    assert ([x] + s)[1..] == s && ([y] + t)[1..] == t && ([x] + s)[0] == x && ([y] + t)[0] == y;
  }

  /** Two shapes have one canonical form exactly when one becomes the other by permuting enum values. */
  lemma {:induction false} CanonicalIffPermuted(s: Shape, t: Shape)
    ensures CanonicalShape(s) == CanonicalShape(t) <==> Permuted(s, t)
    decreases s, 0
  {
    match s
    case Leaf(_) =>
    case Enum(values) =>
      if t.Enum? {
        SortedIffPermuted(values, t.values);
      }
    case Array(items, _) =>
      if t.Array? {
        CanonicalIffPermuted(items, t.items);
      }
    case Tuple(parts, rest) =>
      if t.Tuple? {
        AllIffPermuted(parts, t.parts);
        if rest.Some? && t.rest.Some? {
          CanonicalIffPermuted(rest.value, t.rest.value);
        }
      }
    case Record(key, value) =>
      if t.Record? {
        CanonicalIffPermuted(key, t.key);
        CanonicalIffPermuted(value, t.value);
      }
    case Object(fields) =>
      if t.Object? {
        FieldsIffPermuted(fields, t.fields);
      }
    case Optional(inner) =>
      if t.Optional? {
        CanonicalIffPermuted(inner, t.inner);
      }
    case Nullable(inner) =>
      if t.Nullable? {
        CanonicalIffPermuted(inner, t.inner);
      }
    case Union(options) =>
      if t.Union? {
        AllIffPermuted(options, t.options);
      }
  }

  lemma {:induction false} AllIffPermuted(s: seq<Shape>, t: seq<Shape>)
    ensures CanonicalShapes(s) == CanonicalShapes(t) <==> PermutedAll(s, t)
    decreases s, 0
  {
    if s != [] && t != [] {
      CanonicalIffPermuted(s[0], t[0]);
      AllIffPermuted(s[1..], t[1..]);
      ConsEqual(CanonicalShape(s[0]), CanonicalShapes(s[1..]), CanonicalShape(t[0]), CanonicalShapes(t[1..]));
    }
  }

  lemma {:induction false} FieldsIffPermuted(s: seq<Field>, t: seq<Field>)
    ensures CanonicalFields(s) == CanonicalFields(t) <==> PermutedFields(s, t)
    decreases s, 0
  {
    if s != [] && t != [] {
      CanonicalIffPermuted(s[0].shape, t[0].shape);
      FieldsIffPermuted(s[1..], t[1..]);
      ConsEqual(Field(s[0].name, CanonicalShape(s[0].shape)), CanonicalFields(s[1..]),
                Field(t[0].name, CanonicalShape(t[0].shape)), CanonicalFields(t[1..]));
    }
  }

  /** Canonicalization is idempotent. */
  lemma {:induction false} CanonicalTwice(s: Shape)
    ensures CanonicalShape(CanonicalShape(s)) == CanonicalShape(s)
    decreases s, 0
  {
    match s
    case Leaf(_) =>
    case Enum(values) => SortedTwice(values);
    case Array(items, _) => CanonicalTwice(items);
    case Tuple(parts, rest) =>
      AllTwice(parts);
      if rest.Some? {
        CanonicalTwice(rest.value);
      }
    case Record(key, value) =>
      CanonicalTwice(key);
      CanonicalTwice(value);
    case Object(fields) => FieldsTwice(fields);
    case Optional(inner) => CanonicalTwice(inner);
    case Nullable(inner) => CanonicalTwice(inner);
    case Union(options) => AllTwice(options);
  }

  lemma {:induction false} AllTwice(s: seq<Shape>)
    ensures CanonicalShapes(CanonicalShapes(s)) == CanonicalShapes(s)
    decreases s, 0
  {
    if s != [] {
      CanonicalTwice(s[0]);
      AllTwice(s[1..]);
      assert CanonicalShapes(s)[1..] == CanonicalShapes(s[1..]);
    }
  }

  lemma {:induction false} FieldsTwice(s: seq<Field>)
    ensures CanonicalFields(CanonicalFields(s)) == CanonicalFields(s)
    decreases s, 0
  {
    if s != [] {
      CanonicalTwice(s[0].shape);
      FieldsTwice(s[1..]);
      assert CanonicalFields(s)[1..] == CanonicalFields(s[1..]);
    }
  }

  // ----- outputs

  function CanonicalOutput(o: Output): Output {
    match o
    case Redirect(origins) => Redirect(Sorted(origins))
    case Attachment(columns, extra) => Attachment(CanonicalFields(columns), extra)
    case Plain(shape) => Plain(CanonicalShape(shape))
  }

  ghost predicate PermutedOutput(a: Output, b: Output) {
    match a
    case Redirect(origins) => b.Redirect? && multiset(origins) == multiset(b.origins)
    case Attachment(columns, extra) => b.Attachment? && extra == b.extra && PermutedFields(columns, b.columns)
    case Plain(shape) => b.Plain? && Permuted(shape, b.shape)
  }

  /** The columns of an attachment stay in place; the origins of a redirect may come in any order. */
  lemma OutputIffPermuted(a: Output, b: Output)
    ensures CanonicalOutput(a) == CanonicalOutput(b) <==> PermutedOutput(a, b)
    ensures CanonicalOutput(CanonicalOutput(a)) == CanonicalOutput(a)
  {
    match a
    case Redirect(origins) =>
      SortedTwice(origins);
      if b.Redirect? {
        SortedIffPermuted(origins, b.origins);
      }
    case Attachment(columns, _) =>
      FieldsTwice(columns);
      if b.Attachment? {
        FieldsIffPermuted(columns, b.columns);
      }
    case Plain(shape) =>
      CanonicalTwice(shape);
      if b.Plain? {
        CanonicalIffPermuted(shape, b.shape);
      }
  }

  // ----- endpoints

  datatype Admission = Admission(contentTypes: seq<string>, maxBytes: Option<int>)

  /** `callers` is `None` for a row without a requirement. */
  datatype Endpoint = Endpoint(id: string, admission: Option<Admission>, input: Option<Shape>, output: Option<Output>, callers: Option<seq<string>>, extra: string)

  /** The types the source gives lists that are never empty. */
  predicate ValidEndpoint(e: Endpoint) {
    (e.admission.Some? ==> e.admission.value.contentTypes != []) && (e.callers.Some? ==> e.callers.value != [])
  }

  function CanonicalEndpoint(e: Endpoint): (r: Endpoint)
    requires ValidEndpoint(e)
    ensures r.id == e.id
  {
    Endpoint(
      e.id,
      match e.admission { case None => None case Some(a) => Some(Admission(SortedTuple(a.contentTypes), a.maxBytes)) },
      match e.input { case None => None case Some(s) => Some(CanonicalShape(s)) },
      match e.output { case None => None case Some(o) => Some(CanonicalOutput(o)) },
      match e.callers { case None => None case Some(c) => Some(SortedTuple(c)) },
      e.extra)
  }

  ghost predicate PermutedNames(a: Option<seq<string>>, b: Option<seq<string>>) {
    match a
    case None => b == None
    case Some(names) => b.Some? && multiset(names) == multiset(b.value)
  }

  ghost predicate PermutedEndpoint(a: Endpoint, b: Endpoint) {
    && a.id == b.id && a.extra == b.extra
    && PermutedNames(a.callers, b.callers)
    && (match a.admission
        case None => b.admission == None
        case Some(x) => b.admission.Some? && x.maxBytes == b.admission.value.maxBytes
                        && multiset(x.contentTypes) == multiset(b.admission.value.contentTypes))
    && (match a.input case None => b.input == None case Some(s) => b.input.Some? && Permuted(s, b.input.value))
    && (match a.output case None => b.output == None case Some(o) => b.output.Some? && PermutedOutput(o, b.output.value))
  }

  lemma EndpointIffPermuted(a: Endpoint, b: Endpoint)
    requires ValidEndpoint(a) && ValidEndpoint(b)
    ensures CanonicalEndpoint(a) == CanonicalEndpoint(b) <==> PermutedEndpoint(a, b)
  {
    hide SortedTuple, CanonicalShape, Permuted, CanonicalOutput, PermutedOutput;
    if a.callers.Some? && b.callers.Some? {
      TupleIffPermuted(a.callers.value, b.callers.value);
    }
    if a.admission.Some? && b.admission.Some? {
      TupleIffPermuted(a.admission.value.contentTypes, b.admission.value.contentTypes);
    }
    if a.input.Some? && b.input.Some? {
      CanonicalIffPermuted(a.input.value, b.input.value);
    }
    if a.output.Some? && b.output.Some? {
      OutputIffPermuted(a.output.value, b.output.value);
    }
  }

  lemma TupleIffPermuted(a: seq<string>, b: seq<string>)
    requires a != [] && b != []
    ensures SortedTuple(a) == SortedTuple(b) <==> multiset(a) == multiset(b)
  {
    SortedTupleIsSorted(a);
    SortedTupleIsSorted(b);
    SortedIffPermuted(a, b);
  }

  lemma EndpointTwice(e: Endpoint)
    requires ValidEndpoint(e)
    ensures ValidEndpoint(CanonicalEndpoint(e)) && CanonicalEndpoint(CanonicalEndpoint(e)) == CanonicalEndpoint(e)
  {
    if e.callers.Some? {
      TupleTwice(e.callers.value);
    }
    if e.admission.Some? {
      TupleTwice(e.admission.value.contentTypes);
    }
    if e.input.Some? {
      CanonicalTwice(e.input.value);
    }
    if e.output.Some? {
      OutputIffPermuted(e.output.value, e.output.value);
    }
  }

  lemma TupleTwice(a: seq<string>)
    requires a != []
    ensures SortedTuple(a) != [] && SortedTuple(SortedTuple(a)) == SortedTuple(a)
  {
    SortedTupleIsSorted(a);
    SortedTwice(a);
    SortedTupleIsSorted(Sorted(a));
  }

  // ----- lists of sources and of endpoints

  datatype CspSource = CspSource(origin: string, purpose: string)

  predicate SourceOrder(a: CspSource, b: CspSource) {
    AtMost(a.origin, b.origin)
  }

  predicate EndpointOrder(a: Endpoint, b: Endpoint) {
    AtMost(a.id, b.id)
  }

  function CanonicalEndpoints(es: seq<Endpoint>): (r: seq<Endpoint>)
    requires ValidEndpoints(es)
    ensures |r| == |es| && forall i :: 0 <= i < |es| ==> r[i] == CanonicalEndpoint(es[i])
  {
    seq(|es|, i requires 0 <= i < |es| => CanonicalEndpoint(es[i]))
  }

  /** `sortedSources`. */
  function SortedSources(sources: seq<CspSource>): seq<CspSource> {
    SortBy(SourceOrder, sources)
  }

  ghost predicate OriginsDiffer(sources: seq<CspSource>) {
    forall i, j :: 0 <= i < j < |sources| ==> sources[i].origin != sources[j].origin
  }

  ghost predicate ValidEndpoints(es: seq<Endpoint>) {
    forall i :: 0 <= i < |es| ==> ValidEndpoint(es[i])
  }

  ghost predicate IdsDiffer(es: seq<Endpoint>) {
    forall i, j :: 0 <= i < j < |es| ==> es[i].id != es[j].id
  }

  /** As many endpoints, and each one of the first list has its permuted counterpart in the other. */
  ghost predicate PermutedEndpoints(a: seq<Endpoint>, b: seq<Endpoint>) {
    |a| == |b| && forall i :: 0 <= i < |a| ==> HasCounterpart(a[i], b)
  }

  ghost predicate HasCounterpart(e: Endpoint, b: seq<Endpoint>) {
    exists j :: 0 <= j < |b| && PermutedEndpoint(e, b[j])
  }

  lemma ByOriginOrdered()
    ensures TotalPreorder(SourceOrder)
  {
    forall x: CspSource, y: CspSource ensures SourceOrder(x, y) || SourceOrder(y, x) {
      AtMostTotal(x.origin, y.origin);
    }
    forall x: CspSource, y: CspSource, z: CspSource | SourceOrder(x, y) && SourceOrder(y, z) ensures SourceOrder(x, z) {
      AtMostTransitive(x.origin, y.origin, z.origin);
    }
  }

  lemma ByIdOrdered()
    ensures TotalPreorder(EndpointOrder)
  {
    forall x: Endpoint, y: Endpoint ensures EndpointOrder(x, y) || EndpointOrder(y, x) {
      AtMostTotal(x.id, y.id);
    }
    forall x: Endpoint, y: Endpoint, z: Endpoint | EndpointOrder(x, y) && EndpointOrder(y, z) ensures EndpointOrder(x, z) {
      AtMostTransitive(x.id, y.id, z.id);
    }
  }

  /** Sources of distinct origins sort to one list exactly when they are permutations. */
  lemma SourcesIffPermuted(a: seq<CspSource>, b: seq<CspSource>)
    requires OriginsDiffer(a)
    ensures SortedSources(a) == SortedSources(b) <==> multiset(a) == multiset(b)
  {
    ByOriginOrdered();
    if multiset(a) == multiset(b) {
      forall x, y | x in a && y in a && SourceOrder(x, y) && SourceOrder(y, x) ensures x == y {
        AtMostAntisymmetric(x.origin, y.origin);
      }
      SortForgetsOrder(SourceOrder, a, b);
    }
  }

  lemma SourcesTwice(a: seq<CspSource>)
    ensures SortedSources(SortedSources(a)) == SortedSources(a)
  {
    ByOriginOrdered();
    SortIsSorted(SourceOrder, a);
    SortOfSorted(SourceOrder, SortedSources(a));
  }

  /** The canonical list of endpoints: each canonical, sorted by id. */
  function SortedEndpoints(es: seq<Endpoint>): seq<Endpoint>
    requires ValidEndpoints(es)
  {
    SortBy(EndpointOrder, CanonicalEndpoints(es))
  }

  lemma SortedByIdIff(a: seq<Endpoint>, b: seq<Endpoint>)
    requires IdsDiffer(a)
    ensures SortBy(EndpointOrder, a) == SortBy(EndpointOrder, b) <==> multiset(a) == multiset(b)
  {
    ByIdOrdered();
    if multiset(a) == multiset(b) {
      forall x, y | x in a && y in a && EndpointOrder(x, y) && EndpointOrder(y, x) ensures x == y {
        AtMostAntisymmetric(x.id, y.id);
      }
      SortForgetsOrder(EndpointOrder, a, b);
    }
  }

  /** The canonical lists ascend by code unit: names themselves, sources by origin, endpoints by id. */
  lemma CanonicalAscends(names: seq<string>, sources: seq<CspSource>, es: seq<Endpoint>)
    requires ValidEndpoints(es)
    ensures SortedBy(AtMost, Sorted(names))
    ensures forall i, j :: 0 <= i < j < |SortedSources(sources)| ==> AtMost(SortedSources(sources)[i].origin, SortedSources(sources)[j].origin)
    ensures forall i, j :: 0 <= i < j < |SortedEndpoints(es)| ==> AtMost(SortedEndpoints(es)[i].id, SortedEndpoints(es)[j].id)
  {
    NamesAreOrdered();
    ByOriginOrdered();
    ByIdOrdered();
    hide SortBy, AtMost;
    SortIsSorted(AtMost, names);
    SortIsSorted(SourceOrder, sources);
    SortIsSorted(EndpointOrder, CanonicalEndpoints(es));
  }

  /** A list without repetition whose elements all stand in a list of its length is a permutation of it. */
  lemma {:induction false} DistinctInside<T>(s: seq<T>, t: seq<T>)
    requires Distinct(s) && |s| == |t| && forall x :: x in s ==> x in t
    ensures multiset(s) == multiset(t)
  {
    if s != [] {
      assert s[0] in t;
      var k :| 0 <= k < |t| && t[k] == s[0];
      var rest := t[..k] + t[k + 1..];
      assert t == t[..k] + [t[k]] + t[k + 1..] && s == [s[0]] + s[1..];
      forall x | x in s[1..] ensures x in rest {
        assert x in s && x != s[0];
      }
      DistinctInside(s[1..], rest);
    }
  }

  /** Endpoints of distinct ids have one canonical list exactly when each has its permuted counterpart. */
  lemma EndpointsIffPermuted(a: seq<Endpoint>, b: seq<Endpoint>)
    requires ValidEndpoints(a) && ValidEndpoints(b) && IdsDiffer(a)
    ensures SortedEndpoints(a) == SortedEndpoints(b) <==> PermutedEndpoints(a, b)
  {
    hide SortBy, CanonicalEndpoint, PermutedEndpoint, ValidEndpoint;
    var x, y := CanonicalEndpoints(a), CanonicalEndpoints(b);
    SortedByIdIff(x, y);
    if multiset(x) == multiset(y) {
      SameElements(x, y);
      forall i | 0 <= i < |a| ensures HasCounterpart(a[i], b) {
        assert x[i] in y;
        var j :| 0 <= j < |y| && y[j] == x[i];
        EndpointIffPermuted(a[i], b[j]);
      }
    }
    if PermutedEndpoints(a, b) {
      forall e | e in x ensures e in y {
        var i :| 0 <= i < |x| && x[i] == e;
        assert HasCounterpart(a[i], b);
        var j :| 0 <= j < |b| && PermutedEndpoint(a[i], b[j]);
        EndpointIffPermuted(a[i], b[j]);
        assert y[j] == e;
      }
      DistinctInside(x, y);
    }
  }

  lemma EndpointsTwice(es: seq<Endpoint>)
    requires ValidEndpoints(es)
    ensures ValidEndpoints(SortedEndpoints(es)) && SortedEndpoints(SortedEndpoints(es)) == SortedEndpoints(es)
  {
    hide SortBy, CanonicalEndpoint, ValidEndpoint;
    var all := CanonicalEndpoints(es);
    var r := SortedEndpoints(es);
    SameElements(r, all);
    forall i | 0 <= i < |r| ensures ValidEndpoint(r[i]) && CanonicalEndpoint(r[i]) == r[i] {
      assert r[i] in all;
      var k :| 0 <= k < |all| && all[k] == r[i];
      EndpointTwice(es[k]);
    }
    assert CanonicalEndpoints(r) == r;
    ByIdOrdered();
    SortIsSorted(EndpointOrder, all);
    SortOfSorted(EndpointOrder, r);
  }

  /** Sources that share an origin are one source. */
  ghost predicate OriginsDecide(sources: seq<CspSource>) {
    forall x, y :: x in sources && y in sources && x.origin == y.origin ==> x == y
  }

  /** Exchanging two sources of one origin in a sorted list gives another sorted list of the same sources. */
  lemma ExchangedIsSorted(s: seq<CspSource>, i: nat, j: nat) returns (t: seq<CspSource>)
    requires SortedBy(SourceOrder, s) && i < j < |s| && s[i].origin == s[j].origin
    ensures t == s[i := s[j]][j := s[i]] && (s[i] != s[j] ==> t != s) && multiset(t) == multiset(s) && SortedBy(SourceOrder, t)
  {
    t := s[i := s[j]][j := s[i]];
    assert t[i] == s[j];
    forall p, q | 0 <= p < q < |t| ensures SourceOrder(t[p], t[q]) {
      assert t[p].origin == s[p].origin && t[q].origin == s[q].origin;
      assert SourceOrder(s[p], s[q]);
    }
  }

  /** The order of a CSP list is forgotten exactly when no two different sources in it share an origin. */
  lemma OrderForgottenIff(a: seq<CspSource>)
    ensures (forall b :: multiset(b) == multiset(a) ==> SortBy(SourceOrder, b) == SortBy(SourceOrder, a)) <==> OriginsDecide(a)
  {
    ByOriginOrdered();
    if OriginsDecide(a) {
      forall b | multiset(b) == multiset(a) ensures SortBy(SourceOrder, b) == SortBy(SourceOrder, a) {
        forall x, y | x in a && y in a && SourceOrder(x, y) && SourceOrder(y, x) ensures x == y {
          AtMostAntisymmetric(x.origin, y.origin);
        }
        SortForgetsOrder(SourceOrder, a, b);
      }
    } else {
      var x, y :| x in a && y in a && x.origin == y.origin && x != y;
      var b := OrderLeaks(a, x, y);
    }
  }

  lemma OrderLeaks(a: seq<CspSource>, x: CspSource, y: CspSource) returns (b: seq<CspSource>)
    requires x in a && y in a && x.origin == y.origin && x != y
    ensures multiset(b) == multiset(a) && SortBy(SourceOrder, b) != SortBy(SourceOrder, a)
  {
    hide *;
    var s := SortBy(SourceOrder, a);
    ByOriginOrdered();
    SortIsSorted(SourceOrder, a);
    SameElements(s, a);
    var i, j := Positions(s, x, y);
    b := ExchangedIsSorted(s, i, j);
    SortOfSorted(SourceOrder, b);
  }

  lemma Positions(s: seq<CspSource>, x: CspSource, y: CspSource) returns (i: nat, j: nat)
    requires x in s && y in s && x.origin == y.origin && x != y
    ensures i < j < |s| && s[i].origin == s[j].origin && s[i] != s[j]
  {
    i :| i < |s| && s[i] == x;
    j :| j < |s| && s[j] == y;
    if j < i {
      i, j := j, i;
    }
  }

  /** The least such list: the canonical form shows which of the two came first. */
  lemma RepeatedOriginLeaks() returns (a: seq<CspSource>, b: seq<CspSource>)
    ensures a == [CspSource("o", "1"), CspSource("o", "2")]
    ensures multiset(a) == multiset(b) && SortBy(SourceOrder, a) != SortBy(SourceOrder, b)
  {
    a := [CspSource("o", "1"), CspSource("o", "2")];
    b := OrderLeaks(a, a[0], a[1]);
  }
}
