/**
 * `planOpsDump`: the cycles of the foreign-key graph, the load order, and the columns left
 * for the link pass. The methods follow the loops of the source; `PlanSpec` is what they compute.
 */
module DumpPlan {
  import opened Wrappers
  import opened Seqs
  import opened Sorting
  import opened Graphs
  import opened DumpSchema

  function ParentNames(d: Described): seq<string> {
    Map((key: ResolvedKey) => key.parent, d.parents)
  }

  function Names(ds: seq<Described>): set<string> {
    set i | 0 <= i < |ds| :: ds[i].table.name
  }

  /** In order of their names, no name twice. */
  ghost predicate Ordered(ds: seq<Described>) {
    forall i, j :: 0 <= i < j < |ds| ==> Before(ds[i].table.name, ds[j].table.name)
  }

  /** Every parent is a table of the dump. */
  ghost predicate ParentsKnown(ds: seq<Described>) {
    forall i, j :: 0 <= i < |ds| && 0 <= j < |ds[i].parents| ==> ds[i].parents[j].parent in Names(ds)
  }

  ghost predicate Describes(ds: seq<Described>) {
    Ordered(ds) && ParentsKnown(ds)
  }

  function TableNamed(ds: seq<Described>, name: string): (d: Described)
    requires name in Names(ds)
    ensures d in ds && d.table.name == name
  {
    if ds[0].table.name == name then
      ds[0]
    else
      assert name in Names(ds[1..]) by {
        var i :| 0 <= i < |ds| && ds[i].table.name == name;
        assert ds[1..][i - 1].table.name == name;
      }
      TableNamed(ds[1..], name)
  }

  /** Every table's parents, by name. */
  function ParentGraph(ds: seq<Described>): Graph {
    map name | name in Names(ds) :: ParentNames(TableNamed(ds, name))
  }

  lemma TableNamedIs(ds: seq<Described>, d: Described)
    requires Ordered(ds) && d in ds
    ensures d.table.name in Names(ds) && TableNamed(ds, d.table.name) == d
  {
    var i :| 0 <= i < |ds| && ds[i] == d;
    assert d.table.name in Names(ds);
    var j :| 0 <= j < |ds| && ds[j] == TableNamed(ds, d.table.name);
  }

  lemma ParentEdge(ds: seq<Described>, d: Described, j: nat)
    requires Describes(ds) && d in ds && j < |d.parents|
    ensures d.table.name in Names(ds) && d.parents[j].parent in Names(ds)
    ensures Edge(ParentGraph(ds), d.table.name, d.parents[j].parent)
  {
    TableNamedIs(ds, d);
    var i :| 0 <= i < |ds| && ds[i] == d;
    assert ds[i].parents[j].parent in Names(ds);
    assert ParentNames(d)[j] == d.parents[j].parent;
  }

  lemma ParentGraphCloses(ds: seq<Described>)
    requires Describes(ds)
    ensures ParentGraph(ds).Keys == Names(ds)
    ensures ClosedGraph(ParentGraph(ds))
  {
    var g := ParentGraph(ds);
    forall a, b | a in g && b in g[a] ensures b in g {
      var d := TableNamed(ds, a);
      var j :| 0 <= j < |ParentNames(d)| && ParentNames(d)[j] == b;
      ParentEdge(ds, d, j);
    }
  }

  lemma NamesGrow(ds: seq<Described>, i: nat)
    requires i < |ds|
    ensures Names(ds[..i + 1]) == Names(ds[..i]) + {ds[i].table.name}
  {
    forall x | x in Names(ds[..i + 1]) ensures x in Names(ds[..i]) + {ds[i].table.name} {
      var j :| 0 <= j < i + 1 && ds[..i + 1][j].table.name == x;
      if j < i {
        assert ds[..i][j].table.name == x;
      }
    }
    forall x | x in Names(ds[..i]) + {ds[i].table.name} ensures x in Names(ds[..i + 1]) {
      if x == ds[i].table.name {
        assert ds[..i + 1][i].table.name == x;
      } else {
        var j :| 0 <= j < i && ds[..i][j].table.name == x;
        assert ds[..i + 1][j].table.name == x;
      }
    }
  }

  // ----- cycleIds

  /** `reach`: what every table's parents reach. */
  method ReachOfEach(ds: seq<Described>, parents: Graph) returns (reach: map<string, set<string>>)
    requires ClosedGraph(parents)
    ensures reach.Keys == Names(ds)
    ensures IsReach(parents, reach)
  {
    reach := map[];
    for i := 0 to |ds|
      invariant reach.Keys == Names(ds[..i])
      invariant IsReach(parents, reach)
    {
      var seen := ReachOf(parents, ds[i].table.name);
      NamesGrow(ds, i);
      reach := reach[ds[i].table.name := seen];
    }
    assert ds[..|ds|] == ds;
  }

  /** `tables.find(…)`: the first table that `name` reaches and that reaches `name`; `|ds|` for none. */
  method FirstMutual(ds: seq<Described>, ghost g: Graph, reach: map<string, set<string>>, name: string) returns (k: nat)
    requires reach.Keys == Names(ds) && name in reach && IsReach(g, reach)
    ensures k <= |ds| && forall j :: 0 <= j < k ==> !MutuallyReach(g, name, ds[j].table.name)
    ensures k < |ds| ==> MutuallyReach(g, name, ds[k].table.name)
  {
    k := 0;
    while k < |ds| && !(ds[k].table.name in reach[name] && name in reach[ds[k].table.name])
      invariant 0 <= k <= |ds|
      invariant forall j :: 0 <= j < k ==> !MutuallyReach(g, name, ds[j].table.name)
    {
      assert ds[k].table.name in Names(ds);
      k := k + 1;
    }
  }

  method FirstOfCycle(ds: seq<Described>, ghost g: Graph, reach: map<string, set<string>>, name: string) returns (id: string)
    requires Ordered(ds) && g.Keys == Names(ds)
    requires reach.Keys == Names(ds) && name in reach && IsReach(g, reach)
    ensures IsFirst(g, name, id)
  {
    var k := FirstMutual(ds, g, reach, name);
    FirstInCycle(ds, g, name, k);
    id := if k == |ds| || Before(name, ds[k].table.name) then name else ds[k].table.name;
  }

  method CycleIds(ds: seq<Described>) returns (ids: map<string, string>)
    requires Describes(ds)
    ensures NamesCycles(ParentGraph(ds), ids)
  {
    ParentGraphCloses(ds);
    var parents := ParentGraph(ds);
    var reach := ReachOfEach(ds, parents);
    ids := map[];
    for i := 0 to |ds|
      invariant ids.Keys == Names(ds[..i])
      invariant forall a {:trigger IsFirst(parents, a, ids[a])} :: a in ids ==> IsFirst(parents, a, ids[a])
    {
      NamesGrow(ds, i);
      var name := ds[i].table.name;
      assert name in Names(ds);
      var id := FirstOfCycle(ds, parents, reach, name);
      ids := ids[name := id];
    }
    assert ds[..|ds|] == ds;
  }

  /** The first table that reaches `name` and back is the least of its cycle; without one the cycle is `name` alone. */
  lemma FirstInCycle(ds: seq<Described>, g: Graph, name: string, k: nat)
    requires Ordered(ds) && g.Keys == Names(ds) && name in g && k <= |ds|
    requires forall j :: 0 <= j < k ==> !MutuallyReach(g, name, ds[j].table.name)
    requires k < |ds| ==> MutuallyReach(g, name, ds[k].table.name)
    ensures IsFirst(g, name, if k == |ds| || Before(name, ds[k].table.name) then name else ds[k].table.name)
  {
    var id := if k == |ds| then name else ds[k].table.name;
    if k < |ds| {
      ReachesTransitively(g, name, id, name);
    }
    forall b | b in g && SameCycle(g, name, b) ensures AtMost(id, b) {
      var j :| 0 <= j < |ds| && ds[j].table.name == b;
      assert j >= k || b == name;
      AtMostReflexive(b);
      hide Reaches, AtMost;
    }
    hide Reaches, AtMost;
    assert SameCycle(g, name, name) && AtMost(id, name);
    if k < |ds| && Before(name, id) {
      AtMostAntisymmetric(name, id);
    }
  }

  // ----- loadOrder

  /** Every parent outside the table's own cycle is placed. */
  ghost predicate Eligible(g: Graph, placed: set<string>, d: Described) {
    forall j :: 0 <= j < |d.parents| ==>
      d.parents[j].parent in placed || SameCycle(g, d.parents[j].parent, d.table.name)
  }

  /** `d` is the first table by name that is not placed and has every outside parent placed. */
  ghost predicate PlacedNext(ds: seq<Described>, g: Graph, placed: set<string>, d: Described) {
    && d in ds
    && d.table.name !in placed
    && Eligible(g, placed, d)
    && forall e :: e in ds && e.table.name !in placed && Eligible(g, placed, e) ==> AtMost(d.table.name, e.table.name)
  }

  ghost predicate IsLoadOrder(ds: seq<Described>, order: seq<Described>) {
    && |order| == |ds|
    && forall k {:trigger Names(order[..k])} :: 0 <= k < |order| ==> PlacedNext(ds, ParentGraph(ds), Names(order[..k]), order[k])
  }

  /** No descent through cycles is endless: below any table not placed there is one that can be placed. */
  lemma {:induction false} SomethingEligible(ds: seq<Described>, placed: set<string>, d: Described) returns (e: Described)
    requires Describes(ds) && d in ds && d.table.name !in placed
    ensures e in ds && e.table.name !in placed && Eligible(ParentGraph(ds), placed, e)
    decreases Down(ParentGraph(ds), d.table.name)
  {
    var g := ParentGraph(ds);
    e := d;
    if !Eligible(g, placed, d) {
      ParentGraphCloses(ds);
      var j :| 0 <= j < |d.parents| && d.parents[j].parent !in placed && !SameCycle(g, d.parents[j].parent, d.table.name);
      ParentEdge(ds, d, j);
      DownShrinks(g, d.table.name, d.parents[j].parent);
      e := SomethingEligible(ds, placed, TableNamed(ds, d.parents[j].parent));
    }
  }

  predicate CanPlace(ids: map<string, string>, placed: set<string>, d: Described) {
    && d.table.name !in placed
    && forall j :: 0 <= j < |d.parents| ==> d.parents[j].parent in placed || SameId(ids, d.parents[j].parent, d.table.name)
  }

  predicate SameId(ids: map<string, string>, a: string, b: string) {
    a in ids && b in ids && ids[a] == ids[b]
  }

  /** Every table and every parent of a table is a node of `g`. */
  ghost predicate Within(g: Graph, d: Described) {
    d.table.name in g && forall j :: 0 <= j < |d.parents| ==> d.parents[j].parent in g
  }

  lemma CanPlaceIsEligible(g: Graph, ids: map<string, string>, placed: set<string>, d: Described)
    requires NamesCycles(g, ids) && Within(g, d)
    ensures CanPlace(ids, placed, d) <==> d.table.name !in placed && Eligible(g, placed, d)
  {
    forall j | 0 <= j < |d.parents|
      ensures SameId(ids, d.parents[j].parent, d.table.name) <==> SameCycle(g, d.parents[j].parent, d.table.name)
    {
      CycleIdsAgree(g, ids, d.parents[j].parent, d.table.name);
    }
  }

  lemma AllWithin(ds: seq<Described>, d: Described)
    requires Describes(ds) && d in ds
    ensures Within(ParentGraph(ds), d)
  {
    TableNamedIs(ds, d);
    forall j | 0 <= j < |d.parents| ensures d.parents[j].parent in ParentGraph(ds) {
      ParentEdge(ds, d, j);
    }
  }

  /** `tables.find(…)`: the source's throw, a graph without a table to place, is the branch that ends in `assert false`. */
  method FirstToPlace(ds: seq<Described>, ids: map<string, string>, placed: set<string>, ghost unplaced: Described) returns (k: nat)
    requires Describes(ds) && NamesCycles(ParentGraph(ds), ids)
    requires unplaced in ds && unplaced.table.name !in placed
    ensures k < |ds| && PlacedNext(ds, ParentGraph(ds), placed, ds[k])
  {
    k := 0;
    while k < |ds| && !CanPlace(ids, placed, ds[k])
      invariant 0 <= k <= |ds|
      invariant forall j :: 0 <= j < k ==> !CanPlace(ids, placed, ds[j])
    {
      k := k + 1;
    }
    if k == |ds| {
      var e := SomethingEligible(ds, placed, unplaced);
      AllWithin(ds, e);
      CanPlaceIsEligible(ParentGraph(ds), ids, placed, e);
      assert false;
    }
    FirstIsNext(ds, ids, placed, k);
  }

  lemma FirstIsNext(ds: seq<Described>, ids: map<string, string>, placed: set<string>, k: nat)
    requires Describes(ds) && NamesCycles(ParentGraph(ds), ids) && k < |ds|
    requires CanPlace(ids, placed, ds[k]) && forall j :: 0 <= j < k ==> !CanPlace(ids, placed, ds[j])
    ensures PlacedNext(ds, ParentGraph(ds), placed, ds[k])
  {
    var g := ParentGraph(ds);
    AllWithin(ds, ds[k]);
    CanPlaceIsEligible(g, ids, placed, ds[k]);
    forall e | e in ds && e.table.name !in placed && Eligible(g, placed, e) ensures AtMost(ds[k].table.name, e.table.name) {
      AllWithin(ds, e);
      CanPlaceIsEligible(g, ids, placed, e);
      AtMostReflexive(e.table.name);
    }
  }

  method LoadOrder(ds: seq<Described>, ids: map<string, string>) returns (order: seq<Described>)
    requires Describes(ds) && NamesCycles(ParentGraph(ds), ids)
    ensures IsLoadOrder(ds, order)
  {
    var placed: set<string> := {};
    order := [];
    while |order| < |ds|
      invariant |order| <= |ds|
      invariant placed == Names(order)
      invariant forall k {:trigger Names(order[..k])} :: 0 <= k < |order| ==> PlacedNext(ds, ParentGraph(ds), Names(order[..k]), order[k])
    {
      ghost var unplaced := Unplaced(ds, order);
      var k := FirstToPlace(ds, ids, placed, unplaced);
      ghost var longer := order + [ds[k]];
      NamesGrow(longer, |order|);
      assert longer[..|order|] == order && longer[..|order| + 1] == longer;
      assert forall j :: 0 <= j < |order| ==> longer[..j] == order[..j];
      placed := placed + {ds[k].table.name};
      order := order + [ds[k]];
    }
  }

  /** Fewer names than tables are placed, so one is not. */
  lemma Unplaced(ds: seq<Described>, order: seq<Described>) returns (d: Described)
    requires Ordered(ds) && |order| < |ds|
    ensures d in ds && d.table.name !in Names(order)
  {
    NamesAtMost(order);
    OrderedNames(ds);
    assert exists i :: 0 <= i < |ds| && ds[i].table.name !in Names(order) by {
      if forall i :: 0 <= i < |ds| ==> ds[i].table.name in Names(order) {
        assert Names(ds) <= Names(order);
        SubsetSize(Names(ds), Names(order));
      }
    }
    var i :| 0 <= i < |ds| && ds[i].table.name !in Names(order);
    d := ds[i];
  }

  lemma {:induction false} NamesAtMost(ds: seq<Described>)
    ensures |Names(ds)| <= |ds|
  {
    if ds == [] {
      assert Names(ds) == {};
    } else {
      var n := |ds| - 1;
      NamesAtMost(ds[..n]);
      NamesGrow(ds, n);
      assert ds[..n + 1] == ds;
    }
  }

  lemma {:induction false} OrderedNames(ds: seq<Described>)
    requires Ordered(ds)
    ensures |Names(ds)| == |ds|
  {
    if ds == [] {
      assert Names(ds) == {};
    } else {
      var n := |ds| - 1;
      OrderedNames(ds[..n]);
      NamesGrow(ds, n);
      assert ds[..n + 1] == ds;
      assert ds[n].table.name !in Names(ds[..n]);
    }
  }

  lemma {:induction false} SubsetSize<T>(a: set<T>, b: set<T>)
    requires a <= b
    ensures |a| <= |b|
  {
    if a != {} {
      var x :| x in a;
      SubsetSize(a - {x}, b - {x});
    }
  }

  // ----- planOpsDump

  predicate TableOrder(a: Table, b: Table) {
    AtMost(a.name, b.name)
  }

  predicate NamesAccepted(tables: seq<Table>) {
    && (forall i :: 0 <= i < |tables| ==> IsTableName(tables[i].name))
    && forall i, j :: 0 <= i < j < |tables| ==> tables[i].name != tables[j].name
  }

  function ByName(tables: seq<Table>): map<string, Table> {
    if tables == [] then map[]
    else ByName(tables[..|tables| - 1])[tables[|tables| - 1].name := tables[|tables| - 1]]
  }

  predicate Describable(table: Table, byName: map<string, Table>) {
    Keyset(table).Some? && Resolvable(table, byName)
  }

  function Describe(table: Table, byName: map<string, Table>): Described
    requires Describable(table, byName)
  {
    Described(table, Keyset(table).value, ResolvedKeys(table, byName))
  }

  /** The tables in name order, each with its rowid name and its resolved foreign keys. */
  ghost predicate DescribesTables(tables: seq<Table>, ds: seq<Described>) {
    && |ds| == |tables|
    && forall i :: 0 <= i < |tables| ==> Describable(tables[i], ByName(tables)) && ds[i] == Describe(tables[i], ByName(tables))
  }

  /** The first table, in name order, that cannot be described. */
  ghost predicate FirstUndescribed(tables: seq<Table>, i: nat) {
    && i < |tables| && !Describable(tables[i], ByName(tables))
    && forall j :: 0 <= j < i ==> Describable(tables[j], ByName(tables))
  }

  /** Every parent column some foreign key names. */
  function Referenced(ds: seq<Described>): set<ColumnKey> {
    set i, j, k | 0 <= i < |ds| && 0 <= j < |ds[i].parents| && 0 <= k < |ds[i].parents[j].references| ::
      ColumnKey(ds[i].parents[j].parent, AsciiLower(ds[i].parents[j].references[k]))
  }

  predicate NamesColumn(key: ResolvedKey, column: Column) {
    exists k :: 0 <= k < |key.columns| && AsciiLower(key.columns[k]) == AsciiLower(column.name)
  }

  /** Some key of the table into its own cycle, itself perhaps, uses the column. */
  ghost predicate IsDeferred(g: Graph, d: Described, column: Column) {
    exists j :: 0 <= j < |d.parents| && SameCycle(g, d.parents[j].parent, d.table.name) && NamesColumn(d.parents[j], column)
  }

  ghost function DeferredColumns(g: Graph, d: Described): seq<Column> {
    Filter(c => IsDeferred(g, d, c), d.table.columns)
  }

  ghost predicate Loads(ds: seq<Described>, d: Described) {
    var deferred := DeferredColumns(ParentGraph(ds), d);
    deferred == [] || TakesTemporaryNull(d.table, deferred, Referenced(ds))
  }

  function StoredColumns(table: Table): seq<string> {
    ColumnNames(Filter((c: Column) => !c.generated, table.columns))
  }

  ghost function TablePlanOf(g: Graph, d: Described): TablePlan {
    TablePlan(d.table.name, d.keyset, StoredColumns(d.table), ColumnNames(DeferredColumns(g, d)))
  }

  ghost predicate Plans(ds: seq<Described>, order: seq<Described>, plans: seq<TablePlan>) {
    && |plans| == |order|
    && forall k :: 0 <= k < |order| ==> Loads(ds, order[k]) && plans[k] == TablePlanOf(ParentGraph(ds), order[k])
  }

  /** The first table, in load order, whose deferred columns cannot take a temporary `NULL`. */
  ghost predicate FirstRefused(ds: seq<Described>, order: seq<Described>, k: nat) {
    k < |order| && !Loads(ds, order[k]) && forall j :: 0 <= j < k ==> Loads(ds, order[j])
  }

  /** What the plan of a described schema is: the load order is unique, so this determines the result. */
  ghost predicate PlanOfDescribed(ds: seq<Described>, r: PlanResult) {
    exists order :: IsLoadOrder(ds, order) && PlanInOrder(ds, order, r)
  }

  ghost predicate PlanInOrder(ds: seq<Described>, order: seq<Described>, r: PlanResult) {
    match r
    case Plan(plans) => Plans(ds, order, plans)
    case Unsupported(table) => exists k: nat :: FirstRefused(ds, order, k) && table == Some(order[k].table.name)
  }

  ghost predicate PlanSpec(schema: seq<Table>, r: PlanResult) {
    var tables := SortBy(TableOrder, schema);
    if !NamesAccepted(tables) then
      r == Unsupported(None)
    else if exists i: nat :: FirstUndescribed(tables, i) then
      exists i: nat :: FirstUndescribed(tables, i) && r == Unsupported(Some(tables[i].name))
    else
      exists ds :: DescribesTables(tables, ds) && PlanOfDescribed(ds, r)
  }

  lemma {:induction false} ByNameHolds(tables: seq<Table>)
    requires forall i, j :: 0 <= i < j < |tables| ==> tables[i].name != tables[j].name
    ensures forall i :: 0 <= i < |tables| ==> tables[i].name in ByName(tables) && ByName(tables)[tables[i].name] == tables[i]
    ensures forall name :: name in ByName(tables) ==> ByName(tables)[name] in tables && ByName(tables)[name].name == name
  {
    if tables != [] {
      var n := |tables| - 1;
      ByNameHolds(tables[..n]);
      forall i | 0 <= i < |tables| ensures tables[i].name in ByName(tables) && ByName(tables)[tables[i].name] == tables[i] {
        if i < n {
          assert tables[..n][i] == tables[i];
        }
      }
    }
  }

  lemma SortedTablesOrdered(schema: seq<Table>)
    ensures SortedBy(TableOrder, SortBy(TableOrder, schema))
  {
    forall x: Table, y: Table ensures TableOrder(x, y) || TableOrder(y, x) {
      AtMostTotal(x.name, y.name);
    }
    forall x: Table, y: Table, z: Table | TableOrder(x, y) && TableOrder(y, z) ensures TableOrder(x, z) {
      AtMostTransitive(x.name, y.name, z.name);
    }
    SortIsSorted(TableOrder, schema);
  }

  lemma ParentIsTable(tables: seq<Table>, key: ForeignKey)
    requires NamesAccepted(tables) && ResolveKey(key, ByName(tables)).Some?
    ensures exists i :: 0 <= i < |tables| && tables[i].name == ResolveKey(key, ByName(tables)).value.parent
  {
    ByNameHolds(tables);
    var parent := ByName(tables)[AsciiLower(key.parent)];
    assert parent in tables;
  }

  lemma DescribedTables(schema: seq<Table>, ds: seq<Described>)
    requires NamesAccepted(SortBy(TableOrder, schema)) && DescribesTables(SortBy(TableOrder, schema), ds)
    ensures Describes(ds)
  {
    var tables := SortBy(TableOrder, schema);
    SortedTablesOrdered(schema);
    forall i, j | 0 <= i < j < |ds| ensures Before(ds[i].table.name, ds[j].table.name) {
      assert TableOrder(tables[i], tables[j]);
    }
    forall i, j | 0 <= i < |ds| && 0 <= j < |ds[i].parents| ensures ds[i].parents[j].parent in Names(ds) {
      ParentIsTable(tables, tables[i].foreignKeys[j]);
      var k :| 0 <= k < |tables| && tables[k].name == ds[i].parents[j].parent;
      assert ds[k].table.name == ds[i].parents[j].parent;
    }
  }

  /** The tables described in name order, or the first that cannot be. */
  method DescribeTables(tables: seq<Table>) returns (ds: seq<Described>, undescribed: Option<nat>)
    requires NamesAccepted(tables)
    ensures undescribed == None ==> DescribesTables(tables, ds)
    ensures undescribed.Some? ==> FirstUndescribed(tables, undescribed.value)
  {
    var byName := ByName(tables);
    ds := [];
    for i := 0 to |tables|
      invariant |ds| == i
      invariant forall j :: 0 <= j < i ==> Describable(tables[j], byName) && ds[j] == Describe(tables[j], byName)
    {
      var keyset := Keyset(tables[i]);
      var parents := ResolveForeignKeys(tables[i], byName);
      if keyset == None || parents == None {
        return ds, Some(i);
      }
      ds := ds + [Described(tables[i], keyset.value, parents.value)];
    }
    undescribed := None;
  }

  /** The names, in lower case, of the columns of `keys`. */
  function KeyColumns(keys: seq<ResolvedKey>): set<string> {
    set i, j | 0 <= i < |keys| && 0 <= j < |keys[i].columns| :: AsciiLower(keys[i].columns[j])
  }

  lemma KeyColumnsDefer(g: Graph, ids: map<string, string>, d: Described, column: Column)
    requires NamesCycles(g, ids) && Within(g, d)
    ensures AsciiLower(column.name) in KeyColumns(Filter((key: ResolvedKey) => SameId(ids, key.parent, d.table.name), d.parents))
       <==> IsDeferred(g, d, column)
  {
    var inCycle := (key: ResolvedKey) => SameId(ids, key.parent, d.table.name);
    var keys := Filter(inCycle, d.parents);
    if AsciiLower(column.name) in KeyColumns(keys) {
      var i, k :| 0 <= i < |keys| && 0 <= k < |keys[i].columns| && AsciiLower(keys[i].columns[k]) == AsciiLower(column.name);
      FilterHolds(inCycle, d.parents, keys[i]);
      var j :| 0 <= j < |d.parents| && d.parents[j] == keys[i];
      CycleIdsAgree(g, ids, d.parents[j].parent, d.table.name);
      assert NamesColumn(d.parents[j], column);
    }
    if IsDeferred(g, d, column) {
      var j :| 0 <= j < |d.parents| && SameCycle(g, d.parents[j].parent, d.table.name) && NamesColumn(d.parents[j], column);
      CycleIdsAgree(g, ids, d.parents[j].parent, d.table.name);
      FilterHolds(inCycle, d.parents, d.parents[j]);
      var i :| 0 <= i < |keys| && keys[i] == d.parents[j];
      var k :| 0 <= k < |d.parents[j].columns| && AsciiLower(d.parents[j].columns[k]) == AsciiLower(column.name);
      assert AsciiLower(keys[i].columns[k]) in KeyColumns(keys);
    }
  }

  method PlanTable(d: Described, ids: map<string, string>, referenced: set<ColumnKey>, ghost g: Graph) returns (plan: Option<TablePlan>)
    requires NamesCycles(g, ids) && Within(g, d)
    ensures plan.Some? <==> DeferredColumns(g, d) == [] || TakesTemporaryNull(d.table, DeferredColumns(g, d), referenced)
    ensures plan.Some? ==> plan.value == TablePlanOf(g, d)
  {
    var names := KeyColumns(Filter((key: ResolvedKey) => SameId(ids, key.parent, d.table.name), d.parents));
    var deferred := Filter((c: Column) => AsciiLower(c.name) in names, d.table.columns);
    forall c | c in d.table.columns ensures (AsciiLower(c.name) in names) == IsDeferred(g, d, c) {
      KeyColumnsDefer(g, ids, d, c);
    }
    FilterAgrees((c: Column) => AsciiLower(c.name) in names, c => IsDeferred(g, d, c), d.table.columns);
    if |deferred| > 0 && !TakesTemporaryNull(d.table, deferred, referenced) {
      return None;
    }
    return Some(TablePlan(d.table.name, d.keyset, StoredColumns(d.table), ColumnNames(deferred)));
  }

  method PlanOpsDump(schema: seq<Table>) returns (r: PlanResult)
    ensures PlanSpec(schema, r)
  {
    var tables := SortBy(TableOrder, schema);
    if !NamesAccepted(tables) {
      return Unsupported(None);
    }
    var ds, undescribed := DescribeTables(tables);
    if undescribed.Some? {
      return Unsupported(Some(tables[undescribed.value].name));
    }
    DescribedTables(schema, ds);
    r := PlanDescribed(ds);
    assert DescribesTables(tables, ds);
  }

  method PlanDescribed(ds: seq<Described>) returns (r: PlanResult)
    requires Describes(ds)
    ensures PlanOfDescribed(ds, r)
  {
    var ids := CycleIds(ds);
    var order := LoadOrder(ds, ids);
    forall k | 0 <= k < |order| ensures Within(ParentGraph(ds), order[k]) {
      assert PlacedNext(ds, ParentGraph(ds), Names(order[..k]), order[k]);
      AllWithin(ds, order[k]);
    }
    r := PlanOrder(ds, order, ids);
  }

  method PlanOrder(ds: seq<Described>, order: seq<Described>, ids: map<string, string>) returns (r: PlanResult)
    requires NamesCycles(ParentGraph(ds), ids)
    requires forall k :: 0 <= k < |order| ==> Within(ParentGraph(ds), order[k])
    ensures PlanInOrder(ds, order, r)
  {
    ghost var g := ParentGraph(ds);
    var referenced := Referenced(ds);
    var plans: seq<TablePlan> := [];
    for k := 0 to |order|
      invariant |plans| == k
      invariant forall j :: 0 <= j < k ==> Loads(ds, order[j])
      invariant forall j :: 0 <= j < k ==> plans[j] == TablePlanOf(g, order[j])
    {
      var plan := PlanTable(order[k], ids, referenced, g);
      if plan == None {
        assert FirstRefused(ds, order, k);
        return Unsupported(Some(order[k].table.name));
      }
      plans := plans + [plan.value];
    }
    return Plan(plans);
  }
}
