/** Schemas of pairwise like tables: where the tables are described alike and load alike, the plans are the same. */
module DumpAlike {
  import opened Wrappers
  import opened Seqs
  import opened Sorting
  import opened Graphs
  import opened DumpSchema
  import opened DumpPlan

  /** Two tables that are described alike, whatever their rules. */
  ghost predicate Alike(a: Table, b: Table) {
    && a.name == b.name && a.foreignKeys == b.foreignKeys
    && Keyset(a) == Keyset(b) && PrimaryKeyColumns(a) == PrimaryKeyColumns(b) && StoredColumns(a) == StoredColumns(b)
  }

  ghost predicate Paired(rel: (Table, Table) -> bool, s: seq<Table>, t: seq<Table>) {
    |s| == |t| && forall i :: 0 <= i < |s| ==> rel(s[i], t[i])
  }

  ghost predicate KeepsNames(rel: (Table, Table) -> bool) {
    forall a, b :: rel(a, b) ==> a.name == b.name
  }

  lemma SameOrder(a: Table, x: Table, b: Table, y: Table)
    requires a.name == b.name && x.name == y.name
    ensures TableOrder(a, x) == TableOrder(b, y)
  {
  }

  lemma ConsPaired(rel: (Table, Table) -> bool, a: Table, b: Table, s: seq<Table>, t: seq<Table>)
    requires rel(a, b) && Paired(rel, s, t)
    ensures Paired(rel, [a] + s, [b] + t)
  {
  }

  lemma RestPaired(rel: (Table, Table) -> bool, s: seq<Table>, t: seq<Table>)
    requires Paired(rel, s, t) && s != []
    ensures t != [] && rel(s[0], t[0]) && Paired(rel, s[1..], t[1..])
  {
  }

  lemma {:induction false} InsertPaired(rel: (Table, Table) -> bool, a: Table, b: Table, s: seq<Table>, t: seq<Table>)
    requires KeepsNames(rel) && rel(a, b) && Paired(rel, s, t)
    ensures Paired(rel, Insert(TableOrder, a, s), Insert(TableOrder, b, t))
  {
    assert s == [] <==> t == [];
    hide Paired, TableOrder;
    if s == [] {
      ConsPaired(rel, a, b, s, t);
    } else {
      RestPaired(rel, s, t);
      SameOrder(a, s[0], b, t[0]);
      if TableOrder(a, s[0]) {
        ConsPaired(rel, a, b, s, t);
      } else {
        InsertPaired(rel, a, b, s[1..], t[1..]);
        ConsPaired(rel, s[0], t[0], Insert(TableOrder, a, s[1..]), Insert(TableOrder, b, t[1..]));
      }
    }
  }

  /** Sorting two paired lists of tables keeps them paired. */
  lemma {:induction false} SortPaired(rel: (Table, Table) -> bool, s: seq<Table>, t: seq<Table>)
    requires KeepsNames(rel) && Paired(rel, s, t)
    ensures Paired(rel, SortBy(TableOrder, s), SortBy(TableOrder, t))
  {
    if s != [] {
      assert rel(s[0], t[0]);
      SortPaired(rel, s[1..], t[1..]);
      InsertPaired(rel, s[0], t[0], SortBy(TableOrder, s[1..]), SortBy(TableOrder, t[1..]));
    }
  }

  lemma {:induction false} ByNamePaired(s: seq<Table>, t: seq<Table>)
    requires Paired(Alike, s, t)
    ensures ByName(s).Keys == ByName(t).Keys
    ensures forall name :: name in ByName(s) ==> Alike(ByName(s)[name], ByName(t)[name])
  {
    hide Alike;
    if s != [] {
      var n := |s| - 1;
      ByNamePaired(s[..n], t[..n]);
      AlikeNames(s[n], t[n]);
    }
  }

  lemma AlikeNames(a: Table, b: Table)
    requires Alike(a, b)
    ensures a.name == b.name
  {
  }

  lemma KeyResolvesAlike(key: ForeignKey, s: map<string, Table>, t: map<string, Table>)
    requires s.Keys == t.Keys && forall name :: name in s ==> Alike(s[name], t[name])
    ensures ResolveKey(key, s) == ResolveKey(key, t)
  {
    hide PrimaryKeyColumns, Keyset, StoredColumns, AsciiLower;
  }

  lemma DescribedAlike(a: Table, b: Table, s: map<string, Table>, t: map<string, Table>)
    requires Alike(a, b) && s.Keys == t.Keys && forall name :: name in s ==> Alike(s[name], t[name])
    ensures Describable(a, s) <==> Describable(b, t)
    ensures Describable(a, s) ==> SameDescribed(Describe(a, s), Describe(b, t))
  {
    KeysResolveAlike(a, s, t);
    assert b.foreignKeys == a.foreignKeys;
    SameKeys(a, b, t);
    hide Resolvable, ResolvedKeys, Keyset, PrimaryKeyColumns, StoredColumns;
  }

  lemma KeysResolveAlike(a: Table, s: map<string, Table>, t: map<string, Table>)
    requires s.Keys == t.Keys && forall name :: name in s ==> Alike(s[name], t[name])
    ensures Resolvable(a, s) <==> Resolvable(a, t)
    ensures Resolvable(a, s) ==> ResolvedKeys(a, s) == ResolvedKeys(a, t)
  {
    hide ResolveKey, Alike;
    forall i | 0 <= i < |a.foreignKeys| ensures ResolveKey(a.foreignKeys[i], s) == ResolveKey(a.foreignKeys[i], t) {
      KeyResolvesAlike(a.foreignKeys[i], s, t);
    }
  }

  lemma SameKeys(a: Table, b: Table, t: map<string, Table>)
    requires a.foreignKeys == b.foreignKeys
    ensures Resolvable(a, t) <==> Resolvable(b, t)
    ensures Resolvable(a, t) ==> ResolvedKeys(a, t) == ResolvedKeys(b, t)
  {
    hide ResolveKey;
  }

  ghost predicate SameDescribed(d: Described, e: Described) {
    d.table.name == e.table.name && d.keyset == e.keyset && d.parents == e.parents && StoredColumns(d.table) == StoredColumns(e.table)
  }

  ghost predicate AllSame(ds: seq<Described>, es: seq<Described>) {
    |ds| == |es| && forall i :: 0 <= i < |ds| ==> SameDescribed(ds[i], es[i])
  }

  /** The two tables defer columns of the same names, and both or neither can hold their `NULL`s. */
  ghost predicate LoadsAlike(ds: seq<Described>, d: Described, es: seq<Described>, e: Described) {
    && ColumnNames(DeferredColumns(ParentGraph(ds), d)) == ColumnNames(DeferredColumns(ParentGraph(es), e))
    && (Loads(ds, d) <==> Loads(es, e))
  }

  ghost predicate AllLoadAlike(ds: seq<Described>, es: seq<Described>) {
    |ds| == |es| && forall i :: 0 <= i < |ds| ==> LoadsAlike(ds, ds[i], es, es[i])
  }

  lemma SameNames(ds: seq<Described>, es: seq<Described>)
    requires AllSame(ds, es)
    ensures Names(ds) == Names(es) && (Ordered(ds) <==> Ordered(es)) && Referenced(ds) == Referenced(es)
  {
    forall i | 0 <= i < |ds| ensures ds[i].table.name == es[i].table.name && ds[i].parents == es[i].parents {
      assert SameDescribed(ds[i], es[i]);
    }
    forall x ensures x in Referenced(ds) <==> x in Referenced(es) {
      if x in Referenced(ds) {
        var i, j, k :| 0 <= i < |ds| && 0 <= j < |ds[i].parents| && 0 <= k < |ds[i].parents[j].references|
          && x == ColumnKey(ds[i].parents[j].parent, AsciiLower(ds[i].parents[j].references[k]));
        assert es[i].parents[j].references[k] == ds[i].parents[j].references[k];
      }
      if x in Referenced(es) {
        var i, j, k :| 0 <= i < |es| && 0 <= j < |es[i].parents| && 0 <= k < |es[i].parents[j].references|
          && x == ColumnKey(es[i].parents[j].parent, AsciiLower(es[i].parents[j].references[k]));
        assert ds[i].parents[j].references[k] == es[i].parents[j].references[k];
      }
    }
  }

  lemma SamePlace(ds: seq<Described>, es: seq<Described>, i: nat)
    requires AllSame(ds, es) && Ordered(ds) && i < |ds|
    ensures ds[i].table.name in Names(ds) && ds[i].table.name in Names(es)
    ensures TableNamed(ds, ds[i].table.name) == ds[i] && TableNamed(es, ds[i].table.name) == es[i]
  {
    SameNames(ds, es);
    assert SameDescribed(ds[i], es[i]);
    TableNamedIs(ds, ds[i]);
    TableNamedIs(es, es[i]);
  }

  lemma SameGraph(ds: seq<Described>, es: seq<Described>)
    requires AllSame(ds, es) && Ordered(ds)
    ensures ParentGraph(ds) == ParentGraph(es)
  {
    SameNames(ds, es);
    forall name | name in Names(ds) ensures ParentNames(TableNamed(ds, name)) == ParentNames(TableNamed(es, name)) {
      var i :| 0 <= i < |ds| && ds[i].table.name == name;
      SamePlace(ds, es, i);
      assert SameDescribed(ds[i], es[i]);
    }
  }

  /** The tables of `es` in the order of their counterparts. */
  function Mirror(es: seq<Described>, order: seq<Described>): (r: seq<Described>)
    requires forall k :: 0 <= k < |order| ==> order[k].table.name in Names(es)
    ensures |r| == |order| && forall k :: 0 <= k < |r| ==> r[k].table.name == order[k].table.name
  {
    seq(|order|, k requires 0 <= k < |order| => TableNamed(es, order[k].table.name))
  }

  lemma MirrorNames(es: seq<Described>, order: seq<Described>, k: nat)
    requires (forall k :: 0 <= k < |order| ==> order[k].table.name in Names(es)) && k <= |order|
    ensures Names(Mirror(es, order)[..k]) == Names(order[..k])
  {
    var m := Mirror(es, order);
    forall x ensures x in Names(m[..k]) <==> x in Names(order[..k]) {
      if x in Names(m[..k]) {
        var i :| 0 <= i < k && m[..k][i].table.name == x;
        assert order[..k][i].table.name == x;
      }
      if x in Names(order[..k]) {
        var i :| 0 <= i < k && order[..k][i].table.name == x;
        assert m[..k][i].table.name == x;
      }
    }
  }

  lemma EligibleAlike(g: Graph, placed: set<string>, d: Described, e: Described)
    requires SameDescribed(d, e)
    ensures Eligible(g, placed, d) <==> Eligible(g, placed, e)
  {
    hide SameCycle, StoredColumns;
  }

  lemma Counterpart(ds: seq<Described>, es: seq<Described>, e: Described) returns (d: Described)
    requires AllSame(ds, es) && e in es
    ensures d in ds && SameDescribed(d, e)
  {
    hide SameDescribed;
    var j :| 0 <= j < |es| && es[j] == e;
    d := ds[j];
  }

  lemma PlacedAlike(ds: seq<Described>, es: seq<Described>, placed: set<string>, d: Described)
    requires AllSame(ds, es) && Ordered(ds) && PlacedNext(ds, ParentGraph(ds), placed, d)
    ensures d.table.name in Names(es) && PlacedNext(es, ParentGraph(es), placed, TableNamed(es, d.table.name))
  {
    var g := ParentGraph(ds);
    SameGraph(ds, es);
    var i :| 0 <= i < |ds| && ds[i] == d;
    SamePlace(ds, es, i);
    assert SameDescribed(ds[i], es[i]);
    EligibleAlike(g, placed, d, es[i]);
    hide ParentGraph, Eligible, AllSame, Ordered, AtMost, StoredColumns;
    forall e | e in es && e.table.name !in placed && Eligible(g, placed, e) ensures AtMost(d.table.name, e.table.name) {
      var x := Counterpart(ds, es, e);
      EligibleAlike(g, placed, x, e);
    }
  }

  lemma OrderAlike(ds: seq<Described>, es: seq<Described>, order: seq<Described>)
    requires AllSame(ds, es) && Ordered(ds) && IsLoadOrder(ds, order)
    ensures (forall k :: 0 <= k < |order| ==> order[k] in ds && order[k].table.name in Names(es))
    ensures IsLoadOrder(es, Mirror(es, order))
  {
    forall k | 0 <= k < |order| ensures order[k] in ds && order[k].table.name in Names(es) {
      assert PlacedNext(ds, ParentGraph(ds), Names(order[..k]), order[k]);
      PlacedAlike(ds, es, Names(order[..k]), order[k]);
    }
    var m := Mirror(es, order);
    forall k | 0 <= k < |m| ensures PlacedNext(es, ParentGraph(es), Names(m[..k]), m[k]) {
      MirrorNames(es, order, k);
      PlacedAlike(ds, es, Names(order[..k]), order[k]);
    }
  }

  lemma PlanAlike(ds: seq<Described>, es: seq<Described>, d: Described)
    requires AllSame(ds, es) && AllLoadAlike(ds, es) && Ordered(ds) && d in ds
    ensures d.table.name in Names(es)
    ensures var e := TableNamed(es, d.table.name);
            && (Loads(ds, d) <==> Loads(es, e)) && TablePlanOf(ParentGraph(ds), d) == TablePlanOf(ParentGraph(es), e)
  {
    var i :| 0 <= i < |ds| && ds[i] == d;
    SamePlace(ds, es, i);
    assert SameDescribed(ds[i], es[i]) && LoadsAlike(ds, ds[i], es, es[i]);
    hide Loads, ParentGraph, DeferredColumns, StoredColumns;
  }

  lemma PlannedAlike(ds: seq<Described>, es: seq<Described>, r: PlanResult)
    requires AllSame(ds, es) && AllLoadAlike(ds, es) && Ordered(ds) && PlanOfDescribed(ds, r)
    ensures PlanOfDescribed(es, r)
  {
    var order: seq<Described> :| IsLoadOrder(ds, order) && PlanInOrder(ds, order, r);
    OrderAlike(ds, es, order);
    var m := Mirror(es, order);
    forall k | 0 <= k < |order|
      ensures (Loads(ds, order[k]) <==> Loads(es, m[k])) && TablePlanOf(ParentGraph(ds), order[k]) == TablePlanOf(ParentGraph(es), m[k])
    {
      PlanAlike(ds, es, order[k]);
    }
    hide Loads, TablePlanOf, ParentGraph, Mirror, IsLoadOrder;
    if r.Unsupported? {
      var k: nat :| FirstRefused(ds, order, k) && r.table == Some(order[k].table.name);
      assert FirstRefused(es, m, k);
    }
    assert PlanInOrder(es, m, r);
  }

  /** However the two lists are described, table by table, their tables load alike. */
  ghost predicate TablesLoadAlike(s: seq<Table>, t: seq<Table>) {
    forall ds, es :: DescribesTables(s, ds) && DescribesTables(t, es) && AllSame(ds, es) && Ordered(ds) ==> AllLoadAlike(ds, es)
  }

  lemma OneDescribedAlike(s: seq<Table>, t: seq<Table>, i: nat)
    requires Paired(Alike, s, t) && i < |s|
    ensures s[i].name == t[i].name && (Describable(s[i], ByName(s)) <==> Describable(t[i], ByName(t)))
    ensures Describable(s[i], ByName(s)) ==> SameDescribed(Describe(s[i], ByName(s)), Describe(t[i], ByName(t)))
  {
    ByNamePaired(s, t);
    assert Alike(s[i], t[i]);
    AlikeNames(s[i], t[i]);
    hide Describable, Describe, ByName, Alike, SameDescribed;
    DescribedAlike(s[i], t[i], ByName(s), ByName(t));
  }

  /** Pairwise alike schemas are described alike, or have the same first table that cannot be. */
  lemma DescriptionsAlike(s: seq<Table>, t: seq<Table>)
    requires Paired(Alike, s, t)
    ensures NamesAccepted(s) <==> NamesAccepted(t)
    ensures forall i: nat :: FirstUndescribed(s, i) <==> FirstUndescribed(t, i)
    ensures |s| == |t| && forall i :: 0 <= i < |s| ==> s[i].name == t[i].name
  {
    forall i | 0 <= i < |s| ensures s[i].name == t[i].name && (Describable(s[i], ByName(s)) <==> Describable(t[i], ByName(t))) {
      OneDescribedAlike(s, t, i);
    }
    assert |s| == |t|;
    hide Describable, ByName, Alike, Paired, IsTableName;
  }

  lemma DescriptionsSame(s: seq<Table>, t: seq<Table>, ds: seq<Described>, es: seq<Described>)
    requires Paired(Alike, s, t) && DescribesTables(s, ds) && DescribesTables(t, es)
    ensures AllSame(ds, es)
  {
    forall i | 0 <= i < |s|
      ensures Describable(s[i], ByName(s)) ==> Describable(t[i], ByName(t)) && SameDescribed(Describe(s[i], ByName(s)), Describe(t[i], ByName(t)))
    {
      OneDescribedAlike(s, t, i);
    }
    assert |s| == |t|;
    hide Describable, Describe, ByName, Alike, Paired, SameDescribed;
  }

  lemma DescribedPlansAlike(s: seq<Table>, t: seq<Table>, ds: seq<Described>, r: PlanResult)
    requires Paired(Alike, s, t) && NamesAccepted(s) && SortedBy(TableOrder, s) && !exists i: nat :: FirstUndescribed(s, i)
    requires DescribesTables(s, ds) && PlanOfDescribed(ds, r)
    requires TablesLoadAlike(s, t)
    ensures exists es :: DescribesTables(t, es) && PlanOfDescribed(es, r)
  {
    DescriptionsAlike(s, t);
    OrderedByName(s, ds);
    hide Describes, Ordered, Alike, Paired, NamesAccepted, FirstUndescribed, DescribesTables, AllSame, AllLoadAlike, PlanOfDescribed, SortedBy;
    var es := DescribeAll(t);
    DescriptionsSame(s, t, ds, es);
    PlannedAlike(ds, es, r);
  }

  lemma OrderedByName(s: seq<Table>, ds: seq<Described>)
    requires NamesAccepted(s) && SortedBy(TableOrder, s) && DescribesTables(s, ds)
    ensures Ordered(ds)
  {
    hide Describable, ByName, IsTableName;
    forall i, j | 0 <= i < j < |ds| ensures Before(ds[i].table.name, ds[j].table.name) {
      assert TableOrder(s[i], s[j]);
    }
  }

  /** `PlanSpec`, of the tables in name order. */
  ghost predicate SortedSpec(tables: seq<Table>, r: PlanResult) {
    if !NamesAccepted(tables) then
      r == Unsupported(None)
    else if exists i: nat :: FirstUndescribed(tables, i) then
      exists i: nat :: FirstUndescribed(tables, i) && r == Unsupported(Some(tables[i].name))
    else
      exists ds :: DescribesTables(tables, ds) && PlanOfDescribed(ds, r)
  }

  lemma SpecIsSorted(schema: seq<Table>, r: PlanResult)
    ensures PlanSpec(schema, r) <==> SortedSpec(SortBy(TableOrder, schema), r)
  {
    hide SortBy, NamesAccepted, FirstUndescribed, DescribesTables, PlanOfDescribed;
  }

  ghost predicate SomeUndescribed(tables: seq<Table>) {
    exists i: nat :: FirstUndescribed(tables, i)
  }

  ghost predicate RefusesFirst(tables: seq<Table>, r: PlanResult) {
    exists i: nat :: FirstUndescribed(tables, i) && r == Unsupported(Some(tables[i].name))
  }

  ghost predicate PlansSome(tables: seq<Table>, r: PlanResult) {
    exists ds :: DescribesTables(tables, ds) && PlanOfDescribed(ds, r)
  }

  lemma SpecByCases(tables: seq<Table>, r: PlanResult)
    ensures SortedSpec(tables, r) <==>
              if !NamesAccepted(tables) then r == Unsupported(None)
              else if SomeUndescribed(tables) then RefusesFirst(tables, r) else PlansSome(tables, r)
  {
    hide NamesAccepted, FirstUndescribed, DescribesTables, PlanOfDescribed;
  }

  lemma RefusedAlike(s: seq<Table>, t: seq<Table>, r: PlanResult)
    requires Paired(Alike, s, t)
    ensures NamesAccepted(s) <==> NamesAccepted(t)
    ensures SomeUndescribed(s) <==> SomeUndescribed(t)
    ensures RefusesFirst(s, r) ==> RefusesFirst(t, r)
  {
    DescriptionsAlike(s, t);
    hide Alike, Paired, NamesAccepted, FirstUndescribed;
    if RefusesFirst(s, r) {
      FirstOfOther(s, t, r);
    }
  }

  lemma SortedPlansAlike(s: seq<Table>, t: seq<Table>, r: PlanResult)
    requires Paired(Alike, s, t) && SortedBy(TableOrder, s) && SortedSpec(s, r)
    requires TablesLoadAlike(s, t)
    ensures SortedSpec(t, r)
  {
    SpecByCases(s, r);
    SpecByCases(t, r);
    RefusedAlike(s, t, r);
    if NamesAccepted(s) && !SomeUndescribed(s) {
      PlannedSome(s, t, r);
    }
    hide Alike, Paired, NamesAccepted, SomeUndescribed, RefusesFirst, PlansSome, TablesLoadAlike, SortedBy, TableOrder, SortedSpec;
  }

  lemma PlannedSome(s: seq<Table>, t: seq<Table>, r: PlanResult)
    requires Paired(Alike, s, t) && NamesAccepted(s) && SortedBy(TableOrder, s) && !SomeUndescribed(s)
    requires TablesLoadAlike(s, t) && PlansSome(s, r)
    ensures PlansSome(t, r)
  {
    hide Alike, Paired, NamesAccepted, FirstUndescribed, DescribesTables, TablesLoadAlike, PlanOfDescribed, SortedBy, TableOrder;
    var ds: seq<Described> :| DescribesTables(s, ds) && PlanOfDescribed(ds, r);
    DescribedPlansAlike(s, t, ds, r);
  }

  /** Schemas of tables alike, that load alike, have one plan or one refusal. */
  lemma PlansAlike(schema: seq<Table>, other: seq<Table>, r: PlanResult)
    requires Paired(Alike, SortBy(TableOrder, schema), SortBy(TableOrder, other)) && TablesLoadAlike(SortBy(TableOrder, schema), SortBy(TableOrder, other))
    requires PlanSpec(schema, r)
    ensures PlanSpec(other, r)
  {
    SortedTablesOrdered(schema);
    SpecIsSorted(schema, r);
    SpecIsSorted(other, r);
    hide *;
    SortedPlansAlike(SortBy(TableOrder, schema), SortBy(TableOrder, other), r);
  }

  lemma FirstOfOther(s: seq<Table>, t: seq<Table>, r: PlanResult)
    requires |s| == |t| && forall i :: 0 <= i < |s| ==> s[i].name == t[i].name
    requires forall i: nat :: FirstUndescribed(s, i) <==> FirstUndescribed(t, i)
    requires exists i: nat :: FirstUndescribed(s, i) && r == Unsupported(Some(s[i].name))
    ensures exists i: nat :: FirstUndescribed(t, i) && r == Unsupported(Some(t[i].name))
  {
    var i: nat :| FirstUndescribed(s, i) && r == Unsupported(Some(s[i].name));
    assert FirstUndescribed(t, i);
  }

  /** Where no table is the first that cannot be described, all are. */
  lemma DescribeAll(t: seq<Table>) returns (es: seq<Described>)
    requires !exists i: nat :: FirstUndescribed(t, i)
    ensures DescribesTables(t, es)
  {
    var n := |t|;
    AllDescribable(t, n);
    es := seq(|t|, i requires 0 <= i < |t| => Describe(t[i], ByName(t)));
  }

  lemma {:induction false} AllDescribable(t: seq<Table>, n: nat)
    requires !(exists i: nat :: FirstUndescribed(t, i)) && n <= |t|
    ensures forall i :: 0 <= i < n ==> Describable(t[i], ByName(t))
  {
    hide Describable;
    if n > 0 {
      var last: nat := n - 1;
      AllDescribable(t, last);
      assert !FirstUndescribed(t, last);
    }
  }
}
