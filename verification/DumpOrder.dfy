/** What `planOpsDump` promises of its load order and of the schemas it accepts. */
module DumpOrder {
  import opened Wrappers
  import opened Seqs
  import opened Sorting
  import opened Graphs
  import opened DumpSchema
  import opened DumpPlan

  lemma InNames(ds: seq<Described>, i: nat)
    requires i < |ds|
    ensures ds[i].table.name in Names(ds)
  {
  }

  /** No table is placed twice. */
  lemma PlacedOnce(ds: seq<Described>, order: seq<Described>, i: nat, j: nat)
    requires IsLoadOrder(ds, order) && i < j < |order|
    ensures order[i].table.name != order[j].table.name
  {
    assert PlacedNext(ds, ParentGraph(ds), Names(order[..j]), order[j]);
    InNames(order[..j], i);
  }

  lemma OrderHasNames(ds: seq<Described>, order: seq<Described>)
    requires Describes(ds) && IsLoadOrder(ds, order)
    ensures Names(order) == Names(ds)
  {
    forall k | 0 <= k < |order| ensures order[k].table.name in Names(ds) {
      assert PlacedNext(ds, ParentGraph(ds), Names(order[..k]), order[k]);
      TableNamedIs(ds, order[k]);
    }
    assert Names(order) <= Names(ds);
    OrderedNames(ds);
    PlacedNames(ds, order, |order|);
    assert order[..|order|] == order;
    SameSize(Names(order), Names(ds));
  }

  lemma {:induction false} PlacedNames(ds: seq<Described>, order: seq<Described>, n: nat)
    requires IsLoadOrder(ds, order) && n <= |order|
    ensures |Names(order[..n])| == n
  {
    if n == 0 {
      assert Names(order[..0]) == {};
    } else {
      PlacedNames(ds, order, n - 1);
      NamesGrow(order, n - 1);
      assert order[n - 1].table.name !in Names(order[..n - 1]) by {
        assert PlacedNext(ds, ParentGraph(ds), Names(order[..n - 1]), order[n - 1]);
      }
    }
  }

  lemma {:induction false} SameSize<T>(a: set<T>, b: set<T>)
    requires a <= b && |a| == |b|
    ensures a == b
  {
    if a != b {
      var x :| x in b && x !in a;
      SubsetSize(a, b - {x});
      assert false;
    }
  }

  /** A load order holds every table exactly once, and before it all its parents but those it shares a cycle with. */
  lemma LoadOrderIsSafe(ds: seq<Described>, order: seq<Described>)
    requires Describes(ds) && IsLoadOrder(ds, order)
    ensures |order| == |ds|
    ensures forall d :: d in order <==> d in ds
    ensures forall i, j :: 0 <= i < j < |order| ==> order[i].table.name != order[j].table.name
    ensures forall k, j :: 0 <= k < |order| && 0 <= j < |order[k].parents| ==>
              SameCycle(ParentGraph(ds), order[k].parents[j].parent, order[k].table.name) || order[k].parents[j].parent in Names(order[..k])
  {
    forall k | 0 <= k < |order| ensures order[k] in ds && Eligible(ParentGraph(ds), Names(order[..k]), order[k]) {
      assert PlacedNext(ds, ParentGraph(ds), Names(order[..k]), order[k]);
    }
    forall i, j | 0 <= i < j < |order| ensures order[i].table.name != order[j].table.name {
      PlacedOnce(ds, order, i, j);
    }
    forall d | d in ds ensures d in order {
      OrderHasNames(ds, order);
      TableNamedIs(ds, d);
      var k :| 0 <= k < |order| && order[k].table.name == d.table.name;
      TableNamedIs(ds, order[k]);
    }
  }

  lemma NextIsUnique(ds: seq<Described>, g: Graph, placed: set<string>, a: Described, b: Described)
    requires Ordered(ds) && PlacedNext(ds, g, placed, a) && PlacedNext(ds, g, placed, b)
    ensures a == b
  {
    AtMostAntisymmetric(a.table.name, b.table.name);
    TableNamedIs(ds, a);
    TableNamedIs(ds, b);
  }

  /** The load order is determined: every step places the first table by name that can be placed. */
  lemma {:induction false} LoadOrderUnique(ds: seq<Described>, order: seq<Described>, other: seq<Described>, n: nat)
    requires Ordered(ds) && IsLoadOrder(ds, order) && IsLoadOrder(ds, other) && n <= |ds|
    ensures order[..n] == other[..n]
  {
    if n > 0 {
      LoadOrderUnique(ds, order, other, n - 1);
      NextIsUnique(ds, ParentGraph(ds), Names(order[..n - 1]), order[n - 1], other[n - 1]);
    }
  }

  lemma PlanInOrderUnique(ds: seq<Described>, order: seq<Described>, r: PlanResult, q: PlanResult)
    requires PlanInOrder(ds, order, r) && PlanInOrder(ds, order, q)
    ensures r == q
  {
    if r.Plan? && q.Plan? {
      assert r.tables == q.tables;
    } else if r.Unsupported? && q.Unsupported? {
      var k: nat :| FirstRefused(ds, order, k) && r.table == Some(order[k].table.name);
      var m: nat :| FirstRefused(ds, order, m) && q.table == Some(order[m].table.name);
    }
  }

  lemma PlanOfDescribedUnique(ds: seq<Described>, r: PlanResult, q: PlanResult)
    requires Describes(ds) && PlanOfDescribed(ds, r) && PlanOfDescribed(ds, q)
    ensures r == q
  {
    var order: seq<Described> :| IsLoadOrder(ds, order) && PlanInOrder(ds, order, r);
    var other: seq<Described> :| IsLoadOrder(ds, other) && PlanInOrder(ds, other, q);
    LoadOrderUnique(ds, order, other, |ds|);
    assert order[..|ds|] == order && other[..|ds|] == other;
    PlanInOrderUnique(ds, order, r, q);
  }

  /** The producer and the importer plan alike: the schema determines the plan or the refusal. */
  lemma PlanIsDetermined(schema: seq<Table>, r: PlanResult, q: PlanResult)
    requires PlanSpec(schema, r) && PlanSpec(schema, q)
    ensures r == q
  {
    var tables := SortBy(TableOrder, schema);
    if NamesAccepted(tables) {
      if exists i: nat :: FirstUndescribed(tables, i) {
        var i: nat :| FirstUndescribed(tables, i) && r == Unsupported(Some(tables[i].name));
        var j: nat :| FirstUndescribed(tables, j) && q == Unsupported(Some(tables[j].name));
      } else {
        var ds: seq<Described> :| DescribesTables(tables, ds) && PlanOfDescribed(ds, r);
        var es: seq<Described> :| DescribesTables(tables, es) && PlanOfDescribed(es, q);
        assert ds == es;
        DescribedTables(schema, ds);
        PlanOfDescribedUnique(ds, r, q);
      }
    }
  }

  lemma NamesAcceptedSorted(schema: seq<Table>)
    ensures NamesAccepted(SortBy(TableOrder, schema)) <==> NamesAccepted(schema)
  {
    var tables := SortBy(TableOrder, schema);
    if NamesAccepted(schema) {
      NamesAcceptedElements(schema, tables);
    } else if NamesAccepted(tables) {
      NamesAcceptedElements(tables, schema);
    }
  }

  lemma NamesAcceptedElements(s: seq<Table>, t: seq<Table>)
    requires multiset(s) == multiset(t) && NamesAccepted(s)
    ensures NamesAccepted(t)
  {
    SameElements(s, t);
    DistinctMultiset(s, t);
    forall i, j | 0 <= i < j < |t| ensures t[i].name != t[j].name {
      assert t[i] in s && t[j] in s;
    }
    forall i | 0 <= i < |t| ensures IsTableName(t[i].name) {
      assert t[i] in s;
    }
  }

  /** The order a PRAGMA lists the tables in does not matter. */
  lemma PlanForgetsOrder(schema: seq<Table>, other: seq<Table>, r: PlanResult)
    requires multiset(schema) == multiset(other) && PlanSpec(schema, r)
    ensures PlanSpec(other, r)
  {
    NamesAcceptedSorted(schema);
    NamesAcceptedSorted(other);
    if NamesAccepted(schema) {
      NamesAcceptedElements(schema, other);
      SortedTablesOrdered(schema);
      SortedTablesOrdered(other);
      var s, t := SortBy(TableOrder, schema), SortBy(TableOrder, other);
      forall x, y | x in s && y in s && TableOrder(x, y) && TableOrder(y, x) ensures x == y {
        AtMostAntisymmetric(x.name, y.name);
      }
      TableOrderTotal();
      SortedIsUnique(TableOrder, s, t);
    } else if NamesAccepted(other) {
      NamesAcceptedElements(other, schema);
    }
  }

  lemma TableOrderTotal()
    ensures TotalPreorder(TableOrder)
  {
    forall x: Table, y: Table ensures TableOrder(x, y) || TableOrder(y, x) {
      AtMostTotal(x.name, y.name);
    }
    forall x: Table, y: Table, z: Table | TableOrder(x, y) && TableOrder(y, z) ensures TableOrder(x, z) {
      AtMostTransitive(x.name, y.name, z.name);
    }
  }

  /** The schemas a dump supports, table by table. */
  ghost predicate Supported(schema: seq<Table>) {
    var tables := SortBy(TableOrder, schema);
    && NamesAccepted(schema)
    && exists ds :: DescribesTables(tables, ds) && forall d: Described :: d in ds ==> Loads(ds, d)
  }

  /** A schema gets a plan exactly when every table of it can be described and can hold its temporary `NULL`s. */
  lemma PlannedIffSupported(schema: seq<Table>, r: PlanResult)
    requires PlanSpec(schema, r)
    ensures r.Plan? <==> Supported(schema)
  {
    var tables := SortBy(TableOrder, schema);
    NamesAcceptedSorted(schema);
    if NamesAccepted(tables) {
      if exists i: nat :: FirstUndescribed(tables, i) {
        var i: nat :| FirstUndescribed(tables, i);
        assert !exists ds: seq<Described> :: DescribesTables(tables, ds);
      } else {
        var ds: seq<Described> :| DescribesTables(tables, ds) && PlanOfDescribed(ds, r);
        assert forall es: seq<Described> :: DescribesTables(tables, es) ==> es == ds;
        DescribedTables(schema, ds);
        var order: seq<Described> :| IsLoadOrder(ds, order) && PlanInOrder(ds, order, r);
        LoadOrderIsSafe(ds, order);
        if r.Plan? {
          assert forall d: Described :: d in ds ==> Loads(ds, d);
        } else {
          var k: nat :| FirstRefused(ds, order, k) && r.table == Some(order[k].table.name);
          assert order[k] in ds;
        }
      }
    }
  }
}
