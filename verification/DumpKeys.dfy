/**
 * What the planner leaves unasked of a foreign key: whether the columns it names are a key of its parent, and whether its
 * own columns are stored.
 */
module DumpKeys {
  import opened Wrappers
  import opened Seqs
  import opened Sorting
  import opened Graphs
  import opened DumpSchema
  import opened DumpPlan
  import opened DumpOrder
  import opened Database
  import opened DumpStages

  // ----- the columns a key names

  lemma PrimaryKeyColumn(table: Table, name: string)
    requires name in PrimaryKeyColumns(table)
    ensures InPrimaryKey(table, name)
  {
    var keys := Filter((c: Column) => c.primaryKey > 0, table.columns);
    var ordered := SortBy(KeyOrder, keys);
    SameElements(ordered, keys);
    var k :| 0 <= k < |ordered| && ordered[k].name == name;
    FilterHolds((c: Column) => c.primaryKey > 0, table.columns, ordered[k]);
    assert ordered[k] in keys;
    var i :| 0 <= i < |table.columns| && table.columns[i] == ordered[k];
  }

  /** A key resolved without named columns is one over its parent's primary key. */
  lemma UnnamedKeyBacked(key: ForeignKey, tables: map<string, Table>)
    requires ResolveKey(key, tables).Some? && key.references == None
    ensures Backed(tables[AsciiLower(key.parent)], ResolveKey(key, tables).value)
  {
    var parent := tables[AsciiLower(key.parent)];
    forall k | 0 <= k < |PrimaryKeyColumns(parent)| ensures InPrimaryKey(parent, PrimaryKeyColumns(parent)[k]) {
      PrimaryKeyColumn(parent, PrimaryKeyColumns(parent)[k]);
    }
  }

  /** In every schema the planner describes, the keys without named columns are backed. */
  lemma KeysAreImplied(schema: seq<Table>, ds: seq<Described>)
    requires NamesAccepted(SortBy(TableOrder, schema)) && DescribesTables(SortBy(TableOrder, schema), ds)
    ensures ImpliedBacked(ds)
  {
    var tables := SortBy(TableOrder, schema);
    DescribedTables(schema, ds);
    ByNameHolds(tables);
    forall d, j | d in ds && 0 <= j < |d.parents| && !NamedKey(d, j) ensures KeyBacked(ds, d, j) {
      var i :| 0 <= i < |ds| && ds[i] == d;
      var key := tables[i].foreignKeys[j];
      UnnamedKeyBacked(key, ByName(tables));
      var parent := ByName(tables)[AsciiLower(key.parent)];
      var k :| 0 <= k < |tables| && tables[k] == parent;
      TableNamedIs(ds, ds[k]);
    }
  }

  ghost predicate AllBacked(ds: seq<Described>) {
    forall d, j :: d in ds && 0 <= j < |d.parents| ==> KeyBacked(ds, d, j)
  }

  ghost predicate NamedBacked(ds: seq<Described>) {
    forall d, j :: d in ds && 0 <= j < |d.parents| && NamedKey(d, j) ==> KeyBacked(ds, d, j)
  }

  /** A planned schema has a parent key behind every foreign key exactly when it has one behind those that name columns. */
  lemma BackedIffNamed(schema: seq<Table>, plans: seq<TablePlan>) returns (ds: seq<Described>)
    requires PlanSpec(schema, Plan(plans))
    ensures DescribesTables(SortBy(TableOrder, schema), ds)
    ensures AllBacked(ds) <==> NamedBacked(ds)
  {
    ds :| DescribesTables(SortBy(TableOrder, schema), ds) && PlanOfDescribed(ds, Plan(plans));
    hide *;
    PlannedNames(schema, plans);
    KeysAreImplied(schema, ds);
    BackedByParts(ds);
  }

  lemma PlannedNames(schema: seq<Table>, plans: seq<TablePlan>)
    requires PlanSpec(schema, Plan(plans))
    ensures NamesAccepted(SortBy(TableOrder, schema))
  {
  }

  lemma BackedByParts(ds: seq<Described>)
    requires ImpliedBacked(ds)
    ensures AllBacked(ds) <==> NamedBacked(ds)
  {
    hide KeyBacked;
  }

  // ----- schemas of one table with a key into itself

  /** The plan of a lone table that can hold its temporary `NULL`s. */
  lemma LoneTable(t: Table, d: Described, r: PlanResult)
    requires IsTableName(t.name) && Describable(t, map[t.name := t]) && d == Describe(t, map[t.name := t])
    requires Loads([d], d) && PlanSpec([t], r)
    ensures r == Plan([TablePlanOf(ParentGraph([d]), d)])
  {
    hide Describe, Describable, Loads, TablePlanOf, IsTableName;
    assert SortBy(TableOrder, [t]) == [t] by {
      assert [t][1..] == [];
    }
    assert [t][..0] == [] && ByName([t]) == map[t.name := t];
    assert !exists i: nat :: FirstUndescribed([t], i);
    var ds: seq<Described> :| DescribesTables([t], ds) && PlanOfDescribed(ds, r);
    assert ds == [d];
    DescribedTables([t], ds);
    var order: seq<Described> :| IsLoadOrder(ds, order) && PlanInOrder(ds, order, r);
    LoadOrderIsSafe(ds, order);
    assert order[0] in ds;
    assert order == [d];
  }

  lemma LoneTableLoads(t: Table, d: Described, key: ResolvedKey, column: Column, other: seq<Column>)
    requires d.table == t && d.parents == [key] && key.parent == t.name && t.columns == other + [column]
    requires key.columns == [column.name] && forall c :: c in other ==> AsciiLower(c.name) != AsciiLower(column.name)
    ensures DeferredColumns(ParentGraph([d]), d) == [column]
    ensures Referenced([d]) == set k | 0 <= k < |key.references| :: ColumnKey(t.name, AsciiLower(key.references[k]))
  {
    var g := ParentGraph([d]);
    assert d.table.name in Names([d]) by {
      assert [d][0].table.name == d.table.name;
    }
    assert ParentNames(d) == [t.name];
    EdgeReaches(g, t.name, t.name);
    forall c ensures IsDeferred(g, d, c) <==> AsciiLower(c.name) == AsciiLower(column.name) {
      if AsciiLower(c.name) == AsciiLower(column.name) {
        assert AsciiLower(key.columns[0]) == AsciiLower(c.name);
        assert NamesColumn(d.parents[0], c);
      }
    }
    FilterSplits(c => IsDeferred(g, d, c), other, [column]);
    NoneKept(c => IsDeferred(g, d, c), other);
    forall x ensures x in Referenced([d]) <==> x in set k | 0 <= k < |key.references| :: ColumnKey(t.name, AsciiLower(key.references[k])) {
      if x in Referenced([d]) {
        var i, j, k :| 0 <= i < 1 && 0 <= j < |[d][i].parents| && 0 <= k < |[d][i].parents[j].references|
          && x == ColumnKey([d][i].parents[j].parent, AsciiLower([d][i].parents[j].references[k]));
      }
      if k :| 0 <= k < |key.references| && x == ColumnKey(t.name, AsciiLower(key.references[k])) {
        assert [d][0].parents[0].references[k] == key.references[k];
      }
    }
  }

  lemma {:induction false} NoneKept<T>(keep: T -> bool, s: seq<T>)
    requires forall x :: x in s ==> !keep(x)
    ensures Filter(keep, s) == []
  {
    if s != [] {
      NoneKept(keep, s[1..]);
    }
  }

  function SelfKey(name: string): Table {
    Table("a", false, false, Some([]), [Column("x", "text", false, 0, false)], [], [ForeignKey("a", ["x"], Some([name]), false)])
  }

  /** Whatever column of its parent a key names, one that the parent lacks included, the schema gets a plan. */
  lemma NamedKeyUnchecked(name: string, r: PlanResult)
    requires AsciiLower(name) != "x" && PlanSpec([SelfKey(name)], r)
    ensures r.Plan?
    ensures !Backed(SelfKey(name), ResolvedKey("a", ["x"], [name]))
  {
    var t := SelfKey(name);
    var key := ResolvedKey("a", ["x"], [name]);
    LowerLetters();
    NamedKeyDescribed(name);
    LoneTableLoads(t, Described(t, "rowid", [key]), key, t.columns[0], []);
    assert !Backed(t, key) by {
      assert key.references[0] == name && !InPrimaryKey(t, name);
    }
    hide Describe, Describable, DeferredColumns, Referenced;
    LoneTable(t, Described(t, "rowid", [key]), r);
  }

  lemma NamedKeyDescribed(name: string)
    ensures var t := SelfKey(name);
            Describable(t, map["a" := t]) && Describe(t, map["a" := t]) == Described(t, "rowid", [ResolvedKey("a", ["x"], [name])])
  {
    var t := SelfKey(name);
    LowerLetters();
    RowidFree(t, "x");
    hide Keyset;
    assert ResolveKey(t.foreignKeys[0], map["a" := t]) == Some(ResolvedKey("a", ["x"], [name]));
  }

  lemma LowerLetters()
    ensures AsciiLower("a") == "a" && AsciiLower("x") == "x" && AsciiLower("id") == "id" && AsciiLower("integer") == "integer"
  {
  }

  /** A table whose one column is no rowid name is read by `rowid`. */
  lemma RowidFree(t: Table, name: string)
    requires |t.columns| == 1 && t.columns[0].primaryKey == 0 && t.columns[0].name == name == AsciiLower(name)
    requires name == "x" && !t.virtual && !t.withoutRowid
    ensures Keyset(t) == Some("rowid")
  {
    assert Filter((c: Column) => c.primaryKey > 0, t.columns) == [] by {
      NoneKept((c: Column) => c.primaryKey > 0, t.columns);
    }
    assert LowerNames(t.columns) == {t.columns[0].name};
    assert ROWID_NAMES[0] == "rowid" && |"rowid"| != |"x"|;
  }

  const GENERATED_KEY: Table :=
    Table("a", false, false, Some([]), [Column("id", "integer", false, 1, false), Column("x", "integer", false, 0, true)], [],
          [ForeignKey("a", ["x"], Some(["id"]), false)])

  /** A generated column of a key into its own table gets a plan that defers it, though no statement can set it. */
  lemma GeneratedKeyDeferred(r: PlanResult)
    requires PlanSpec([GENERATED_KEY], r)
    ensures r == Plan([TablePlan("a", "id", ["id"], ["x"])])
  {
    var t := GENERATED_KEY;
    var key := ResolvedKey("a", ["x"], ["id"]);
    var d := Described(t, "id", [key]);
    LowerLetters();
    GeneratedKeyColumns();
    GeneratedKeyDescribed();
    GeneratedKeyLoads();
    LoneTableLoads(t, d, key, t.columns[1], [t.columns[0]]);
    hide Describe, Describable, Loads, Filter, DeferredColumns;
    LoneTable(t, d, r);
  }

  lemma GeneratedKeyColumns()
    ensures Filter((c: Column) => c.primaryKey > 0, GENERATED_KEY.columns) == [GENERATED_KEY.columns[0]]
    ensures StoredColumns(GENERATED_KEY) == ["id"]
    ensures ColumnNames([GENERATED_KEY.columns[1]]) == ["x"]
  {
    var columns := GENERATED_KEY.columns;
    var isStored := (c: Column) => !c.generated;
    assert columns[1..] == [columns[1]] && [columns[1]][1..] == [];
    assert Filter(isStored, columns) == [columns[0]];
  }

  lemma GeneratedKeyDescribed()
    ensures var t := GENERATED_KEY;
            Describable(t, map["a" := t]) && Describe(t, map["a" := t]) == Described(t, "id", [ResolvedKey("a", ["x"], ["id"])])
  {
    var t := GENERATED_KEY;
    LowerLetters();
    GeneratedKeyColumns();
    hide Filter;
    assert ResolveKey(t.foreignKeys[0], map["a" := t]) == Some(ResolvedKey("a", ["x"], ["id"]));
    assert Keyset(t) == Some("id");
  }

  lemma GeneratedKeyLoads()
    ensures var t := GENERATED_KEY;
            var d := Described(t, "id", [ResolvedKey("a", ["x"], ["id"])]);
            Loads([d], d)
  {
    var t := GENERATED_KEY;
    var d := Described(t, "id", [ResolvedKey("a", ["x"], ["id"])]);
    LowerLetters();
    assert |"id"| != |"x"|;
    LoneTableLoads(t, d, d.parents[0], t.columns[1], [t.columns[0]]);
    hide DeferredColumns, Referenced;
  }

  /** A plan defers only columns its rows carry exactly when no key into the table's own cycle names a generated one. */
  lemma DeferredStoredIff(g: Graph, d: Described)
    requires ColumnsDiffer(d.table)
    ensures (forall name :: name in TablePlanOf(g, d).deferred ==> name in TablePlanOf(g, d).columns)
       <==> forall i :: 0 <= i < |d.table.columns| && IsDeferred(g, d, d.table.columns[i]) ==> !d.table.columns[i].generated
  {
    var deferred, stored := DeferredColumns(g, d), Filter((c: Column) => !c.generated, d.table.columns);
    var plan := TablePlanOf(g, d);
    forall c ensures c in deferred <==> c in d.table.columns && IsDeferred(g, d, c) {
      FilterHolds(x => IsDeferred(g, d, x), d.table.columns, c);
    }
    forall c ensures c in stored <==> c in d.table.columns && !c.generated {
      FilterHolds((x: Column) => !x.generated, d.table.columns, c);
    }
    hide IsDeferred, DeferredColumns, StoredColumns;
    DeferredNamesStored(d.table, deferred, stored);
  }

  lemma DeferredNamesStored(table: Table, deferred: seq<Column>, stored: seq<Column>)
    requires ColumnsDiffer(table) && forall c :: c in deferred || c in stored ==> c in table.columns
    ensures (forall name :: name in ColumnNames(deferred) ==> name in ColumnNames(stored)) <==> forall c :: c in deferred ==> c in stored
  {
    if forall name :: name in ColumnNames(deferred) ==> name in ColumnNames(stored) {
      forall c | c in deferred ensures c in stored {
        var i :| 0 <= i < |deferred| && deferred[i] == c;
        assert ColumnNames(deferred)[i] == c.name;
        assert c.name in ColumnNames(stored);
        var k :| 0 <= k < |ColumnNames(stored)| && ColumnNames(stored)[k] == c.name;
        var m :| 0 <= m < |table.columns| && table.columns[m] == c;
        assert stored[k] in table.columns;
        var n :| 0 <= n < |table.columns| && table.columns[n] == stored[k];
        assert m == n;
      }
    }
    if forall c :: c in deferred ==> c in stored {
      forall name | name in ColumnNames(deferred) ensures name in ColumnNames(stored) {
        var i :| 0 <= i < |deferred| && deferred[i].name == name;
        assert deferred[i] in stored;
        var k :| 0 <= k < |stored| && stored[k] == deferred[i];
        assert ColumnNames(stored)[k] == name;
      }
    }
  }
}
