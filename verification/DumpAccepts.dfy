/**
 * Which schemas `planOpsDump` accepts, said of the schema alone: what a temporary `NULL` may meet in a table of a cycle, and
 * what of a table makes no difference to its plan.
 */
module DumpAccepts {
  import opened Wrappers
  import opened Seqs
  import opened Sorting
  import opened Graphs
  import opened DumpSchema
  import opened DumpPlan
  import opened DumpOrder
  import opened Database
  import opened DumpKeys
  import opened DumpAlike

  // ----- how a table is described

  ghost predicate OneKeyColumn(columns: seq<Column>) {
    forall i, j :: 0 <= i < |columns| && 0 <= j < |columns| && columns[i].primaryKey > 0 && columns[j].primaryKey > 0 ==> i == j
  }

  /** The only column of the primary key, declared INTEGER, with no index for the key: the rowid under a name of its own. */
  ghost predicate IsAlias(table: Table, c: Column) {
    && c in table.columns && c.primaryKey > 0
    && OneKeyColumn(table.columns)
    && AsciiLower(c.declaredType) == "integer"
    && forall x :: x in table.indexes ==> x.origin != PrimaryKeyClause
  }

  lemma TwoKept<T>(keep: T -> bool, s: seq<T>, i: nat, j: nat)
    requires i < j < |s| && keep(s[i]) && keep(s[j])
    ensures |Filter(keep, s)| >= 2
  {
    assert s == s[..j] + s[j..];
    FilterSplits(keep, s[..j], s[j..]);
    assert s[i] in s[..j] && s[j] in s[j..];
    FilterHolds(keep, s[..j], s[i]);
    FilterHolds(keep, s[j..], s[j]);
  }

  lemma {:induction false} OneKept<T>(keep: T -> bool, s: seq<T>, x: T)
    requires x in s && keep(x)
    ensures Filter(keep, s) == [x] <==> forall i, j :: 0 <= i < |s| && 0 <= j < |s| && keep(s[i]) && keep(s[j]) ==> i == j
  {
    var k :| 0 <= k < |s| && s[k] == x;
    assert s == s[..k] + [x] + s[k + 1..];
    FilterSplits(keep, s[..k] + [x], s[k + 1..]);
    FilterSplits(keep, s[..k], [x]);
    if Filter(keep, s) == [x] {
      forall i | 0 <= i < |s| && keep(s[i]) ensures i == k {
        if i < k {
          TwoKept(keep, s, i, k);
        } else if k < i {
          TwoKept(keep, s, k, i);
        }
      }
    }
    if forall i, j :: 0 <= i < |s| && 0 <= j < |s| && keep(s[i]) && keep(s[j]) ==> i == j {
      NoneKept(keep, s[..k]);
      NoneKept(keep, s[k + 1..]);
    }
  }

  lemma AliasIff(table: Table, c: Column)
    ensures c in table.columns && IsRowidAlias(table, c) <==> IsAlias(table, c)
  {
    var isKey := (x: Column) => x.primaryKey > 0;
    if c in table.columns {
      FilterHolds(isKey, table.columns, c);
      if isKey(c) {
        OneKept(isKey, table.columns, c);
      }
    }
    hide Filter;
    forall i | 0 <= i < |table.indexes| ensures table.indexes[i] in table.indexes {
    }
  }

  lemma {:induction false} FirstFreeIff(names: seq<string>, taken: set<string>, name: string)
    ensures FirstFree(names, taken) == None <==> forall x :: x in names ==> x in taken
  {
    if names != [] {
      FirstFreeIff(names[1..], taken, name);
      assert names == [names[0]] + names[1..];
    }
  }

  /** The name a table is read by: the column that aliases its rowid, or else a built-in name no column has. */
  lemma KeysetNamesTheRowid(table: Table)
    ensures Keyset(table) == None <==>
              || table.virtual || table.withoutRowid
              || ((forall c :: !IsAlias(table, c)) && forall name :: name in ROWID_NAMES ==> name in LowerNames(table.columns))
    ensures Keyset(table).Some? ==>
              || (exists c :: IsAlias(table, c) && Keyset(table).value == c.name)
              || ((forall c :: !IsAlias(table, c)) && Keyset(table).value in ROWID_NAMES && Keyset(table).value !in LowerNames(table.columns))
  {
    var keys := Filter((x: Column) => x.primaryKey > 0, table.columns);
    forall c ensures c in table.columns && IsRowidAlias(table, c) <==> IsAlias(table, c) {
      AliasIff(table, c);
    }
    forall c | IsRowidAlias(table, c) ensures keys == [c] && c in table.columns {
      assert c in keys;
      FilterHolds((x: Column) => x.primaryKey > 0, table.columns, c);
    }
    FirstFreeIff(ROWID_NAMES, LowerNames(table.columns), "");
    hide IsAlias, Filter, FirstFree, LowerNames;
    if |keys| == 1 && IsRowidAlias(table, keys[0]) {
      assert IsAlias(table, keys[0]);
    }
  }

  /** A table's keys resolve exactly when each has a known parent, is checked at once and has as many columns as it means. */
  lemma ResolvableIff(table: Table, tables: map<string, Table>)
    ensures Resolvable(table, tables) <==> forall key :: key in table.foreignKeys ==> HasMeaning(key, tables)
  {
    forall key ensures ResolveKey(key, tables).Some? <==> HasMeaning(key, tables) {
    }
    hide ResolveKey, HasMeaning;
    if forall key :: key in table.foreignKeys ==> HasMeaning(key, tables) {
      forall i | 0 <= i < |table.foreignKeys| ensures ResolveKey(table.foreignKeys[i], tables).Some? {
        assert table.foreignKeys[i] in table.foreignKeys;
      }
    }
  }

  /** The key names columns of its parent, or means those of its primary key. */
  ghost predicate HasMeaning(key: ForeignKey, tables: map<string, Table>) {
    && AsciiLower(key.parent) in tables && !key.initiallyDeferred && key.columns != []
    && match key.references
       case Some(names) => |names| == |key.columns|
       case None => |Filter((c: Column) => c.primaryKey > 0, tables[AsciiLower(key.parent)].columns)| == |key.columns|
  }

  // ----- which columns are deferred

  /** A deferred column is one that a key uses whose parent is the table itself or leads back to it. */
  lemma DeferredIff(ds: seq<Described>, d: Described, column: Column)
    requires Describes(ds) && d in ds
    ensures column in DeferredColumns(ParentGraph(ds), d) <==>
              && column in d.table.columns
              && exists j :: 0 <= j < |d.parents| && NamesColumn(d.parents[j], column)
                             && (d.parents[j].parent == d.table.name || Reaches(ParentGraph(ds), d.parents[j].parent, d.table.name))
  {
    var g := ParentGraph(ds);
    FilterHolds(c => IsDeferred(g, d, c), d.table.columns, column);
    forall j | 0 <= j < |d.parents|
      ensures SameCycle(g, d.parents[j].parent, d.table.name) <==>
                d.parents[j].parent == d.table.name || Reaches(g, d.parents[j].parent, d.table.name)
    {
      ParentEdge(ds, d, j);
      EdgeReaches(g, d.table.name, d.parents[j].parent);
    }
  }

  // ----- what makes no difference to a plan

  /** Some key of `table` into its own cycle uses the column. */
  ghost predicate Defers(schema: seq<Table>, table: Table, column: Column) {
    exists ds: seq<Described>, d: Described ::
      DescribesTables(SortBy(TableOrder, schema), ds) && d in ds && d.table == table && IsDeferred(ParentGraph(ds), d, column)
  }

  ghost predicate NamesAlike(a: Table, b: Table, column: Column) {
    && a.checkNames.Some? && b.checkNames.Some?
    && (AsciiLower(column.name) in a.checkNames.value <==> AsciiLower(column.name) in b.checkNames.value)
  }

  /** Tables that differ at most in the names their `CHECK`s read, none of them a deferred or a generated column's. */
  ghost predicate SameButChecks(schema: seq<Table>, a: Table, b: Table) {
    a == b || (&& b == a.(checkNames := b.checkNames) && a.checkNames.Some? && b.checkNames.Some?
               && forall c :: c in a.columns && (c.generated || Defers(schema, a, c)) ==> NamesAlike(a, b, c))
  }

  lemma SameDeferred(ds: seq<Described>, es: seq<Described>, i: nat)
    requires AllSame(ds, es) && Ordered(ds) && i < |ds|
    ensures forall c :: IsDeferred(ParentGraph(ds), ds[i], c) <==> IsDeferred(ParentGraph(es), es[i], c)
  {
    SameGraph(ds, es);
    assert SameDescribed(ds[i], es[i]);
    hide ParentGraph;
  }

  lemma SameColumnsDeferred(ds: seq<Described>, es: seq<Described>, i: nat)
    requires AllSame(ds, es) && Ordered(ds) && i < |ds| && ds[i].table.columns == es[i].table.columns
    ensures DeferredColumns(ParentGraph(ds), ds[i]) == DeferredColumns(ParentGraph(es), es[i])
  {
    SameDeferred(ds, es, i);
    FilterAgrees(c => IsDeferred(ParentGraph(ds), ds[i], c), c => IsDeferred(ParentGraph(es), es[i], c), ds[i].table.columns);
  }

  lemma DeferredIn(g: Graph, d: Described, c: Column)
    requires c in DeferredColumns(g, d)
    ensures c in d.table.columns && IsDeferred(g, d, c)
  {
    FilterHolds(x => IsDeferred(g, d, x), d.table.columns, c);
  }

  /** The two tables hold the same temporary `NULL`s. */
  lemma ChecksTakeAlike(a: Table, b: Table, deferred: seq<Column>, referenced: set<ColumnKey>)
    requires b == a.(checkNames := b.checkNames)
    requires forall c :: c in a.columns && c.generated ==> CheckReads(a, c) == CheckReads(b, c)
    requires forall c :: c in deferred ==> CheckReads(a, c) == CheckReads(b, c)
    ensures TakesTemporaryNull(a, deferred, referenced) <==> TakesTemporaryNull(b, deferred, referenced)
  {
    forall i | 0 <= i < |a.columns| && a.columns[i].generated ensures CheckReads(a, a.columns[i]) == CheckReads(b, b.columns[i]) {
      assert a.columns[i] in a.columns;
    }
    forall i | 0 <= i < |deferred| ensures CheckReads(a, deferred[i]) == CheckReads(b, deferred[i]) {
      assert deferred[i] in deferred;
    }
    forall i | 0 <= i < |a.indexes| ensures IndexesGenerated(a, a.indexes[i]) == IndexesGenerated(b, b.indexes[i]) {
    }
    hide CheckReads, IndexesGenerated;
  }

  lemma ChecksReadAlike(schema: seq<Table>, ds: seq<Described>, i: nat, b: Table)
    requires i < |ds| && DescribesTables(SortBy(TableOrder, schema), ds) && SameButChecks(schema, ds[i].table, b)
    ensures forall c :: c in ds[i].table.columns && c.generated ==> CheckReads(ds[i].table, c) == CheckReads(b, c)
    ensures forall c :: c in DeferredColumns(ParentGraph(ds), ds[i]) ==> CheckReads(ds[i].table, c) == CheckReads(b, c)
  {
    hide *;
    var a := ds[i].table;
    forall c | c in DeferredColumns(ParentGraph(ds), ds[i]) ensures CheckReads(a, c) == CheckReads(b, c) {
      DeferredDefers(schema, ds, i, c);
      ReadsAlike(schema, a, b, c);
    }
    forall c | c in a.columns && c.generated ensures CheckReads(a, c) == CheckReads(b, c) {
      ReadsAlike(schema, a, b, c);
    }
  }

  lemma DeferredDefers(schema: seq<Table>, ds: seq<Described>, i: nat, c: Column)
    requires i < |ds| && DescribesTables(SortBy(TableOrder, schema), ds) && c in DeferredColumns(ParentGraph(ds), ds[i])
    ensures c in ds[i].table.columns && Defers(schema, ds[i].table, c)
  {
    DeferredIn(ParentGraph(ds), ds[i], c);
    hide IsDeferred, DeferredColumns, ParentGraph, DescribesTables, SortBy;
    assert ds[i] in ds;
  }

  lemma ReadsAlike(schema: seq<Table>, a: Table, b: Table, c: Column)
    requires SameButChecks(schema, a, b) && c in a.columns && (c.generated || Defers(schema, a, c))
    ensures CheckReads(a, c) == CheckReads(b, c)
  {
    hide Defers, AsciiLower;
    assert a == b || NamesAlike(a, b, c);
  }

  lemma ChecksLoadAlike(schema: seq<Table>, ds: seq<Described>, es: seq<Described>, i: nat)
    requires AllSame(ds, es) && Ordered(ds) && i < |ds| && DescribesTables(SortBy(TableOrder, schema), ds)
    requires SameButChecks(schema, ds[i].table, es[i].table)
    ensures LoadsAlike(ds, ds[i], es, es[i])
  {
    ChecksReadAlike(schema, ds, i, es[i].table);
    assert es[i].table == ds[i].table.(checkNames := es[i].table.checkNames);
    SameColumnsDeferred(ds, es, i);
    SameNames(ds, es);
    hide DeferredColumns, ParentGraph, TakesTemporaryNull, CheckReads, SameButChecks, DescribesTables, Referenced, Ordered, AllSame, SortBy;
    ChecksTakeAlike(ds[i].table, es[i].table, DeferredColumns(ParentGraph(ds), ds[i]), Referenced(ds));
  }

  lemma ChecksAlike(schema: seq<Table>, a: Table, b: Table)
    requires SameButChecks(schema, a, b)
    ensures Alike(a, b)
  {
    hide Filter, SortBy;
    assert forall c :: IsRowidAlias(a, c) == IsRowidAlias(b, c);
  }

  /** What the `CHECK`s read beside the deferred and the generated columns makes no difference to the plan. */
  lemma OtherChecksPlanAlike(schema: seq<Table>, other: seq<Table>, r: PlanResult, q: PlanResult)
    requires |schema| == |other| && forall i :: 0 <= i < |schema| ==> SameButChecks(schema, schema[i], other[i])
    requires PlanSpec(schema, r) && PlanSpec(other, q)
    ensures r == q
  {
    var rel := (a, b) => SameButChecks(schema, a, b);
    var s, t := SortBy(TableOrder, schema), SortBy(TableOrder, other);
    SortPaired(rel, schema, other);
    forall i | 0 <= i < |s| ensures Alike(s[i], t[i]) {
      assert rel(s[i], t[i]);
      ChecksAlike(schema, s[i], t[i]);
    }
    forall ds: seq<Described>, es: seq<Described> | DescribesTables(s, ds) && DescribesTables(t, es) && AllSame(ds, es) && Ordered(ds)
      ensures AllLoadAlike(ds, es)
    {
      forall i | 0 <= i < |ds| ensures LoadsAlike(ds, ds[i], es, es[i]) {
        assert rel(s[i], t[i]) && ds[i].table == s[i] && es[i].table == t[i];
        ChecksLoadAlike(schema, ds, es, i);
      }
    }
    hide SameButChecks, PlanSpec, LoadsAlike, Alike, DescribesTables, AllSame, SortBy, Ordered;
    PlansAlike(schema, other, r);
    PlanIsDetermined(other, r, q);
  }

  // ----- indexes

  /** An index that no `NULL` can make two rows clash in: no unique one, or one over whole rows and stored columns alone. */
  ghost predicate Harmless(table: Table, index: Index) {
    index.unique ==>
      && !index.partial
      && forall k :: 0 <= k < |index.columns| ==> index.columns[k].Some? && AsciiLower(index.columns[k].value) !in GeneratedNames(table)
  }

  /** `b` is `a`, with perhaps one more index that is harmless and not of the primary key. */
  ghost predicate SameButIndex(a: Table, b: Table) {
    a == b || exists k, index :: 0 <= k <= |a.indexes| && AddsIndex(a, b, k, index)
  }

  ghost predicate AddsIndex(a: Table, b: Table, k: int, index: Index)
    requires 0 <= k <= |a.indexes|
  {
    && b == a.(indexes := a.indexes[..k] + [index] + a.indexes[k..])
    && index.origin != PrimaryKeyClause && Harmless(a, index)
  }

  lemma SameIndexes(a: Table, b: Table, k: nat, index: Index)
    requires k <= |a.indexes| && AddsIndex(a, b, k, index)
    ensures forall x :: x in b.indexes <==> x in a.indexes || x == index
  {
    forall x | x in a.indexes || x == index ensures x in b.indexes {
      if x == index {
        assert b.indexes[k] == index;
      } else {
        var i :| 0 <= i < |a.indexes| && a.indexes[i] == x;
        assert b.indexes[if i < k then i else i + 1] == x;
      }
    }
  }

  lemma IndexAlike(a: Table, b: Table)
    requires SameButIndex(a, b)
    ensures Alike(a, b)
  {
    if a != b {
      var k, index :| 0 <= k <= |a.indexes| && AddsIndex(a, b, k, index);
      SameIndexes(a, b, k, index);
      forall c ensures IsRowidAlias(a, c) == IsRowidAlias(b, c) {
        PrimaryIndexAlike(a, b, index);
      }
      hide Filter, SortBy, IsRowidAlias;
    }
  }

  lemma PrimaryIndexAlike(a: Table, b: Table, index: Index)
    requires (forall x :: x in b.indexes <==> x in a.indexes || x == index) && index.origin != PrimaryKeyClause
    ensures (exists i :: 0 <= i < |a.indexes| && a.indexes[i].origin == PrimaryKeyClause) <==>
              (exists i :: 0 <= i < |b.indexes| && b.indexes[i].origin == PrimaryKeyClause)
  {
    if i :| 0 <= i < |a.indexes| && a.indexes[i].origin == PrimaryKeyClause {
      assert a.indexes[i] in b.indexes;
      var j :| 0 <= j < |b.indexes| && b.indexes[j] == a.indexes[i];
    }
    if i :| 0 <= i < |b.indexes| && b.indexes[i].origin == PrimaryKeyClause {
      assert b.indexes[i] in a.indexes;
      var j :| 0 <= j < |a.indexes| && a.indexes[j] == b.indexes[i];
    }
  }

  /** What `takesTemporaryNull` asks of one index. */
  predicate TakesIndex(table: Table, index: Index) {
    index.unique ==> !index.partial && None !in index.columns && !IndexesGenerated(table, index)
  }

  lemma HarmlessIsTaken(table: Table, index: Index)
    requires Harmless(table, index)
    ensures TakesIndex(table, index)
  {
  }

  lemma IndexTakesAlike(a: Table, b: Table, deferred: seq<Column>, referenced: set<ColumnKey>)
    requires SameButIndex(a, b)
    ensures TakesTemporaryNull(a, deferred, referenced) <==> TakesTemporaryNull(b, deferred, referenced)
  {
    if a != b {
      var k, index :| 0 <= k <= |a.indexes| && AddsIndex(a, b, k, index);
      SameIndexes(a, b, k, index);
      HarmlessIsTaken(a, index);
      forall x ensures TakesIndex(a, x) == TakesIndex(b, x) {
      }
      IndexesTaken(a, deferred, referenced);
      IndexesTaken(b, deferred, referenced);
      RestTaken(a, b, deferred);
      hide TakesTemporaryNull, TakesIndex, RestTakes;
    }
  }

  /** `takesTemporaryNull` but for the indexes. */
  predicate RestTakes(table: Table, deferred: seq<Column>, referenced: set<ColumnKey>) {
    && (forall i :: 0 <= i < |table.columns| && table.columns[i].generated ==>
          !table.columns[i].notNull && !CheckReads(table, table.columns[i]))
    && (forall i :: 0 <= i < |deferred| ==>
          && !deferred[i].notNull && deferred[i].primaryKey == 0
          && ColumnKey(table.name, AsciiLower(deferred[i].name)) !in referenced
          && !CheckReads(table, deferred[i]))
  }

  lemma IndexesTaken(table: Table, deferred: seq<Column>, referenced: set<ColumnKey>)
    ensures TakesTemporaryNull(table, deferred, referenced) <==>
              RestTakes(table, deferred, referenced) && forall x :: x in table.indexes ==> TakesIndex(table, x)
  {
    hide CheckReads, IndexesGenerated;
    if forall x :: x in table.indexes ==> TakesIndex(table, x) {
      forall i | 0 <= i < |table.indexes| ensures TakesIndex(table, table.indexes[i]) {
        assert table.indexes[i] in table.indexes;
      }
    }
  }

  lemma RestTaken(a: Table, b: Table, deferred: seq<Column>)
    requires b == a.(indexes := b.indexes)
    ensures forall referenced :: RestTakes(a, deferred, referenced) <==> RestTakes(b, deferred, referenced)
  {
    forall c ensures CheckReads(a, c) == CheckReads(b, c) {
    }
    hide CheckReads;
  }

  lemma IndexLoadsAlike(ds: seq<Described>, es: seq<Described>, i: nat)
    requires AllSame(ds, es) && Ordered(ds) && i < |ds| && SameButIndex(ds[i].table, es[i].table)
    ensures LoadsAlike(ds, ds[i], es, es[i])
  {
    assert es[i].table.columns == ds[i].table.columns;
    SameColumnsDeferred(ds, es, i);
    SameNames(ds, es);
    hide DeferredColumns, ParentGraph, TakesTemporaryNull, SameButIndex, Referenced, Ordered, AllSame;
    IndexTakesAlike(ds[i].table, es[i].table, DeferredColumns(ParentGraph(ds), ds[i]), Referenced(ds));
  }

  /** An index that is not unique, or a whole one over stored columns, makes no difference to the plan. */
  lemma HarmlessIndexPlansAlike(schema: seq<Table>, other: seq<Table>, r: PlanResult, q: PlanResult)
    requires |schema| == |other| && forall i :: 0 <= i < |schema| ==> SameButIndex(schema[i], other[i])
    requires PlanSpec(schema, r) && PlanSpec(other, q)
    ensures r == q
  {
    var s, t := SortBy(TableOrder, schema), SortBy(TableOrder, other);
    SortPaired(SameButIndex, schema, other);
    forall i | 0 <= i < |s| ensures Alike(s[i], t[i]) {
      assert SameButIndex(s[i], t[i]);
      IndexAlike(s[i], t[i]);
    }
    forall ds: seq<Described>, es: seq<Described> | DescribesTables(s, ds) && DescribesTables(t, es) && AllSame(ds, es) && Ordered(ds)
      ensures AllLoadAlike(ds, es)
    {
      forall i | 0 <= i < |ds| ensures LoadsAlike(ds, ds[i], es, es[i]) {
        assert SameButIndex(s[i], t[i]) && ds[i].table == s[i] && es[i].table == t[i];
        IndexLoadsAlike(ds, es, i);
      }
    }
    hide SameButIndex, PlanSpec, LoadsAlike, Alike, DescribesTables, AllSame, SortBy, Ordered;
    PlansAlike(schema, other, r);
    PlanIsDetermined(other, r, q);
  }

  // ----- generated columns

  predicate NamedByIndex(index: Index, name: string) {
    exists i :: 0 <= i < |index.columns| && index.columns[i].Some? && AsciiLower(index.columns[i].value) == name
  }

  predicate NamedByKey(key: ForeignKey, name: string) {
    exists i :: 0 <= i < |key.columns| && AsciiLower(key.columns[i]) == name
  }

  /** A generated column that may be `NULL` and that no `CHECK`, index or key of the table names. */
  ghost predicate IsAside(table: Table, c: Column) {
    var name := AsciiLower(c.name);
    && c.generated && !c.notNull && c.primaryKey == 0
    && table.checkNames.Some? && name !in table.checkNames.value && name !in ROWID_NAMES
    && (forall x :: x in table.indexes ==> !NamedByIndex(x, name))
    && (forall key :: key in table.foreignKeys ==> !NamedByKey(key, name))
  }

  ghost predicate AddsColumn(a: Table, b: Table, c: Column) {
    b == a.(columns := a.columns + [c]) && IsAside(a, c)
  }

  /** `b` is `a`, with perhaps one more such column. */
  ghost predicate SameButGenerated(a: Table, b: Table) {
    a == b || exists c :: AddsColumn(a, b, c)
  }

  lemma {:induction false} FirstFreeAlike(names: seq<string>, taken: set<string>, name: string)
    requires name !in names
    ensures FirstFree(names, taken + {name}) == FirstFree(names, taken)
  {
    if names != [] {
      FirstFreeAlike(names[1..], taken, name);
    }
  }

  lemma ColumnKept(keep: Column -> bool, a: seq<Column>, c: Column)
    ensures Filter(keep, a + [c]) == Filter(keep, a) + (if keep(c) then [c] else [])
  {
    FilterSplits(keep, a, [c]);
  }

  lemma LowerNamesAdd(a: seq<Column>, c: Column)
    ensures LowerNames(a + [c]) == LowerNames(a) + {AsciiLower(c.name)}
  {
    var all := a + [c];
    forall x | x in LowerNames(a) + {AsciiLower(c.name)} ensures x in LowerNames(all) {
      if x == AsciiLower(c.name) {
        assert AsciiLower(all[|a|].name) == x;
      } else {
        var i :| 0 <= i < |a| && AsciiLower(a[i].name) == x;
        assert AsciiLower(all[i].name) == x;
      }
    }
  }

  lemma GeneratedAlike(a: Table, b: Table)
    requires SameButGenerated(a, b)
    ensures Alike(a, b)
  {
    if a != b {
      var c :| AddsColumn(a, b, c);
      var isKey := (x: Column) => x.primaryKey > 0;
      var isStored := (x: Column) => !x.generated;
      ColumnKept(isKey, a.columns, c);
      ColumnKept(isStored, a.columns, c);
      LowerNamesAdd(a.columns, c);
      FirstFreeAlike(ROWID_NAMES, LowerNames(a.columns), AsciiLower(c.name));
      hide Filter, SortBy, LowerNames, FirstFree;
      forall x ensures IsRowidAlias(a, x) == IsRowidAlias(b, x) {
      }
      assert Filter(isKey, b.columns) == Filter(isKey, a.columns) && Filter(isStored, b.columns) == Filter(isStored, a.columns);
    }
  }

  lemma AsideNotDeferred(g: Graph, d: Described, c: Column)
    requires IsAside(d.table, c) && |d.parents| == |d.table.foreignKeys|
    requires forall j :: 0 <= j < |d.parents| ==> d.parents[j].columns == d.table.foreignKeys[j].columns
    ensures !IsDeferred(g, d, c)
  {
    forall j | 0 <= j < |d.parents| ensures !NamesColumn(d.parents[j], c) {
      assert d.table.foreignKeys[j] in d.table.foreignKeys;
      assert !NamedByKey(d.table.foreignKeys[j], AsciiLower(c.name));
    }
  }

  lemma ParentColumns(table: Table, tables: map<string, Table>)
    requires Resolvable(table, tables)
    ensures |ResolvedKeys(table, tables)| == |table.foreignKeys|
    ensures forall j :: 0 <= j < |table.foreignKeys| ==> ResolvedKeys(table, tables)[j].columns == table.foreignKeys[j].columns
    ensures forall j :: 0 <= j < |table.foreignKeys| ==> ResolveKey(table.foreignKeys[j], tables) == Some(ResolvedKeys(table, tables)[j])
  {
  }

  lemma GeneratedDeferAlike(ds: seq<Described>, es: seq<Described>, i: nat, c: Column)
    requires AllSame(ds, es) && Ordered(ds) && i < |ds| && AddsColumn(ds[i].table, es[i].table, c)
    requires |ds[i].parents| == |ds[i].table.foreignKeys|
    requires forall j :: 0 <= j < |ds[i].parents| ==> ds[i].parents[j].columns == ds[i].table.foreignKeys[j].columns
    ensures DeferredColumns(ParentGraph(ds), ds[i]) == DeferredColumns(ParentGraph(es), es[i])
  {
    var g, h := ParentGraph(ds), ParentGraph(es);
    var a := ds[i].table.columns;
    SameDeferred(ds, es, i);
    AsideNotDeferred(g, ds[i], c);
    ColumnKept(x => IsDeferred(h, es[i], x), a, c);
    FilterAgrees(x => IsDeferred(g, ds[i], x), x => IsDeferred(h, es[i], x), a);
    hide IsDeferred, ParentGraph, IsAside;
    assert !IsDeferred(h, es[i], c);
    assert DeferredColumns(h, es[i]) == Filter(x => IsDeferred(h, es[i], x), a + [c]);
  }

  lemma GeneratedTakesAlike(a: Table, b: Table, c: Column, deferred: seq<Column>, referenced: set<ColumnKey>)
    requires AddsColumn(a, b, c)
    ensures TakesTemporaryNull(a, deferred, referenced) <==> TakesTemporaryNull(b, deferred, referenced)
  {
    IndexesTaken(a, deferred, referenced);
    IndexesTaken(b, deferred, referenced);
    forall x | x in a.indexes ensures TakesIndex(a, x) == TakesIndex(b, x) {
      assert !NamedByIndex(x, AsciiLower(c.name));
      IndexesGeneratedAlike(a, b, c, x);
    }
    GeneratedRest(a, b, c, deferred, referenced);
    hide TakesTemporaryNull, TakesIndex, RestTakes;
  }

  lemma IndexesGeneratedAlike(a: Table, b: Table, c: Column, x: Index)
    requires b.columns == a.columns + [c] && !NamedByIndex(x, AsciiLower(c.name))
    ensures IndexesGenerated(a, x) == IndexesGenerated(b, x)
  {
    if IndexesGenerated(a, x) {
      var i, j :| 0 <= i < |x.columns| && 0 <= j < |a.columns| && x.columns[i].Some?
        && a.columns[j].generated && AsciiLower(x.columns[i].value) == AsciiLower(a.columns[j].name);
      assert b.columns[j] == a.columns[j];
    }
  }

  lemma GeneratedRest(a: Table, b: Table, c: Column, deferred: seq<Column>, referenced: set<ColumnKey>)
    requires AddsColumn(a, b, c)
    ensures RestTakes(a, deferred, referenced) <==> RestTakes(b, deferred, referenced)
  {
    forall x ensures CheckReads(a, x) == CheckReads(b, x) {
    }
    assert !CheckReads(a, c);
    hide CheckReads, IsAside;
    forall i | 0 <= i < |a.columns| ensures b.columns[i] == a.columns[i] {
    }
    assert b.columns[|a.columns|] == c;
  }

  lemma GeneratedLoadsAlike(s: seq<Table>, ds: seq<Described>, es: seq<Described>, i: nat)
    requires AllSame(ds, es) && Ordered(ds) && i < |ds| && SameButGenerated(ds[i].table, es[i].table) && DescribesTables(s, ds)
    ensures LoadsAlike(ds, ds[i], es, es[i])
  {
    SameNames(ds, es);
    ParentColumns(s[i], ByName(s));
    hide ResolvedKeys, Resolvable, ByName, Referenced, Ordered, AllSame, TakesTemporaryNull, IsAside, DeferredColumns, ParentGraph;
    if ds[i].table == es[i].table {
      SameColumnsDeferred(ds, es, i);
    } else {
      var c :| AddsColumn(ds[i].table, es[i].table, c);
      GeneratedDeferAlike(ds, es, i, c);
      GeneratedTakesAlike(ds[i].table, es[i].table, c, DeferredColumns(ParentGraph(ds), ds[i]), Referenced(ds));
    }
  }

  /** A generated column that may be `NULL` and that nothing names makes no difference to the plan. */
  lemma GeneratedPlansAlike(schema: seq<Table>, other: seq<Table>, r: PlanResult, q: PlanResult)
    requires |schema| == |other| && forall i :: 0 <= i < |schema| ==> SameButGenerated(schema[i], other[i])
    requires PlanSpec(schema, r) && PlanSpec(other, q)
    ensures r == q
  {
    var s, t := SortBy(TableOrder, schema), SortBy(TableOrder, other);
    SortPaired(SameButGenerated, schema, other);
    forall i | 0 <= i < |s| ensures Alike(s[i], t[i]) {
      assert SameButGenerated(s[i], t[i]);
      GeneratedAlike(s[i], t[i]);
    }
    forall ds: seq<Described>, es: seq<Described> | DescribesTables(s, ds) && DescribesTables(t, es) && AllSame(ds, es) && Ordered(ds)
      ensures AllLoadAlike(ds, es)
    {
      forall i | 0 <= i < |ds| ensures LoadsAlike(ds, ds[i], es, es[i]) {
        assert SameButGenerated(s[i], t[i]) && ds[i].table == s[i] && es[i].table == t[i];
        GeneratedLoadsAlike(s, ds, es, i);
      }
    }
    hide SameButGenerated, PlanSpec, LoadsAlike, Alike, DescribesTables, AllSame, SortBy, Ordered;
    PlansAlike(schema, other, r);
    PlanIsDetermined(other, r, q);
  }

  // ----- what is accepted

  /** No key of the schema names the column among its parent's. */
  ghost predicate Unreferenced(schema: seq<Table>, table: Table, c: Column) {
    forall u, key :: u in schema && key in u.foreignKeys ==> !References(key, table.name, AsciiLower(c.name))
  }

  predicate References(key: ForeignKey, table: string, name: string) {
    && AsciiLower(key.parent) == table && key.references.Some?
    && exists k :: 0 <= k < |key.references.value| && AsciiLower(key.references.value[k]) == name
  }

  ghost predicate CheckedAside(table: Table, c: Column) {
    table.checkNames.Some? && AsciiLower(c.name) !in table.checkNames.value
  }

  /** A column that `NULL` can stand in for a while: nullable, no part of a key of its table or another, in no `CHECK`. */
  ghost predicate MayWait(schema: seq<Table>, table: Table, c: Column) {
    !c.notNull && c.primaryKey == 0 && CheckedAside(table, c) && Unreferenced(schema, table, c)
  }

  /** A table whose deferred columns may wait, beside nullable generated columns no `CHECK` names and harmless indexes. */
  ghost predicate MayWaitAll(schema: seq<Table>, table: Table) {
    && ColumnsDiffer(table)
    && (forall c :: c in table.columns && Defers(schema, table, c) ==> MayWait(schema, table, c))
    && (forall c :: c in table.columns && c.generated ==> !c.notNull && CheckedAside(table, c))
    && (forall x :: x in table.indexes ==> Harmless(table, x))
  }

  ghost predicate DefersNothing(schema: seq<Table>, table: Table) {
    forall c :: c in table.columns ==> !Defers(schema, table, c)
  }

  lemma PrimaryName(table: Table, c: Column, k: nat)
    requires ColumnsDiffer(table) && c in table.columns && c.primaryKey == 0 && k < |PrimaryKeyColumns(table)|
    ensures AsciiLower(PrimaryKeyColumns(table)[k]) != AsciiLower(c.name)
  {
    var keys := Filter((x: Column) => x.primaryKey > 0, table.columns);
    var ordered := SortBy(KeyOrder, keys);
    SameElements(ordered, keys);
    var x := ordered[k];
    assert x in keys;
    FilterHolds((x: Column) => x.primaryKey > 0, table.columns, x);
    var i :| 0 <= i < |table.columns| && table.columns[i] == x;
    var j :| 0 <= j < |table.columns| && table.columns[j] == c;
    hide Filter, SortBy, AsciiLower;
  }

  /** The columns a key names of this table are not the waiting one. */
  lemma KeyReferencesOthers(schema: seq<Table>, tables: seq<Table>, u: Table, j: nat, table: Table, c: Column, k: nat)
    requires NamesAccepted(tables) && multiset(tables) == multiset(schema) && u in tables && table in tables
    requires c in table.columns && ColumnsDiffer(table) && MayWait(schema, table, c)
    requires j < |u.foreignKeys| && ResolveKey(u.foreignKeys[j], ByName(tables)).Some?
    requires var key := ResolveKey(u.foreignKeys[j], ByName(tables)).value; key.parent == table.name && k < |key.references|
    ensures AsciiLower(ResolveKey(u.foreignKeys[j], ByName(tables)).value.references[k]) != AsciiLower(c.name)
  {
    var key := u.foreignKeys[j];
    SameElements(tables, schema);
    ByNameHolds(tables);
    var n := AsciiLower(key.parent);
    var i :| 0 <= i < |tables| && tables[i] == table;
    assert ByName(tables)[n].name == n == table.name;
    assert ByName(tables)[n] == table;
    assert key in u.foreignKeys && u in schema && !References(key, table.name, AsciiLower(c.name));
    hide AsciiLower, ByName, PrimaryKeyColumns, ColumnsDiffer;
    if key.references == None {
      PrimaryName(table, c, k);
    }
  }

  lemma WaitingUnreferenced(schema: seq<Table>, tables: seq<Table>, ds: seq<Described>, table: Table, c: Column)
    requires NamesAccepted(tables) && multiset(tables) == multiset(schema) && DescribesTables(tables, ds) && table in tables
    requires c in table.columns && ColumnsDiffer(table) && MayWait(schema, table, c)
    ensures ColumnKey(table.name, AsciiLower(c.name)) !in Referenced(ds)
  {
    hide MayWait, ColumnsDiffer, NamesAccepted, ByName, AsciiLower, Keyset;
    if ColumnKey(table.name, AsciiLower(c.name)) in Referenced(ds) {
      var i, j, k :| 0 <= i < |ds| && 0 <= j < |ds[i].parents| && 0 <= k < |ds[i].parents[j].references|
        && ColumnKey(table.name, AsciiLower(c.name)) == ColumnKey(ds[i].parents[j].parent, AsciiLower(ds[i].parents[j].references[k]));
      ParentColumns(tables[i], ByName(tables));
      hide ResolveKey, Referenced, Resolvable, ResolvedKeys;
      KeyReferencesOthers(schema, tables, tables[i], j, table, c, k);
    }
  }

  lemma WaitingLoads(schema: seq<Table>, ds: seq<Described>, d: Described)
    requires NamesAccepted(schema) && DescribesTables(SortBy(TableOrder, schema), ds) && d in ds
    requires MayWaitAll(schema, d.table)
    ensures Loads(ds, d)
  {
    var tables := SortBy(TableOrder, schema);
    var deferred := DeferredColumns(ParentGraph(ds), d);
    NamesAcceptedSorted(schema);
    var i :| 0 <= i < |ds| && ds[i] == d;
    assert d.table == tables[i];
    forall k | 0 <= k < |deferred|
      ensures MayWait(schema, d.table, deferred[k]) && ColumnKey(d.table.name, AsciiLower(deferred[k].name)) !in Referenced(ds)
    {
      assert deferred[k] in deferred;
      DeferredIn(ParentGraph(ds), d, deferred[k]);
      assert Defers(schema, d.table, deferred[k]);
      hide DeferredColumns, ParentGraph, NamesAccepted, DescribesTables, MayWait, Referenced, SortBy;
      WaitingUnreferenced(schema, tables, ds, d.table, deferred[k]);
    }
    WaitingTakes(schema, d.table, deferred, Referenced(ds));
    hide DeferredColumns, ParentGraph, TakesTemporaryNull, Referenced;
  }

  lemma WaitingTakes(schema: seq<Table>, table: Table, deferred: seq<Column>, referenced: set<ColumnKey>)
    requires MayWaitAll(schema, table)
    requires forall k :: 0 <= k < |deferred| ==>
               MayWait(schema, table, deferred[k]) && ColumnKey(table.name, AsciiLower(deferred[k].name)) !in referenced
    ensures TakesTemporaryNull(table, deferred, referenced)
  {
    forall x | x in table.indexes ensures TakesIndex(table, x) {
      HarmlessIsTaken(table, x);
    }
    forall i | 0 <= i < |table.columns| && table.columns[i].generated
      ensures !table.columns[i].notNull && !CheckReads(table, table.columns[i])
    {
      assert table.columns[i] in table.columns;
    }
    IndexesTaken(table, deferred, referenced);
    hide Harmless, TakesIndex, Unreferenced, ColumnsDiffer, Defers, AsciiLower;
  }

  lemma NothingLoads(schema: seq<Table>, ds: seq<Described>, d: Described)
    requires DescribesTables(SortBy(TableOrder, schema), ds) && d in ds && DefersNothing(schema, d.table)
    ensures Loads(ds, d)
  {
    var deferred := DeferredColumns(ParentGraph(ds), d);
    if deferred != [] {
      assert deferred[0] in deferred;
      DeferredIn(ParentGraph(ds), d, deferred[0]);
      assert Defers(schema, d.table, deferred[0]);
      assert false;
    }
  }

  /**
   * A schema whose tables can be described gets a plan if every table defers nothing or defers only columns that may wait:
   * it is refused for nothing else.
   */
  lemma WaitingIsPlanned(schema: seq<Table>, ds: seq<Described>, r: PlanResult)
    requires PlanSpec(schema, r) && NamesAccepted(schema) && DescribesTables(SortBy(TableOrder, schema), ds)
    requires forall t :: t in schema ==> DefersNothing(schema, t) || MayWaitAll(schema, t)
    ensures r.Plan?
  {
    var tables := SortBy(TableOrder, schema);
    SameElements(tables, schema);
    forall d | d in ds ensures Loads(ds, d) {
      var i :| 0 <= i < |ds| && ds[i] == d;
      assert d.table == tables[i] && tables[i] in tables;
      if DefersNothing(schema, d.table) {
        NothingLoads(schema, ds, d);
      } else {
        WaitingLoads(schema, ds, d);
      }
    }
    hide Loads, NamesAccepted, PlanSpec, SortBy;
    PlannedIffSupported(schema, r);
  }

  /** Without a cycle among its foreign keys a schema is planned, and nothing is deferred. */
  lemma AcyclicIsPlanned(schema: seq<Table>, ds: seq<Described>, r: PlanResult)
    requires PlanSpec(schema, r) && NamesAccepted(schema) && DescribesTables(SortBy(TableOrder, schema), ds)
    requires forall d :: d in ds ==> !Reaches(ParentGraph(ds), d.table.name, d.table.name)
    ensures r.Plan? && forall k :: 0 <= k < |r.tables| ==> r.tables[k].deferred == []
  {
    NamesAcceptedSorted(schema);
    DescribedTables(schema, ds);
    forall d | d in ds ensures DeferredColumns(ParentGraph(ds), d) == [] && Loads(ds, d) {
      AcyclicDefers(ds, d);
    }
    hide NamesAccepted, SortBy, ParentGraph, DeferredColumns, Loads;
    PlannedIffSupported(schema, r);
    PlanDefersNothing(schema, ds, r);
  }

  lemma AcyclicDefers(ds: seq<Described>, d: Described)
    requires Describes(ds) && d in ds && !Reaches(ParentGraph(ds), d.table.name, d.table.name)
    ensures DeferredColumns(ParentGraph(ds), d) == []
  {
    var g := ParentGraph(ds);
    var deferred := DeferredColumns(g, d);
    if deferred != [] {
      var c := deferred[0];
      assert c in deferred;
      DeferredIff(ds, d, c);
      var j :| 0 <= j < |d.parents| && (d.parents[j].parent == d.table.name || Reaches(g, d.parents[j].parent, d.table.name));
      ParentEdge(ds, d, j);
      EdgeReaches(g, d.table.name, d.parents[j].parent);
      hide Reaches, DeferredColumns, ParentGraph;
      if d.parents[j].parent != d.table.name {
        ReachesTransitively(g, d.table.name, d.parents[j].parent, d.table.name);
      }
      assert false;
    }
  }

  lemma PlanDefersNothing(schema: seq<Table>, ds: seq<Described>, r: PlanResult)
    requires PlanSpec(schema, r) && NamesAccepted(schema) && DescribesTables(SortBy(TableOrder, schema), ds) && r.Plan?
    requires forall d :: d in ds ==> DeferredColumns(ParentGraph(ds), d) == []
    ensures forall k :: 0 <= k < |r.tables| ==> r.tables[k].deferred == []
  {
    SpecIsSorted(schema, r);
    NamesAcceptedSorted(schema);
    hide *;
    DescribedTables(schema, ds);
    PlannedDescription(SortBy(TableOrder, schema), ds, r);
    OrderDefersNothing(ds, r);
  }

  lemma PlannedDescription(tables: seq<Table>, ds: seq<Described>, r: PlanResult)
    requires SortedSpec(tables, r) && NamesAccepted(tables) && DescribesTables(tables, ds) && r.Plan?
    ensures PlanOfDescribed(ds, r)
  {
    hide NamesAccepted, PlanOfDescribed, Describe, Describable, ByName;
    var es: seq<Described> :| DescribesTables(tables, es) && PlanOfDescribed(es, r);
    assert es == ds;
  }

  lemma OrderDefersNothing(ds: seq<Described>, r: PlanResult)
    requires Describes(ds) && PlanOfDescribed(ds, r) && r.Plan?
    requires forall d :: d in ds ==> DeferredColumns(ParentGraph(ds), d) == []
    ensures forall k :: 0 <= k < |r.tables| ==> r.tables[k].deferred == []
  {
    hide ParentGraph, DeferredColumns, Loads;
    var order: seq<Described> :| IsLoadOrder(ds, order) && PlanInOrder(ds, order, r);
    LoadOrderIsSafe(ds, order);
    forall k | 0 <= k < |r.tables| ensures r.tables[k].deferred == [] {
      assert order[k] in ds;
    }
  }
}
