/**
 * Why a plan is safe under immediate constraint checking: during an import a row is absent, bare (its deferred columns
 * `NULL`) or whole, and every arrangement of stages that the load order and the link pass pass through is consistent.
 */
module DumpStages {
  import opened Wrappers
  import opened Seqs
  import opened Graphs
  import opened DumpSchema
  import opened DumpPlan
  import opened Database

  ghost function DeferredNames(g: Graph, d: Described): set<string> {
    LowerNames(DeferredColumns(g, d))
  }

  /** A row as its part writes it. */
  function Bare(deferred: set<string>, cells: Cells): Cells {
    map n | n in cells :: if n in deferred then Null else cells[n]
  }

  /** A row as the part or the link pass left it. */
  ghost predicate Stage(deferred: set<string>, source: Cells, cells: Cells) {
    cells == source || cells == Bare(deferred, source)
  }

  ghost predicate KeysSized(ds: seq<Described>) {
    forall d, j :: d in ds && 0 <= j < |d.parents| ==> |d.parents[j].columns| == |d.parents[j].references| && |d.parents[j].columns| > 0
  }

  /** A key that leaves its parent's columns to the primary key is backed by it. */
  ghost predicate ImpliedBacked(ds: seq<Described>) {
    forall d, j :: d in ds && 0 <= j < |d.parents| && !NamedKey(d, j) ==> KeyBacked(ds, d, j)
  }

  /** A schema that gets a plan, described faithfully. */
  ghost predicate Plannable(logic: Logic, ds: seq<Described>) {
    && Describes(ds) && KeysSized(ds) && ImpliedBacked(ds) && Faithful(logic, ds)
    && forall d :: d in ds ==> Loads(ds, d)
  }

  // ----- deferred columns

  lemma DeferredColumn(g: Graph, d: Described, n: string) returns (c: Column)
    requires n in DeferredNames(g, d)
    ensures c in d.table.columns && AsciiLower(c.name) == n && c in DeferredColumns(g, d) && IsDeferred(g, d, c)
  {
    var columns := DeferredColumns(g, d);
    var i :| 0 <= i < |columns| && AsciiLower(columns[i].name) == n;
    c := columns[i];
    FilterHolds(x => IsDeferred(g, d, x), d.table.columns, c);
  }

  lemma ColumnDeferred(g: Graph, d: Described, c: Column)
    requires c in d.table.columns && IsDeferred(g, d, c)
    ensures AsciiLower(c.name) in DeferredNames(g, d)
  {
    FilterHolds(x => IsDeferred(g, d, x), d.table.columns, c);
    var columns := DeferredColumns(g, d);
    var i :| 0 <= i < |columns| && columns[i] == c;
  }

  lemma NoneDeferred(g: Graph, d: Described, cells: Cells)
    requires DeferredColumns(g, d) == []
    ensures Bare(DeferredNames(g, d), cells) == cells
  {
    assert DeferredNames(g, d) == {};
  }

  /** What `takesTemporaryNull` grants a deferred column. */
  lemma DeferredIsFree(ds: seq<Described>, d: Described, n: string)
    requires Loads(ds, d) && n in DeferredNames(ParentGraph(ds), d) && ColumnsDiffer(d.table)
    ensures ColumnKey(d.table.name, n) !in Referenced(ds)
    ensures forall i :: 0 <= i < |d.table.columns| && AsciiLower(d.table.columns[i].name) == n ==>
              !d.table.columns[i].notNull && d.table.columns[i].primaryKey == 0 && !CheckReads(d.table, d.table.columns[i])
  {
    var c := DeferredColumn(ParentGraph(ds), d, n);
    var columns := DeferredColumns(ParentGraph(ds), d);
    var k :| 0 <= k < |columns| && columns[k] == c;
    var m :| 0 <= m < |d.table.columns| && d.table.columns[m] == c;
  }

  /** A stored column that is not deferred reads the same at either stage. */
  lemma SteadyCell(logic: Logic, table: Table, deferred: set<string>, rowid: int, source: Cells, cells: Cells, name: string)
    requires Stage(deferred, source, cells)
    requires AsciiLower(name) !in deferred && AsciiLower(name) !in GeneratedNames(table)
    ensures Cell(logic, table, rowid, cells, name) == Cell(logic, table, rowid, source, name)
  {
  }

  /** A stored column that is not `NULL` at its stage reads as in the source. */
  lemma NonNullCell(logic: Logic, table: Table, deferred: set<string>, rowid: int, source: Cells, cells: Cells, name: string)
    requires Stage(deferred, source, cells)
    requires AsciiLower(name) !in GeneratedNames(table) && Cell(logic, table, rowid, cells, name) != Null
    ensures Cell(logic, table, rowid, cells, name) == Cell(logic, table, rowid, source, name)
  {
  }

  // ----- the rules of one row

  lemma CheckStays(logic: Logic, ds: seq<Described>, d: Described, rowid: int, source: Cells, cells: Cells)
    requires Loads(ds, d) && ColumnsDiffer(d.table) && ChecksListed(logic, d.table)
    requires Stage(DeferredNames(ParentGraph(ds), d), source, cells) && logic.check(d.table.name, rowid, source)
    ensures logic.check(d.table.name, rowid, cells)
  {
    var deferred := DeferredNames(ParentGraph(ds), d);
    if cells != source {
      var n: string :| n in deferred by {
        if DeferredColumns(ParentGraph(ds), d) == [] {
          NoneDeferred(ParentGraph(ds), d, source);
        } else {
          assert AsciiLower(DeferredColumns(ParentGraph(ds), d)[0].name) in deferred;
        }
      }
      var c := DeferredColumn(ParentGraph(ds), d, n);
      DeferredIsFree(ds, d, n);
      assert d.table.checkNames.Some?;
      forall i | 0 <= i < |d.table.columns| && CheckReads(d.table, d.table.columns[i])
        ensures Cell(logic, d.table, rowid, cells, d.table.columns[i].name) == Cell(logic, d.table, rowid, source, d.table.columns[i].name)
      {
        if AsciiLower(d.table.columns[i].name) in deferred {
          DeferredIsFree(ds, d, AsciiLower(d.table.columns[i].name));
        }
        NotGenerated(ds, d, i);
        SteadyCell(logic, d.table, deferred, rowid, source, cells, d.table.columns[i].name);
      }
      assert AgreeOnChecked(logic, d.table, rowid, cells, source);
    }
  }

  /** With deferred columns, no column a `CHECK` reads and none that is `NOT NULL` is generated. */
  lemma NotGenerated(ds: seq<Described>, d: Described, i: nat)
    requires Loads(ds, d) && DeferredColumns(ParentGraph(ds), d) != [] && ColumnsDiffer(d.table) && i < |d.table.columns|
    requires d.table.columns[i].notNull || CheckReads(d.table, d.table.columns[i])
    ensures AsciiLower(d.table.columns[i].name) !in GeneratedNames(d.table)
  {
  }

  lemma NotNullStays(logic: Logic, ds: seq<Described>, d: Described, rowid: int, source: Cells, cells: Cells)
    requires Loads(ds, d) && ColumnsDiffer(d.table)
    requires Stage(DeferredNames(ParentGraph(ds), d), source, cells) && NotNullHolds(logic, d.table, rowid, source)
    ensures NotNullHolds(logic, d.table, rowid, cells)
  {
    var deferred := DeferredNames(ParentGraph(ds), d);
    if cells != source {
      if DeferredColumns(ParentGraph(ds), d) == [] {
        NoneDeferred(ParentGraph(ds), d, source);
      }
      forall i | 0 <= i < |d.table.columns| && d.table.columns[i].notNull
        ensures Cell(logic, d.table, rowid, cells, d.table.columns[i].name) != Null
      {
        if AsciiLower(d.table.columns[i].name) in deferred {
          DeferredIsFree(ds, d, AsciiLower(d.table.columns[i].name));
        }
        NotGenerated(ds, d, i);
        SteadyCell(logic, d.table, deferred, rowid, source, cells, d.table.columns[i].name);
      }
    }
  }

  lemma RowidStays(ds: seq<Described>, d: Described, rowid: int, source: Cells, cells: Cells)
    requires Loads(ds, d) && ColumnsDiffer(d.table)
    requires Stage(DeferredNames(ParentGraph(ds), d), source, cells) && RowidHolds(d.table, rowid, source)
    ensures RowidHolds(d.table, rowid, cells)
  {
    forall i | 0 <= i < |d.table.columns| && IsRowidAlias(d.table, d.table.columns[i])
      ensures AsciiLower(d.table.columns[i].name) !in DeferredNames(ParentGraph(ds), d)
    {
      var n := AsciiLower(d.table.columns[i].name);
      var key := (c: Column) => c.primaryKey > 0;
      assert d.table.columns[i] in Filter(key, d.table.columns);
      FilterHolds(key, d.table.columns, d.table.columns[i]);
      if n in DeferredNames(ParentGraph(ds), d) {
        DeferredIsFree(ds, d, n);
      }
    }
  }

  lemma RowStays(logic: Logic, ds: seq<Described>, d: Described, rowid: int, source: Cells, cells: Cells)
    requires Loads(ds, d) && ColumnsDiffer(d.table) && ChecksListed(logic, d.table)
    requires Stage(DeferredNames(ParentGraph(ds), d), source, cells) && RowHolds(logic, d.table, rowid, source)
    ensures RowHolds(logic, d.table, rowid, cells)
  {
    CheckStays(logic, ds, d, rowid, source, cells);
    NotNullStays(logic, ds, d, rowid, source, cells);
    RowidStays(ds, d, rowid, source, cells);
  }

  // ----- the unique indexes of one table

  /** Rows that clash at their stage clash in the source: a deferred key column is `NULL` or whole. */
  lemma ClashStays(logic: Logic, ds: seq<Described>, d: Described, j: nat, r: int, a: Cells, a': Cells, s: int, b: Cells, b': Cells)
    requires Loads(ds, d) && j < |d.table.indexes| && d.table.indexes[j].unique
    requires Stage(DeferredNames(ParentGraph(ds), d), a, a') && Stage(DeferredNames(ParentGraph(ds), d), b, b')
    requires Clash(logic, d.table, j, r, a', s, b')
    ensures Clash(logic, d.table, j, r, a, s, b)
  {
    var deferred := DeferredNames(ParentGraph(ds), d);
    if DeferredColumns(ParentGraph(ds), d) == [] {
      NoneDeferred(ParentGraph(ds), d, a);
      NoneDeferred(ParentGraph(ds), d, b);
    } else {
      var index := d.table.indexes[j];
      assert !index.partial && None !in index.columns && !IndexesGenerated(d.table, index);
      forall k: nat | k < |index.columns|
        ensures KeyCell(logic, d.table, j, k, r, a) != Null && KeyCell(logic, d.table, j, k, r, a) == KeyCell(logic, d.table, j, k, s, b)
      {
        assert KeyCell(logic, d.table, j, k, r, a') != Null && KeyCell(logic, d.table, j, k, r, a') == KeyCell(logic, d.table, j, k, s, b');
        assert index.columns[k] != None;
        var name := index.columns[k].value;
        assert AsciiLower(name) !in GeneratedNames(d.table);
        NonNullCell(logic, d.table, deferred, r, a, a', name);
        NonNullCell(logic, d.table, deferred, s, b, b', name);
      }
    }
  }

  ghost predicate StagedRows(deferred: set<string>, source: map<int, Cells>, rows: map<int, Cells>) {
    rows.Keys <= source.Keys && forall r :: r in rows ==> Stage(deferred, source[r], rows[r])
  }

  lemma UniqueStays(logic: Logic, ds: seq<Described>, d: Described, source: map<int, Cells>, rows: map<int, Cells>)
    requires Loads(ds, d) && StagedRows(DeferredNames(ParentGraph(ds), d), source, rows)
    requires UniqueHolds(logic, d.table, source)
    ensures UniqueHolds(logic, d.table, rows)
  {
    forall j: nat, r, s | j < |d.table.indexes| && d.table.indexes[j].unique && r in rows && s in rows && r != s
      ensures !Clash(logic, d.table, j, r, rows[r], s, rows[s])
    {
      if Clash(logic, d.table, j, r, rows[r], s, rows[s]) {
        ClashStays(logic, ds, d, j, r, source[r], rows[r], s, source[s], rows[s]);
        assert false;
      }
    }
  }

  // ----- the foreign keys

  lemma IsReferenced(ds: seq<Described>, d: Described, j: nat, k: nat)
    requires d in ds && j < |d.parents| && k < |d.parents[j].references|
    ensures ColumnKey(d.parents[j].parent, AsciiLower(d.parents[j].references[k])) in Referenced(ds)
  {
    var i :| 0 <= i < |ds| && ds[i] == d;
    assert ColumnKey(ds[i].parents[j].parent, AsciiLower(ds[i].parents[j].references[k])) in Referenced(ds);
  }

  /** A referenced column of a table with deferred columns is not generated: no unique index backs a generated key there. */
  lemma ReferenceStored(logic: Logic, ds: seq<Described>, d: Described, j: nat, k: nat, p: Described)
    requires Plannable(logic, ds) && d in ds && p in ds && j < |d.parents| && k < |d.parents[j].references|
    requires p.table.name == d.parents[j].parent && DeferredColumns(ParentGraph(ds), p) != []
    ensures AsciiLower(d.parents[j].references[k]) !in GeneratedNames(p.table)
  {
    var name := d.parents[j].references[k];
    TableNamedIs(ds, p);
    assert FaithfulKey(ds, d, j) && KeyBacked(ds, d, j);
    assert Backed(p.table, d.parents[j]);
    assert Loads(ds, p);
    if InPrimaryKey(p.table, name) {
      PrimaryKeyStored(p.table, name);
    } else {
      var m :| 0 <= m < |p.table.indexes| && p.table.indexes[m].unique && InIndex(p.table.indexes[m], name);
      IndexedStored(p.table, p.table.indexes[m], name);
    }
  }

  lemma PrimaryKeyStored(table: Table, name: string)
    requires ColumnsDiffer(table) && InPrimaryKey(table, name)
    requires forall i :: 0 <= i < |table.columns| && table.columns[i].generated ==> table.columns[i].primaryKey == 0
    ensures AsciiLower(name) !in GeneratedNames(table)
  {
  }

  lemma IndexedStored(table: Table, index: Index, name: string)
    requires !IndexesGenerated(table, index) && InIndex(index, name)
    ensures AsciiLower(name) !in GeneratedNames(table)
  {
  }

  /** A parent's row carries the key its children name at either stage. */
  lemma ReferenceStays(logic: Logic, ds: seq<Described>, d: Described, j: nat, k: nat, p: Described, s: int, source: Cells, cells: Cells)
    requires Plannable(logic, ds) && d in ds && p in ds && j < |d.parents| && k < |d.parents[j].references|
    requires p.table.name == d.parents[j].parent && Stage(DeferredNames(ParentGraph(ds), p), source, cells)
    ensures Cell(logic, p.table, s, cells, d.parents[j].references[k]) == Cell(logic, p.table, s, source, d.parents[j].references[k])
  {
    if DeferredColumns(ParentGraph(ds), p) == [] {
      NoneDeferred(ParentGraph(ds), p, source);
    } else {
      var name := d.parents[j].references[k];
      ReferenceStored(logic, ds, d, j, k, p);
      IsReferenced(ds, d, j, k);
      if AsciiLower(name) in DeferredNames(ParentGraph(ds), p) {
        assert ColumnsDiffer(p.table) && Loads(ds, p);
        DeferredIsFree(ds, p, AsciiLower(name));
      }
      SteadyCell(logic, p.table, DeferredNames(ParentGraph(ds), p), s, source, cells, name);
    }
  }

  /** The key a child row names reads the same at its stage and in the source, unless it holds a `NULL` at its stage. */
  lemma ChildKeyStays(logic: Logic, ds: seq<Described>, d: Described, j: nat, r: int, source: Cells, cells: Cells)
    requires Plannable(logic, ds) && d in ds && j < |d.parents|
    requires Stage(DeferredNames(ParentGraph(ds), d), source, cells) && !HasNullKey(logic, d.table, d.parents[j], r, cells)
    ensures forall k :: 0 <= k < |d.parents[j].columns| ==>
              Cell(logic, d.table, r, cells, d.parents[j].columns[k]) == Cell(logic, d.table, r, source, d.parents[j].columns[k])
  {
    var key := d.parents[j];
    if DeferredColumns(ParentGraph(ds), d) == [] {
      NoneDeferred(ParentGraph(ds), d, source);
    } else {
      assert FaithfulKey(ds, d, j);
      forall k | 0 <= k < |key.columns|
        ensures Cell(logic, d.table, r, cells, key.columns[k]) == Cell(logic, d.table, r, source, key.columns[k])
      {
        StoredNotGenerated(d.table, AsciiLower(key.columns[k]));
        NonNullCell(logic, d.table, DeferredNames(ParentGraph(ds), d), r, source, cells, key.columns[k]);
      }
    }
  }

  lemma StoredNotGenerated(table: Table, n: string)
    requires ColumnsDiffer(table) && n in StoredNames(table)
    ensures n !in GeneratedNames(table)
  {
  }

  /** A key inside the cycle has a `NULL` in a bare row: all its columns are deferred. */
  lemma BareKeyIsNull(logic: Logic, ds: seq<Described>, d: Described, j: nat, r: int, source: Cells)
    requires Plannable(logic, ds) && d in ds && j < |d.parents|
    requires SameCycle(ParentGraph(ds), d.parents[j].parent, d.table.name) && source.Keys == StoredNames(d.table)
    ensures HasNullKey(logic, d.table, d.parents[j], r, Bare(DeferredNames(ParentGraph(ds), d), source))
  {
    var key := d.parents[j];
    assert FaithfulKey(ds, d, j);
    var n := AsciiLower(key.columns[0]);
    var i :| 0 <= i < |d.table.columns| && AsciiLower(d.table.columns[i].name) == n;
    assert NamesColumn(key, d.table.columns[i]);
    ColumnDeferred(ParentGraph(ds), d, d.table.columns[i]);
    StoredNotGenerated(d.table, n);
    assert Cell(logic, d.table, r, Bare(DeferredNames(ParentGraph(ds), d), source), key.columns[0]) == Null;
  }

  /** Where every row of the parent is present, a key that holds in the source holds at any stage. */
  lemma KeyStays(logic: Logic, ds: seq<Described>, d: Described, j: nat, r: int, source: Cells, cells: Cells,
      p: Described, parents: map<int, Cells>, rows: map<int, Cells>)
    requires Plannable(logic, ds) && d in ds && p in ds && j < |d.parents| && p.table.name == d.parents[j].parent
    requires Stage(DeferredNames(ParentGraph(ds), d), source, cells)
    requires StagedRows(DeferredNames(ParentGraph(ds), p), parents, rows) && rows.Keys == parents.Keys
    requires KeyHolds(logic, d.table, d.parents[j], r, source, p.table, parents)
    ensures KeyHolds(logic, d.table, d.parents[j], r, cells, p.table, rows)
  {
    var key := d.parents[j];
    if !HasNullKey(logic, d.table, key, r, cells) {
      ChildKeyStays(logic, ds, d, j, r, source, cells);
      assert !HasNullKey(logic, d.table, key, r, source);
      var s :| s in parents && KeyMatches(logic, d.table, key, r, source, p.table, s, parents[s]);
      forall k | 0 <= k < |key.columns| && k < |key.references|
        ensures Cell(logic, p.table, s, rows[s], key.references[k]) == Cell(logic, d.table, r, cells, key.columns[k])
      {
        ReferenceStays(logic, ds, d, j, k, p, s, parents[s], rows[s]);
      }
      assert KeyMatches(logic, d.table, key, r, cells, p.table, s, rows[s]);
    }
  }

  // ----- a database between its source's stages

  ghost predicate Staged(ds: seq<Described>, source: Db, db: Db) {
    && Describes(ds) && source.Keys == Names(ds) && db.Keys == Names(ds)
    && forall d :: d in ds && d.table.name in db && d.table.name in source ==>
         StagedRows(DeferredNames(ParentGraph(ds), d), source[d.table.name], db[d.table.name])
  }

  /** Every row of a table is present. */
  ghost predicate Complete(source: Db, db: Db, name: string) {
    name in source && name in db && db[name].Keys == source[name].Keys
  }

  /** A row is present only with the parents outside its cycle, and whole only with every parent. */
  ghost predicate Supports(ds: seq<Described>, source: Db, db: Db) {
    forall d, j, r :: d in ds && 0 <= j < |d.parents| && d.table.name in db && r in db[d.table.name] ==>
      Complete(source, db, d.parents[j].parent) || StillBare(ds, source, db, d, j, r)
  }

  ghost predicate StillBare(ds: seq<Described>, source: Db, db: Db, d: Described, j: nat, r: int)
    requires j < |d.parents| && d.table.name in db && r in db[d.table.name]
  {
    && SameCycle(ParentGraph(ds), d.parents[j].parent, d.table.name)
    && d.table.name in source && r in source[d.table.name]
    && db[d.table.name][r] == Bare(DeferredNames(ParentGraph(ds), d), source[d.table.name][r])
  }

  lemma ForeignStays(logic: Logic, ds: seq<Described>, source: Db, db: Db, d: Described)
    requires Plannable(logic, ds) && Consistent(logic, ds, source) && d in ds
    requires Staged(ds, source, db) && Supports(ds, source, db)
    ensures d.table.name in db && ForeignHolds(logic, ds, db, d)
  {
    TableNamedIs(ds, d);
    var name := d.table.name;
    forall j, r | 0 <= j < |d.parents| && r in db[name]
      ensures d.parents[j].parent in Names(ds)
      ensures KeyHolds(logic, d.table, d.parents[j], r, db[name][r], TableNamed(ds, d.parents[j].parent).table, db[d.parents[j].parent])
    {
      ParentEdge(ds, d, j);
      var p := TableNamed(ds, d.parents[j].parent);
      assert StagedRows(DeferredNames(ParentGraph(ds), d), source[name], db[name]);
      assert ForeignHolds(logic, ds, source, d);
      assert RowHolds(logic, d.table, r, source[name][r]);
      if Complete(source, db, d.parents[j].parent) {
        KeyStays(logic, ds, d, j, r, source[name][r], db[name][r], p, source[p.table.name], db[p.table.name]);
      } else {
        assert StillBare(ds, source, db, d, j, r);
        BareKeyIsNull(logic, ds, d, j, r, source[name][r]);
      }
    }
  }

  /** Every supported arrangement of stages satisfies every rule. */
  lemma StagedIsConsistent(logic: Logic, ds: seq<Described>, source: Db, db: Db)
    requires Plannable(logic, ds) && Consistent(logic, ds, source)
    requires Staged(ds, source, db) && Supports(ds, source, db)
    ensures Consistent(logic, ds, db)
  {
    forall d | d in ds
      ensures d.table.name in db
      ensures forall r :: r in db[d.table.name] ==> RowHolds(logic, d.table, r, db[d.table.name][r])
      ensures UniqueHolds(logic, d.table, db[d.table.name])
      ensures ForeignHolds(logic, ds, db, d)
    {
      ForeignStays(logic, ds, source, db, d);
      var name := d.table.name;
      assert StagedRows(DeferredNames(ParentGraph(ds), d), source[name], db[name]);
      UniqueStays(logic, ds, d, source[name], db[name]);
      forall r | r in db[name] ensures RowHolds(logic, d.table, r, db[name][r]) {
        RowStays(logic, ds, d, r, source[name][r], db[name][r]);
      }
    }
  }
}
