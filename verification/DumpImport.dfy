/**
 * The importer's writes: `begin` clears the target, each part inserts its rows bare, and the link pass sets the deferred
 * columns. Whatever the order of the rows within a table and of the rows the link pass visits, no write is refused, and
 * the target ends as the source.
 */
module DumpImport {
  import opened Wrappers
  import opened Seqs
  import opened DumpSchema
  import opened DumpPlan
  import opened Database
  import opened DumpStages

  /** A line of a dump: a row's rowid and the values of its stored columns, as the plan lists them. */
  datatype Line = Line(table: string, rowid: int, values: seq<Value>)

  function ValueAt(values: seq<Value>, i: nat): Value {
    if i < |values| then values[i] else Null
  }

  /** The line the producer writes for a row. */
  function LineOf(plan: TablePlan, rowid: int, cells: Cells): Line {
    Line(plan.name, rowid, Map(column => var n := AsciiLower(column); if n in cells then cells[n] else Null, plan.columns))
  }

  /** The cells `insertRow` writes: the rowid for the column that is the rowid, `NULL` for a deferred one. */
  function InsertedCells(plan: TablePlan, line: Line, count: nat): Cells
    requires count <= |plan.columns|
  {
    if count == 0 then map[]
    else
      var column := plan.columns[count - 1];
      InsertedCells(plan, line, count - 1)[AsciiLower(column) :=
        if column == plan.keyset then Integer(line.rowid)
        else if column in plan.deferred then Null
        else ValueAt(line.values, count - 1)]
  }

  /** The cells `linkPart` sets. */
  function LinkedCells(plan: TablePlan, line: Line, cells: Cells, count: nat): Cells
    requires count <= |plan.columns|
  {
    if count == 0 then cells
    else
      var column := plan.columns[count - 1];
      var before := LinkedCells(plan, line, cells, count - 1);
      if column in plan.deferred then before[AsciiLower(column) := ValueAt(line.values, count - 1)] else before
  }

  // ----- a line and its row

  /** `plan` is the plan of the table `d` under the schema `ds`, and `cells` one of its rows. */
  ghost predicate RowOf(logic: Logic, ds: seq<Described>, d: Described, plan: TablePlan, rowid: int, cells: Cells) {
    && Plannable(logic, ds) && d in ds && Some(d.keyset) == Keyset(d.table)
    && plan == TablePlanOf(ParentGraph(ds), d)
    && RowHolds(logic, d.table, rowid, cells)
  }

  lemma PlanColumn(d: Described, name: string) returns (c: Column)
    requires name in StoredColumns(d.table)
    ensures c in d.table.columns && c.name == name && !c.generated
  {
    var stored := Filter((x: Column) => !x.generated, d.table.columns);
    var i :| 0 <= i < |stored| && ColumnNames(stored)[i] == name;
    c := stored[i];
    FilterHolds((x: Column) => !x.generated, d.table.columns, c);
  }

  lemma StoredColumnPlanned(d: Described, n: string) returns (i: nat)
    requires n in StoredNames(d.table)
    ensures i < |StoredColumns(d.table)| && AsciiLower(StoredColumns(d.table)[i]) == n
  {
    var k :| 0 <= k < |d.table.columns| && !d.table.columns[k].generated && AsciiLower(d.table.columns[k].name) == n;
    var keep := (x: Column) => !x.generated;
    FilterHolds(keep, d.table.columns, d.table.columns[k]);
    var j :| 0 <= j < |Filter(keep, d.table.columns)| && Filter(keep, d.table.columns)[j] == d.table.columns[k];
    i := j;
  }

  /** Names written alike differ only where columns do. */
  lemma SameColumn(d: Described, a: Column, b: Column)
    requires ColumnsDiffer(d.table) && a in d.table.columns && b in d.table.columns && AsciiLower(a.name) == AsciiLower(b.name)
    ensures a == b
  {
  }

  /** The deferred columns of a plan, by name as written and in lower case. */
  lemma DeferredByName(logic: Logic, ds: seq<Described>, d: Described, plan: TablePlan, rowid: int, cells: Cells, column: string)
    requires RowOf(logic, ds, d, plan, rowid, cells) && column in plan.columns
    ensures column in plan.deferred <==> AsciiLower(column) in DeferredNames(ParentGraph(ds), d)
  {
    var columns := DeferredColumns(ParentGraph(ds), d);
    if AsciiLower(column) in DeferredNames(ParentGraph(ds), d) {
      var c := DeferredColumn(ParentGraph(ds), d, AsciiLower(column));
      var e := PlanColumn(d, column);
      SameColumn(d, c, e);
      var i :| 0 <= i < |columns| && columns[i] == c;
      assert plan.deferred[i] == column;
    }
  }

  /** A column named as the keyset is the rowid itself. */
  lemma KeysetIsRowid(logic: Logic, ds: seq<Described>, d: Described, plan: TablePlan, rowid: int, cells: Cells, column: string)
    requires RowOf(logic, ds, d, plan, rowid, cells) && column in plan.columns && column == plan.keyset
    ensures AsciiLower(column) in cells && cells[AsciiLower(column)] == Integer(rowid)
    ensures AsciiLower(column) !in DeferredNames(ParentGraph(ds), d)
  {
    var c := PlanColumn(d, column);
    var i :| 0 <= i < |d.table.columns| && d.table.columns[i] == c;
    var isKey := (x: Column) => x.primaryKey > 0;
    var key := Filter(isKey, d.table.columns);
    if |key| == 1 && IsRowidAlias(d.table, key[0]) {
      FilterHolds(isKey, d.table.columns, key[0]);
      SameColumn(d, c, key[0]);
      assert RowidHolds(d.table, rowid, cells);
      if AsciiLower(column) in DeferredNames(ParentGraph(ds), d) {
        DeferredIsFree(ds, d, AsciiLower(column));
      }
    } else {
      RowidNamesLower(column);
      assert false;
    }
  }

  lemma RowidNamesLower(name: string)
    requires name in ROWID_NAMES
    ensures AsciiLower(name) == name
  {
  }

  /** What one column of the plan is to the row and to its line. */
  ghost predicate ColumnFits(plan: TablePlan, deferred: set<string>, line: Line, cells: Cells, i: nat)
    requires i < |plan.columns|
  {
    var n := AsciiLower(plan.columns[i]);
    && n in cells
    && (plan.columns[i] in plan.deferred <==> n in deferred)
    && (plan.columns[i] == plan.keyset ==> plan.columns[i] !in plan.deferred && cells[n] == Integer(line.rowid))
    && ValueAt(line.values, i) == cells[n]
  }

  /** `line` carries the row `cells`, column by column. */
  ghost predicate Fits(plan: TablePlan, deferred: set<string>, line: Line, cells: Cells) {
    && (forall i: nat {:trigger plan.columns[i]} :: i < |plan.columns| ==> ColumnFits(plan, deferred, line, cells, i))
    && FirstColumns(plan, |plan.columns|) == cells.Keys
  }

  lemma ColumnOfRow(logic: Logic, ds: seq<Described>, d: Described, plan: TablePlan, rowid: int, cells: Cells, i: nat)
    requires RowOf(logic, ds, d, plan, rowid, cells) && i < |plan.columns|
    ensures ColumnFits(plan, DeferredNames(ParentGraph(ds), d), LineOf(plan, rowid, cells), cells, i)
  {
    var column := plan.columns[i];
    assert column in plan.columns;
    DeferredByName(logic, ds, d, plan, rowid, cells, column);
    var c := PlanColumn(d, column);
    var j :| 0 <= j < |d.table.columns| && d.table.columns[j] == c;
    assert AsciiLower(column) in StoredNames(d.table);
    if column == plan.keyset {
      KeysetIsRowid(logic, ds, d, plan, rowid, cells, column);
    }
  }

  lemma LineFits(logic: Logic, ds: seq<Described>, d: Described, plan: TablePlan, rowid: int, cells: Cells)
    requires RowOf(logic, ds, d, plan, rowid, cells)
    ensures Fits(plan, DeferredNames(ParentGraph(ds), d), LineOf(plan, rowid, cells), cells)
  {
    forall i: nat | i < |plan.columns| ensures ColumnFits(plan, DeferredNames(ParentGraph(ds), d), LineOf(plan, rowid, cells), cells, i) {
      ColumnOfRow(logic, ds, d, plan, rowid, cells, i);
    }
    forall n | n in cells ensures n in FirstColumns(plan, |plan.columns|) {
      var i := StoredColumnPlanned(d, n);
    }
  }

  /** The first `count` columns of the plan, in lower case. */
  ghost function FirstColumns(plan: TablePlan, count: nat): set<string>
    requires count <= |plan.columns|
  {
    set i | 0 <= i < count :: AsciiLower(plan.columns[i])
  }

  lemma FirstColumnsGrow(plan: TablePlan, count: nat)
    requires 0 < count <= |plan.columns|
    ensures FirstColumns(plan, count) == FirstColumns(plan, count - 1) + {AsciiLower(plan.columns[count - 1])}
  {
  }

  lemma {:induction false} InsertedCell(plan: TablePlan, deferred: set<string>, line: Line, cells: Cells, count: nat)
    requires Fits(plan, deferred, line, cells) && count <= |plan.columns|
    ensures InsertedCells(plan, line, count).Keys == FirstColumns(plan, count) <= cells.Keys
    ensures forall n :: n in InsertedCells(plan, line, count) ==>
              InsertedCells(plan, line, count)[n] == if n in deferred then Null else cells[n]
  {
    if count > 0 {
      InsertedCell(plan, deferred, line, cells, count - 1);
      FirstColumnsGrow(plan, count);
      assert ColumnFits(plan, deferred, line, cells, count - 1);
    }
  }

  /** A part writes each row bare. */
  lemma InsertedIsBare(plan: TablePlan, deferred: set<string>, line: Line, cells: Cells)
    requires Fits(plan, deferred, line, cells)
    ensures InsertedCells(plan, line, |plan.columns|) == Bare(deferred, cells)
  {
    InsertedCell(plan, deferred, line, cells, |plan.columns|);
  }

  lemma {:induction false} LinkedCell(plan: TablePlan, deferred: set<string>, line: Line, source: Cells, cells: Cells, count: nat)
    requires Fits(plan, deferred, line, source) && Stage(deferred, source, cells) && count <= |plan.columns|
    ensures LinkedCells(plan, line, cells, count).Keys == source.Keys
    ensures forall n :: n in source ==>
              LinkedCells(plan, line, cells, count)[n] == if n in deferred && n !in FirstColumns(plan, count) then cells[n] else source[n]
  {
    if count > 0 {
      LinkedCell(plan, deferred, line, source, cells, count - 1);
      FirstColumnsGrow(plan, count);
      assert ColumnFits(plan, deferred, line, source, count - 1);
    }
  }

  /** Linking a row at either stage makes it whole. */
  lemma LinkedIsWhole(plan: TablePlan, deferred: set<string>, line: Line, source: Cells, cells: Cells)
    requires Fits(plan, deferred, line, source) && Stage(deferred, source, cells)
    ensures LinkedCells(plan, line, cells, |plan.columns|) == source
  {
    LinkedCell(plan, deferred, line, source, cells, |plan.columns|);
  }

  /** Whether the line holds a deferred column the link pass has to set. */
  predicate Waits(plan: TablePlan, line: Line) {
    exists i :: 0 <= i < |plan.columns| && plan.columns[i] in plan.deferred && ValueAt(line.values, i) != Null
  }

  /** A row without such a column is whole as its part wrote it. */
  lemma UnlinkedIsWhole(plan: TablePlan, deferred: set<string>, line: Line, cells: Cells)
    requires Fits(plan, deferred, line, cells) && !Waits(plan, line)
    ensures Bare(deferred, cells) == cells
  {
    forall n | n in cells && n in deferred ensures cells[n] == Null {
      assert n in FirstColumns(plan, |plan.columns|);
      var i: nat :| i < |plan.columns| && AsciiLower(plan.columns[i]) == n;
      assert ColumnFits(plan, deferred, line, cells, i);
    }
  }
}
