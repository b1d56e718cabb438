/**
 * A database under a described schema: tables of rows, and the NOT NULL, CHECK, UNIQUE, PRIMARY KEY and FOREIGN KEY
 * rules SQLite enforces after every row write. What only the SQL text knows (a generated column's value, what a `CHECK`
 * answers, which rows a partial index covers, an index expression) is a parameter.
 */
module Database {
  import opened DumpSchema
  import opened DumpPlan

  /** A stored value as a dump tells values apart: an integer, a real's shortest text, text and blobs as hex. */
  datatype Value = Null | Integer(number: int) | Real(text: string) | Text(hex: string) | Blob(hex: string)

  /** The stored cells of a row by column name in lower case; a generated column has none. */
  type Cells = map<string, Value>

  /** The rows of each table by rowid. */
  type Db = map<string, map<int, Cells>>

  /** What the SQL of a table computes from a row, by table name. */
  datatype Logic = Logic(
    generate: (string, string, int, Cells) -> Value,
    check: (string, int, Cells) -> bool,
    covers: (string, nat, int, Cells) -> bool,
    expression: (string, nat, nat, int, Cells) -> Value)

  ghost function GeneratedNames(table: Table): set<string> {
    set i | 0 <= i < |table.columns| && table.columns[i].generated :: AsciiLower(table.columns[i].name)
  }

  ghost function StoredNames(table: Table): set<string> {
    set i | 0 <= i < |table.columns| && !table.columns[i].generated :: AsciiLower(table.columns[i].name)
  }

  /** What the column `name` of a row reads as. */
  ghost function Cell(logic: Logic, table: Table, rowid: int, cells: Cells, name: string): Value {
    var n := AsciiLower(name);
    if n in GeneratedNames(table) then logic.generate(table.name, n, rowid, cells)
    else if n in cells then cells[n]
    else Null
  }

  // ----- the rules

  ghost predicate NotNullHolds(logic: Logic, table: Table, rowid: int, cells: Cells) {
    forall i :: 0 <= i < |table.columns| && table.columns[i].notNull ==> Cell(logic, table, rowid, cells, table.columns[i].name) != Null
  }

  /** The column that aliases the rowid holds it. */
  ghost predicate RowidHolds(table: Table, rowid: int, cells: Cells) {
    forall i :: 0 <= i < |table.columns| && IsRowidAlias(table, table.columns[i]) ==>
      var n := AsciiLower(table.columns[i].name); n in cells && cells[n] == Integer(rowid)
  }

  ghost predicate RowHolds(logic: Logic, table: Table, rowid: int, cells: Cells) {
    && cells.Keys == StoredNames(table)
    && RowidHolds(table, rowid, cells)
    && NotNullHolds(logic, table, rowid, cells)
    && logic.check(table.name, rowid, cells)
  }

  /** What row `rowid` has at position `k` of the key of index `j`. */
  ghost function KeyCell(logic: Logic, table: Table, j: nat, k: nat, rowid: int, cells: Cells): Value
    requires j < |table.indexes| && k < |table.indexes[j].columns|
  {
    match table.indexes[j].columns[k]
    case Some(name) => Cell(logic, table, rowid, cells, name)
    case None => logic.expression(table.name, j, k, rowid, cells)
  }

  ghost predicate Covered(logic: Logic, table: Table, j: nat, rowid: int, cells: Cells)
    requires j < |table.indexes|
  {
    table.indexes[j].partial ==> logic.covers(table.name, j, rowid, cells)
  }

  /** Two rows the unique index `j` holds under one key; a `NULL` differs from every other one. */
  ghost predicate Clash(logic: Logic, table: Table, j: nat, r: int, a: Cells, s: int, b: Cells)
    requires j < |table.indexes|
  {
    && Covered(logic, table, j, r, a) && Covered(logic, table, j, s, b)
    && forall k: nat :: k < |table.indexes[j].columns| ==>
         KeyCell(logic, table, j, k, r, a) != Null && KeyCell(logic, table, j, k, r, a) == KeyCell(logic, table, j, k, s, b)
  }

  ghost predicate UniqueHolds(logic: Logic, table: Table, rows: map<int, Cells>) {
    forall j: nat, r, s :: j < |table.indexes| && table.indexes[j].unique && r in rows && s in rows && r != s ==>
      !Clash(logic, table, j, r, rows[r], s, rows[s])
  }

  /** Whether the parent row `s` carries the key the child row `r` names. */
  ghost predicate KeyMatches(logic: Logic, child: Table, key: ResolvedKey, r: int, a: Cells, parent: Table, s: int, b: Cells) {
    forall k :: 0 <= k < |key.columns| && k < |key.references| ==>
      Cell(logic, parent, s, b, key.references[k]) == Cell(logic, child, r, a, key.columns[k])
  }

  ghost predicate HasNullKey(logic: Logic, child: Table, key: ResolvedKey, r: int, a: Cells) {
    exists k :: 0 <= k < |key.columns| && Cell(logic, child, r, a, key.columns[k]) == Null
  }

  /** An immediate foreign key: with a `NULL` in it, it is not enforced. */
  ghost predicate KeyHolds(logic: Logic, child: Table, key: ResolvedKey, r: int, a: Cells, parent: Table, rows: map<int, Cells>) {
    HasNullKey(logic, child, key, r, a) || exists s :: s in rows && KeyMatches(logic, child, key, r, a, parent, s, rows[s])
  }

  ghost predicate ForeignHolds(logic: Logic, ds: seq<Described>, db: Db, d: Described)
    requires ParentsKnown(ds) && db.Keys == Names(ds) && d in ds && d.table.name in db
  {
    forall j, r :: 0 <= j < |d.parents| && r in db[d.table.name] ==>
      d.parents[j].parent in Names(ds)
      && KeyHolds(logic, d.table, d.parents[j], r, db[d.table.name][r], TableNamed(ds, d.parents[j].parent).table, db[d.parents[j].parent])
  }

  /** Every rule holds of every row, so no write that led here was refused. */
  ghost predicate Consistent(logic: Logic, ds: seq<Described>, db: Db) {
    && Describes(ds)
    && db.Keys == Names(ds)
    && forall d :: d in ds ==>
         && d.table.name in db
         && (forall r :: r in db[d.table.name] ==> RowHolds(logic, d.table, r, db[d.table.name][r]))
         && UniqueHolds(logic, d.table, db[d.table.name])
         && ForeignHolds(logic, ds, db, d)
  }

  // ----- what SQLite guarantees of a schema it accepted, and a reader of its SQL

  ghost predicate ColumnsDiffer(table: Table) {
    forall i, j :: 0 <= i < j < |table.columns| ==> AsciiLower(table.columns[i].name) != AsciiLower(table.columns[j].name)
  }

  /** Every parent column a key names lies in the parent's primary key or in one unique index without an expression. */
  ghost predicate Backed(parent: Table, key: ResolvedKey) {
    || (forall k :: 0 <= k < |key.references| ==> InPrimaryKey(parent, key.references[k]))
    || exists j :: 0 <= j < |parent.indexes| && parent.indexes[j].unique
                   && forall k :: 0 <= k < |key.references| ==> InIndex(parent.indexes[j], key.references[k])
  }

  ghost predicate InPrimaryKey(table: Table, name: string) {
    exists i :: 0 <= i < |table.columns| && table.columns[i].primaryKey > 0 && AsciiLower(table.columns[i].name) == AsciiLower(name)
  }

  ghost predicate InIndex(index: Index, name: string) {
    exists i :: 0 <= i < |index.columns| && index.columns[i].Some? && AsciiLower(index.columns[i].value) == AsciiLower(name)
  }

  ghost predicate AgreeOnChecked(logic: Logic, table: Table, rowid: int, a: Cells, b: Cells) {
    forall i :: 0 <= i < |table.columns| && CheckReads(table, table.columns[i]) ==>
      Cell(logic, table, rowid, a, table.columns[i].name) == Cell(logic, table, rowid, b, table.columns[i].name)
  }

  /** A `CHECK` reads the columns `checkNames` lists and no other. */
  ghost predicate ChecksListed(logic: Logic, table: Table) {
    table.checkNames.Some? ==>
      forall rowid, a, b :: AgreeOnChecked(logic, table, rowid, a, b) ==> logic.check(table.name, rowid, a) == logic.check(table.name, rowid, b)
  }

  /** SQLite refuses a key over a column its table does not have. */
  ghost predicate KeyColumnsExist(table: Table, key: ResolvedKey) {
    forall k :: 0 <= k < |key.columns| ==> AsciiLower(key.columns[k]) in LowerNames(table.columns)
  }

  ghost predicate KeyColumnsStored(table: Table, key: ResolvedKey) {
    forall k :: 0 <= k < |key.columns| ==> AsciiLower(key.columns[k]) in StoredNames(table)
  }

  /** The key names its parent's columns itself. */
  predicate NamedKey(d: Described, j: nat)
    requires j < |d.parents|
  {
    j < |d.table.foreignKeys| && d.table.foreignKeys[j].references.Some?
  }

  ghost predicate KeyBacked(ds: seq<Described>, d: Described, j: nat)
    requires j < |d.parents|
  {
    d.parents[j].parent in Names(ds) ==> Backed(TableNamed(ds, d.parents[j].parent).table, d.parents[j])
  }

  /**
   * The description is that of a real schema: distinct columns, no generated primary key, keys over columns that exist,
   * stored ones where the table has deferred columns, and named parent columns that SQLite can look up.
   */
  ghost predicate Faithful(logic: Logic, ds: seq<Described>) {
    forall d :: d in ds ==>
      && ColumnsDiffer(d.table)
      && (forall i :: 0 <= i < |d.table.columns| && d.table.columns[i].generated ==> d.table.columns[i].primaryKey == 0)
      && ChecksListed(logic, d.table)
      && forall j :: 0 <= j < |d.parents| ==> FaithfulKey(ds, d, j)
  }

  ghost predicate FaithfulKey(ds: seq<Described>, d: Described, j: nat)
    requires j < |d.parents|
  {
    && KeyColumnsExist(d.table, d.parents[j])
    && (DeferredColumns(ParentGraph(ds), d) != [] ==> KeyColumnsStored(d.table, d.parents[j]))
    && (NamedKey(d, j) ==> KeyBacked(ds, d, j))
  }
}
