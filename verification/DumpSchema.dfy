/**
 * The schema a dump plans over, as `PRAGMA table_list` and its siblings describe it, and the rules of `planOpsDump`
 * that one table or one foreign key decides.
 */
module DumpSchema {
  import opened Wrappers
  import opened Seqs
  import opened Sorting

  datatype Column = Column(name: string, declaredType: string, notNull: bool, primaryKey: nat, generated: bool)

  datatype Origin = Created | UniqueClause | PrimaryKeyClause

  /** A key column is `None` for an expression. */
  datatype Index = Index(unique: bool, origin: Origin, partial: bool, columns: seq<Option<string>>)

  /** `references` is `None` where the `REFERENCES` clause lists no columns. */
  datatype ForeignKey = ForeignKey(parent: string, columns: seq<string>, references: Option<seq<string>>, initiallyDeferred: bool)

  /** `checkNames` is every name a `CHECK` reads, lower case; `None` counts as naming every column. */
  datatype Table = Table(
    name: string,
    virtual: bool,
    withoutRowid: bool,
    checkNames: Option<seq<string>>,
    columns: seq<Column>,
    indexes: seq<Index>,
    foreignKeys: seq<ForeignKey>)

  /** A foreign key once the planner knows which parent columns it means. */
  datatype ResolvedKey = ResolvedKey(parent: string, columns: seq<string>, references: seq<string>)

  datatype Described = Described(table: Table, keyset: string, parents: seq<ResolvedKey>)

  datatype TablePlan = TablePlan(name: string, keyset: string, columns: seq<string>, deferred: seq<string>)

  datatype PlanResult = Plan(tables: seq<TablePlan>) | Unsupported(table: Option<string>)

  /** A column of a table, the name in lower case: `columnKey`. */
  datatype ColumnKey = ColumnKey(table: string, column: string)

  function LowerChar(c: char): char {
    if 'A' <= c <= 'Z' then c - 'A' + 'a' else c
  }

  /** Identifiers that differ only in the case of ASCII letters are one name to SQLite. */
  function AsciiLower(s: string): (r: string)
    ensures |r| == |s|
  {
    seq(|s|, i requires 0 <= i < |s| => LowerChar(s[i]))
  }

  predicate IsLowerLetter(c: char) {
    'a' <= c <= 'z'
  }

  /** `/^[a-z_][a-z0-9_]{0,62}$/`. */
  predicate IsTableName(s: string) {
    && 1 <= |s| <= 63
    && (IsLowerLetter(s[0]) || s[0] == '_')
    && forall i :: 1 <= i < |s| ==> IsLowerLetter(s[i]) || '0' <= s[i] <= '9' || s[i] == '_'
  }

  function ColumnNames(columns: seq<Column>): seq<string> {
    Map((c: Column) => c.name, columns)
  }

  function LowerNames(columns: seq<Column>): set<string> {
    set i | 0 <= i < |columns| :: AsciiLower(columns[i].name)
  }

  const ROWID_NAMES: seq<string> := ["rowid", "_rowid_", "oid"]

  function FirstFree(names: seq<string>, taken: set<string>): (r: Option<string>)
    ensures r.Some? ==> r.value in names && r.value !in taken
  {
    if names == [] then None
    else if names[0] !in taken then Some(names[0])
    else FirstFree(names[1..], taken)
  }

  predicate IsRowidAlias(table: Table, column: Column) {
    && Filter((c: Column) => c.primaryKey > 0, table.columns) == [column]
    && AsciiLower(column.declaredType) == "integer"
    && !exists i :: 0 <= i < |table.indexes| && table.indexes[i].origin == PrimaryKeyClause
  }

  /** The alias of the rowid, where a column is one; otherwise a built-in name that is still free. */
  function RowidName(table: Table): Option<string> {
    var key := Filter((c: Column) => c.primaryKey > 0, table.columns);
    if |key| == 1 && IsRowidAlias(table, key[0]) then
      Some(key[0].name)
    else
      FirstFree(ROWID_NAMES, LowerNames(table.columns))
  }

  function Keyset(table: Table): Option<string> {
    if table.virtual || table.withoutRowid then None else RowidName(table)
  }

  predicate KeyOrder(a: Column, b: Column) {
    a.primaryKey <= b.primaryKey
  }

  function PrimaryKeyColumns(table: Table): seq<string> {
    ColumnNames(SortBy(KeyOrder, Filter((c: Column) => c.primaryKey > 0, table.columns)))
  }

  function ResolveKey(key: ForeignKey, tables: map<string, Table>): Option<ResolvedKey> {
    var parentName := AsciiLower(key.parent);
    if parentName !in tables || key.initiallyDeferred || |key.columns| == 0 then
      None
    else
      var parent := tables[parentName];
      var references := if key.references.Some? then key.references.value else PrimaryKeyColumns(parent);
      if |references| != |key.columns| then None else Some(ResolvedKey(parent.name, key.columns, references))
  }

  predicate Resolvable(table: Table, tables: map<string, Table>) {
    forall i :: 0 <= i < |table.foreignKeys| ==> ResolveKey(table.foreignKeys[i], tables).Some?
  }

  function ResolvedKeys(table: Table, tables: map<string, Table>): seq<ResolvedKey>
    requires Resolvable(table, tables)
  {
    seq(|table.foreignKeys|, i requires 0 <= i < |table.foreignKeys| => ResolveKey(table.foreignKeys[i], tables).value)
  }

  method ResolveForeignKeys(table: Table, tables: map<string, Table>) returns (keys: Option<seq<ResolvedKey>>)
    ensures keys.Some? <==> Resolvable(table, tables)
    ensures keys.Some? ==> keys.value == ResolvedKeys(table, tables)
  {
    var found: seq<ResolvedKey> := [];
    for i := 0 to |table.foreignKeys|
      invariant |found| == i
      invariant forall j :: 0 <= j < i ==> ResolveKey(table.foreignKeys[j], tables) == Some(found[j])
    {
      var key := ResolveKey(table.foreignKeys[i], tables);
      if key == None {
        return None;
      }
      found := found + [key.value];
    }
    return Some(found);
  }

  // ----- takesTemporaryNull

  predicate CheckReads(table: Table, column: Column) {
    table.checkNames == None || AsciiLower(column.name) in table.checkNames.value
  }

  /** A key column of `index` that is a generated column of `table`. */
  predicate IndexesGenerated(table: Table, index: Index) {
    exists i, j :: 0 <= i < |index.columns| && 0 <= j < |table.columns| && index.columns[i].Some?
      && table.columns[j].generated && AsciiLower(index.columns[i].value) == AsciiLower(table.columns[j].name)
  }

  /** No rule of the table can tell a row whose deferred columns are `NULL` from a broken one. */
  predicate TakesTemporaryNull(table: Table, deferred: seq<Column>, referenced: set<ColumnKey>) {
    && (forall i :: 0 <= i < |table.columns| && table.columns[i].generated ==>
          !table.columns[i].notNull && !CheckReads(table, table.columns[i]))
    && (forall i :: 0 <= i < |table.indexes| && table.indexes[i].unique ==>
          !table.indexes[i].partial && None !in table.indexes[i].columns && !IndexesGenerated(table, table.indexes[i]))
    && (forall i :: 0 <= i < |deferred| ==>
          && !deferred[i].notNull && deferred[i].primaryKey == 0
          && ColumnKey(table.name, AsciiLower(deferred[i].name)) !in referenced
          && !CheckReads(table, deferred[i]))
  }
}
