/**
 * Reading a table of a dump page by page: a wide table block by block, the next page after the
 * last rowid, and the hash that is folded over the pages.
 */
module DumpPages {
  import opened Wrappers
  import opened Seqs
  import opened RowCodec

  // ----- one page

  /** `OPS_SQLITE_MAX_COLUMNS` and `OPS_DUMP_READ_COLUMNS`. */
  const MAX_COLUMNS: nat := 100
  const READ_COLUMNS: nat := 49 // (MAX_COLUMNS - 2) / 2

  /** What a result column holds; `Undefined` is a column the record does not have. */
  datatype Raw<D> = Undefined | SqlNull | TextRaw(text: string) | Number(double: D)

  /** The names of a statement's result columns: the rowid, and each column's type and value. */
  datatype Label = R | T(column: nat) | V(column: nat)

  type Record<!D> = Label -> Raw<D>

  /** A statement projects the rowid twice, and two result columns for each column from `start`. */
  datatype Statement = Statement(start: nat, columns: seq<string>)

  function ResultColumns(statement: Statement): nat {
    2 + 2 * |statement.columns|
  }

  type Query<!D> = Statement -> seq<Record<D>>

  datatype PageRow<D> = PageRow(rowid: string, values: seq<Value<D>>)

  /** `readOpsDumpValue`; `None` is its throw. */
  function ReadDumpValue<D>(ds: Doubles<D>, tag: Raw<D>, value: Raw<D>): Option<Value<D>> {
    if !tag.TextRaw? then None
    else if tag.text == "null" && value.SqlNull? then Some(Null)
    else if tag.text == "integer" && value.TextRaw? && IsInt64Text(value.text) then Some(Integer(value.text))
    else if tag.text == "real" && value.Number? && !ds.isNaN(value.double) then Some(Real(value.double))
    else if tag.text == "text" && value.TextRaw? && IsBytesHex(value.text) then Some(Text(value.text))
    else if tag.text == "blob" && value.TextRaw? && IsBytesHex(value.text) then Some(Blob(value.text))
    else None
  }

  /** How many statements read a table of `n` columns: one even for a table without any. */
  function StatementCount(n: nat): (k: nat)
    ensures k >= 1
  {
    if n == 0 then 1 else (n + READ_COLUMNS - 1) / READ_COLUMNS
  }

  /** The statement for the `k`th block of columns. */
  function StatementAt(columns: seq<string>, k: nat): Statement
    requires k < StatementCount(|columns|)
  {
    CountBounds(|columns|);
    var start := k * READ_COLUMNS;
    Statement(start, columns[start..if start + READ_COLUMNS < |columns| then start + READ_COLUMNS else |columns|])
  }

  lemma CountBounds(n: nat)
    ensures (StatementCount(n) - 1) * READ_COLUMNS < n || n == 0
    ensures n <= StatementCount(n) * READ_COLUMNS
  {
  }

  lemma BlockOf(n: nat, c: nat)
    requires c < n
    ensures c / READ_COLUMNS < StatementCount(n)
  {
    CountBounds(n);
    hide StatementCount;
  }

  /** Where the `k`th block of `n` columns ends. */
  function EndOf(n: nat, k: nat): nat {
    if (k + 1) * READ_COLUMNS < n then (k + 1) * READ_COLUMNS else n
  }

  /** The blocks hold every column, in declaration order, and no statement has more than 100 result columns. */
  lemma {:induction false} StatementsCover(columns: seq<string>, k: nat)
    requires k < StatementCount(|columns|)
    ensures ResultColumns(StatementAt(columns, k)) <= MAX_COLUMNS
    ensures Flat(columns, k + 1) == columns[..EndOf(|columns|, k)]
    ensures k + 1 == StatementCount(|columns|) ==> Flat(columns, k + 1) == columns
  {
    CountBounds(|columns|);
    hide StatementCount;
    if k > 0 {
      StatementsCover(columns, k - 1);
    } else {
      assert Flat(columns, 0) == [];
    }
    assert columns[..EndOf(|columns|, k)] == columns[..k * READ_COLUMNS] + StatementAt(columns, k).columns;
  }

  /** The columns of the first `k` statements. */
  function Flat(columns: seq<string>, k: nat): seq<string>
    requires k <= StatementCount(|columns|)
  {
    if k == 0 then [] else Flat(columns, k - 1) + StatementAt(columns, k - 1).columns
  }

  /** What row `i` reads as in column `c`: the record of the column's own block. */
  function CellAt<D>(ds: Doubles<D>, blocks: seq<seq<Record<D>>>, i: nat, c: nat): Option<Value<D>>
    requires c / READ_COLUMNS < |blocks| && i < |blocks[c / READ_COLUMNS]|
  {
    var record := blocks[c / READ_COLUMNS][i];
    ReadDumpValue(ds, record(T(c)), record(V(c)))
  }

  function RowidAt<D>(ds: Doubles<D>, blocks: seq<seq<Record<D>>>, i: nat): Option<Value<D>>
    requires |blocks| > 0 && i < |blocks[0]|
  {
    ReadDumpValue(ds, TextRaw("integer"), blocks[0][i](R))
  }

  /** The blocks have the same number of rows. */
  ghost predicate SameLength<D>(blocks: seq<seq<Record<D>>>) {
    |blocks| > 0 && forall k :: 0 <= k < |blocks| ==> |blocks[k]| == |blocks[0]|
  }

  /** Every block names the same rowid for row `i`, and every column of it reads as a value. */
  ghost predicate Readable<D(!new)>(ds: Doubles<D>, blocks: seq<seq<Record<D>>>, width: nat, i: nat)
    requires SameLength(blocks) && |blocks| == StatementCount(width) && i < |blocks[0]|
  {
    && RowidAt(ds, blocks, i).Some?
    && (forall k :: 0 <= k < |blocks| ==> blocks[k][i](R) == blocks[0][i](R))
    && (forall c: nat :: c < width ==> CellAt(ds, blocks, i, c).Some?)
  }

  /** The row a page gives for row `i` of its blocks. */
  ghost function RowAt<D(!new)>(ds: Doubles<D>, blocks: seq<seq<Record<D>>>, width: nat, i: nat): PageRow<D>
    requires SameLength(blocks) && |blocks| == StatementCount(width) && i < |blocks[0]|
    requires Readable(ds, blocks, width, i)
  {
    var rowid := RowidAt(ds, blocks, i).value;
    PageRow(rowid.text, [rowid] + seq(width, c requires 0 <= c < width => CellAt(ds, blocks, i, c).value))
  }

  /** Row `i` of the blocks: `None` where the blocks disagree on its rowid or hold a pair that is no value. */
  method ReadRow<D(!new, ==)>(ds: Doubles<D>, blocks: seq<seq<Record<D>>>, width: nat, i: nat) returns (row: Option<PageRow<D>>)
    requires SameLength(blocks) && |blocks| == StatementCount(width) && i < |blocks[0]|
    ensures row.Some? <==> Readable(ds, blocks, width, i)
    ensures row.Some? ==> row.value == RowAt(ds, blocks, width, i)
  {
    hide ReadDumpValue;
    var rowid := RowidAt(ds, blocks, i);
    if rowid == None {
      return None;
    }
    RowidIsText(ds, blocks, i);
    var values := [rowid.value];
    for k := 0 to |blocks|
      invariant |values| == 1 + (if k * READ_COLUMNS < width then k * READ_COLUMNS else width)
      invariant forall j :: 0 <= j < k ==> blocks[j][i](R) == blocks[0][i](R)
      invariant values[0] == rowid.value
      invariant forall c: nat :: c < |values| - 1 ==> CellAt(ds, blocks, i, c) == Some(values[c + 1])
    {
      if blocks[k][i](R) != TextRaw(rowid.value.text) {
        return None;
      }
      var start := k * READ_COLUMNS;
      var end := if start + READ_COLUMNS < width then start + READ_COLUMNS else width;
      for column := start to end
        invariant |values| == 1 + column
        invariant values[0] == rowid.value
        invariant forall c: nat :: c < |values| - 1 ==> CellAt(ds, blocks, i, c) == Some(values[c + 1])
      {
        assert column / READ_COLUMNS == k;
        var value := ReadDumpValue(ds, blocks[k][i](T(column)), blocks[k][i](V(column)));
        assert value == CellAt(ds, blocks, i, column);
        if value == None {
          return None;
        }
        values := values + [value.value];
      }
    }
    row := Some(PageRow(rowid.value.text, values));
    assert values == RowAt(ds, blocks, width, i).values;
  }

  lemma RowidIsText<D>(ds: Doubles<D>, blocks: seq<seq<Record<D>>>, i: nat)
    requires |blocks| > 0 && i < |blocks[0]| && RowidAt(ds, blocks, i).Some?
    ensures RowidAt(ds, blocks, i).value.Integer? && blocks[0][i](R) == TextRaw(RowidAt(ds, blocks, i).value.text)
  {
  }

  /** What the statements of a page answer, block by block. */
  method RunStatements<D>(query: Query<D>, columns: seq<string>) returns (blocks: seq<seq<Record<D>>>, asked: seq<Statement>)
    ensures |blocks| == |asked| == StatementCount(|columns|)
    ensures forall k :: 0 <= k < |asked| ==> asked[k] == StatementAt(columns, k) && blocks[k] == query(asked[k])
  {
    CountBounds(|columns|);
    hide StatementCount;
    blocks, asked := [], [];
    var start := 0;
    while start == 0 || start < |columns|
      invariant start == |asked| * READ_COLUMNS && |blocks| == |asked| <= StatementCount(|columns|)
      invariant start > 0 && start >= |columns| ==> |asked| == StatementCount(|columns|)
      invariant forall k :: 0 <= k < |asked| ==> asked[k] == StatementAt(columns, k) && blocks[k] == query(asked[k])
      decreases |columns| + READ_COLUMNS - start
    {
      var statement := Statement(start, columns[start..if start + READ_COLUMNS < |columns| then start + READ_COLUMNS else |columns|]);
      asked := asked + [statement];
      blocks := blocks + [query(statement)];
      start := start + READ_COLUMNS;
    }
  }

  const MAX_SAFE: int := 0x1f_ffff_ffff_ffff

  /** `readOpsDumpPage`; `None` is a throw. */
  method ReadPage<D(!new, ==)>(ds: Doubles<D>, query: Query<D>, columns: seq<string>, limit: int)
    returns (page: Option<seq<PageRow<D>>>, asked: seq<Statement>)
    ensures limit < 1 || limit > MAX_SAFE ==> page == None && asked == []
    ensures 1 <= limit <= MAX_SAFE ==>
              && |asked| == StatementCount(|columns|)
              && (forall k :: 0 <= k < |asked| ==> asked[k] == StatementAt(columns, k) && ResultColumns(asked[k]) <= MAX_COLUMNS)
              && Flat(columns, |asked|) == columns
              && var blocks := Map(query, asked);
                 && (page.Some? <==> SameLength(blocks) && forall i: nat :: i < |blocks[0]| ==> Readable(ds, blocks, |columns|, i))
                 && (page.Some? ==> |page.value| == |blocks[0]|
                                    && forall i: nat :: i < |page.value| ==> page.value[i] == RowAt(ds, blocks, |columns|, i))
  {
    if limit < 1 || limit > MAX_SAFE {
      return None, [];
    }
    hide Readable, RowAt, StatementAt;
    var blocks: seq<seq<Record<D>>>;
    blocks, asked := RunStatements(query, columns);
    forall k | 0 <= k < |asked|
      ensures ResultColumns(asked[k]) <= MAX_COLUMNS && (k + 1 == |asked| ==> Flat(columns, k + 1) == columns)
    {
      StatementsCover(columns, k);
    }
    assert blocks == Map(query, asked);
    for k := 0 to |blocks|
      invariant forall j :: 0 <= j < k ==> |blocks[j]| == |blocks[0]|
    {
      if |blocks[k]| != |blocks[0]| {
        return None, asked;
      }
    }
    var rows: seq<PageRow<D>> := [];
    for i := 0 to |blocks[0]|
      invariant |rows| == i
      invariant forall j: nat :: j < i ==> Readable(ds, blocks, |columns|, j) && rows[j] == RowAt(ds, blocks, |columns|, j)
    {
      var row := ReadRow(ds, blocks, |columns|, i);
      if row == None {
        return None, asked;
      }
      rows := rows + [row.value];
    }
    page := Some(rows);
  }

  // ----- a page of one synchronous turn

  /** A row as it is stored. */
  datatype Stored<D> = Stored(rowid: string, cells: seq<Value<D>>)

  /** The two result columns `opsDumpColumnProjection` computes. */
  function TypeOf<D>(v: Value<D>): Raw<D> {
    TextRaw(match v case Null => "null" case Integer(_) => "integer" case Real(_) => "real" case Text(_) => "text" case Blob(_) => "blob")
  }

  function Projected<D>(v: Value<D>): Raw<D> {
    match v
    case Null => SqlNull
    case Integer(text) => TextRaw(text)
    case Real(d) => Number(d)
    case Text(hex) => TextRaw(hex)
    case Blob(hex) => TextRaw(hex)
  }

  /** The record holds row `row` as a statement over the columns from `start` projects it. */
  ghost predicate Holds<D(!new)>(record: Record<D>, statement: Statement, row: Stored<D>) {
    && record(R) == TextRaw(row.rowid)
    && forall c: nat :: statement.start <= c < statement.start + |statement.columns| && c < |row.cells| ==>
         record(T(c)) == TypeOf(row.cells[c]) && record(V(c)) == Projected(row.cells[c])
  }

  /** No write falls between the statements: each answers the same rows. */
  ghost predicate AnswersRows<D(!new)>(query: Query<D>, columns: seq<string>, rows: seq<Stored<D>>) {
    forall k :: 0 <= k < StatementCount(|columns|) ==> AnswersBlock(query(StatementAt(columns, k)), StatementAt(columns, k), rows)
  }

  ghost predicate AnswersBlock<D(!new)>(records: seq<Record<D>>, statement: Statement, rows: seq<Stored<D>>) {
    |records| == |rows| && forall i :: 0 <= i < |rows| ==> Holds(records[i], statement, rows[i])
  }

  ghost predicate ValidStored<D>(ds: Doubles<D>, row: Stored<D>, width: nat) {
    IsInt64Text(row.rowid) && |row.cells| == width && ValidRow(ds, row.cells)
  }

  lemma CellIsStored<D(!new)>(ds: Doubles<D>, query: Query<D>, columns: seq<string>, rows: seq<Stored<D>>, blocks: seq<seq<Record<D>>>, i: nat, c: nat)
    requires AnswersRows(query, columns, rows) && i < |rows| && c < |columns| && ValidStored(ds, rows[i], |columns|)
    requires |blocks| == StatementCount(|columns|) && forall k :: 0 <= k < |blocks| ==> blocks[k] == query(StatementAt(columns, k))
    ensures c / READ_COLUMNS < |blocks| && i < |blocks[c / READ_COLUMNS]|
    ensures CellAt(ds, blocks, i, c) == Some(rows[i].cells[c])
  {
    hide IsInt64Text, IsBytesHex;
    var k := c / READ_COLUMNS;
    assert AnswersBlock(query(StatementAt(columns, k)), StatementAt(columns, k), rows);
    assert Holds(blocks[k][i], StatementAt(columns, k), rows[i]);
    assert Valid(ds, rows[i].cells[c]);
  }

  lemma RowIsStored<D(!new)>(ds: Doubles<D>, query: Query<D>, columns: seq<string>, rows: seq<Stored<D>>, blocks: seq<seq<Record<D>>>, i: nat)
    requires AnswersRows(query, columns, rows) && i < |rows| && ValidStored(ds, rows[i], |columns|)
    requires |blocks| == StatementCount(|columns|) && forall k :: 0 <= k < |blocks| ==> blocks[k] == query(StatementAt(columns, k))
    ensures SameLength(blocks) && |blocks[0]| == |rows| && Readable(ds, blocks, |columns|, i)
    ensures RowAt(ds, blocks, |columns|, i) == PageRow(rows[i].rowid, [Integer(rows[i].rowid)] + rows[i].cells)
  {
    hide StatementAt, CellAt, StatementCount;
    forall k | 0 <= k < |blocks| ensures |blocks[k]| == |rows| && blocks[k][i](R) == TextRaw(rows[i].rowid) {
      assert AnswersBlock(query(StatementAt(columns, k)), StatementAt(columns, k), rows);
      assert Holds(blocks[k][i], StatementAt(columns, k), rows[i]);
    }
    forall c: nat | c < |columns| ensures c / READ_COLUMNS < |blocks| {
      BlockOf(|columns|, c);
    }
    forall c: nat | c < |columns| ensures CellAt(ds, blocks, i, c) == Some(rows[i].cells[c]) {
      CellIsStored(ds, query, columns, rows, blocks, i, c);
    }
    assert RowAt(ds, blocks, |columns|, i).values == [Integer(rows[i].rowid)] + rows[i].cells;
  }

  /** Read in one turn, a page is exactly its rows: the rowid, then every column in order, however wide the table is. */
  method ReadTurn<D(!new, ==)>(ds: Doubles<D>, query: Query<D>, columns: seq<string>, limit: int, ghost rows: seq<Stored<D>>)
    returns (page: seq<PageRow<D>>)
    requires 1 <= limit <= MAX_SAFE && AnswersRows(query, columns, rows)
    requires forall i :: 0 <= i < |rows| ==> ValidStored(ds, rows[i], |columns|)
    ensures |page| == |rows|
    ensures forall i :: 0 <= i < |page| ==> page[i] == PageRow(rows[i].rowid, [Integer(rows[i].rowid)] + rows[i].cells)
  {
    hide Readable, RowAt, AnswersBlock, ValidStored;
    var read, asked := ReadPage(ds, query, columns, limit);
    ghost var blocks := Map(query, asked);
    assert blocks[0] == query(StatementAt(columns, 0));
    assert AnswersBlock(query(StatementAt(columns, 0)), StatementAt(columns, 0), rows);
    TurnAgrees(query, columns, rows, blocks);
    forall i: nat | i < |rows|
      ensures Readable(ds, blocks, |columns|, i)
      ensures RowAt(ds, blocks, |columns|, i) == PageRow(rows[i].rowid, [Integer(rows[i].rowid)] + rows[i].cells)
    {
      RowIsStored(ds, query, columns, rows, blocks, i);
    }
    page := read.value;
  }

  lemma TurnAgrees<D(!new)>(query: Query<D>, columns: seq<string>, rows: seq<Stored<D>>, blocks: seq<seq<Record<D>>>)
    requires AnswersRows(query, columns, rows)
    requires |blocks| == StatementCount(|columns|) && forall k :: 0 <= k < |blocks| ==> blocks[k] == query(StatementAt(columns, k))
    ensures SameLength(blocks) && |blocks[0]| == |rows|
  {
    hide StatementAt, Holds, StatementCount;
    forall k | 0 <= k < |blocks| ensures |blocks[k]| == |rows| {
      assert AnswersBlock(query(StatementAt(columns, k)), StatementAt(columns, k), rows);
    }
  }
}
