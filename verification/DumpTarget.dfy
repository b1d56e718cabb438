/**
 * The whole import: `Target` is the object's database as the importer's statements change it, and its methods' promise is
 * that SQLite refuses none of them and that the target ends as the source.
 */
module DumpTarget {
  import opened Wrappers
  import opened Sorting
  import opened Graphs
  import opened DumpSchema
  import opened DumpPlan
  import opened DumpOrder
  import opened Database
  import opened DumpStages
  import opened DumpKeys
  import opened DumpImport

  // ----- a plan, its source and a dump of it

  /** `plans` is the plan of `ds`, in the load order `order`. */
  ghost predicate Planned(logic: Logic, ds: seq<Described>, order: seq<Described>, plans: seq<TablePlan>) {
    && Plannable(logic, ds) && IsLoadOrder(ds, order) && Plans(ds, order, plans)
    && forall d :: d in ds ==> Some(d.keyset) == Keyset(d.table)
  }

  function PlansByName(plans: seq<TablePlan>): map<string, TablePlan> {
    if plans == [] then map[]
    else PlansByName(plans[..|plans| - 1])[plans[|plans| - 1].name := plans[|plans| - 1]]
  }

  /** A line of the dump carries a row of the source. */
  ghost predicate IsLine(plans: map<string, TablePlan>, source: Db, line: Line) {
    && line.table in plans && line.table in source && line.rowid in source[line.table]
    && line == LineOf(plans[line.table], line.rowid, source[line.table][line.rowid])
  }

  /** One of the first `n` lines carries the row `r` of `name`. */
  ghost predicate HasRow(lines: seq<Line>, n: nat, name: string, r: int) {
    exists i :: 0 <= i < n && i < |lines| && lines[i].table == name && lines[i].rowid == r
  }

  /** No row of a table comes before a row of a table the plan loads earlier. */
  ghost predicate InPlanOrder(plans: seq<TablePlan>, lines: seq<Line>) {
    forall i, j, a, b :: 0 <= i < j < |lines| && 0 <= a < b < |plans| ==> !(lines[i].table == plans[b].name && lines[j].table == plans[a].name)
  }

  /** A dump holds each row once, the tables in plan order, the rows of a table in any order. */
  ghost predicate IsDump(plans: seq<TablePlan>, source: Db, lines: seq<Line>) {
    && (forall i :: 0 <= i < |lines| ==> IsLine(PlansByName(plans), source, lines[i]))
    && (forall i :: 0 <= i < |lines| ==> !HasRow(lines, i, lines[i].table, lines[i].rowid))
    && (forall name, r :: name in source && r in source[name] ==> HasRow(lines, |lines|, name, r))
    && InPlanOrder(plans, lines)
  }

  lemma {:induction false} PlansByNameIs(plans: seq<TablePlan>, i: nat)
    requires forall i, j :: 0 <= i < j < |plans| ==> plans[i].name != plans[j].name
    requires i < |plans|
    ensures plans[i].name in PlansByName(plans) && PlansByName(plans)[plans[i].name] == plans[i]
  {
    var n := |plans| - 1;
    if i < n {
      assert plans[..n][i] == plans[i];
      PlansByNameIs(plans[..n], i);
    }
  }

  /** Every table has its plan. */
  lemma PlanOfTable(logic: Logic, ds: seq<Described>, order: seq<Described>, plans: seq<TablePlan>, d: Described) returns (k: nat)
    requires Planned(logic, ds, order, plans) && d in ds
    ensures k < |order| && k < |plans| && order[k] == d && plans[k] == TablePlanOf(ParentGraph(ds), d) && plans[k].name == d.table.name
    ensures d.table.name in PlansByName(plans) && PlansByName(plans)[d.table.name] == plans[k]
  {
    LoadOrderIsSafe(ds, order);
    k :| 0 <= k < |order| && order[k] == d;
    forall i, j | 0 <= i < j < |plans| ensures plans[i].name != plans[j].name {
      assert order[i].table.name != order[j].table.name;
    }
    PlansByNameIs(plans, k);
  }

  // ----- the states of a run, by value

  /** The deferred columns of each table, in lower case. */
  ghost function DeferredMap(ds: seq<Described>): map<string, set<string>> {
    map name | name in Names(ds) :: DeferredNames(ParentGraph(ds), TableNamed(ds, name))
  }

  /** `line` carries the source's row under `plan`. */
  ghost predicate Carries(plan: TablePlan, deferred: map<string, set<string>>, source: Db, line: Line) {
    && plan.name == line.table && line.table in source && line.table in deferred && line.rowid in source[line.table]
    && Fits(plan, deferred[line.table], line, source[line.table][line.rowid])
  }

  lemma LineCarries(logic: Logic, ds: seq<Described>, order: seq<Described>, plans: seq<TablePlan>, source: Db, line: Line)
    requires Planned(logic, ds, order, plans) && Consistent(logic, ds, source) && IsLine(PlansByName(plans), source, line)
    ensures Carries(PlansByName(plans)[line.table], DeferredMap(ds), source, line)
  {
    var d := TableNamed(ds, line.table);
    var k := PlanOfTable(logic, ds, order, plans, d);
    LineFits(logic, ds, d, plans[k], line.rowid, source[line.table][line.rowid]);
  }

  /** The database after `insertRow`. */
  function Inserted(plan: TablePlan, line: Line, db: Db): Db
    requires plan.name in db
  {
    db[plan.name := db[plan.name][line.rowid := InsertedCells(plan, line, |plan.columns|)]]
  }

  /** The database after the link pass visited `line`. */
  function Linked(plan: TablePlan, line: Line, db: Db): Db
    requires plan.name in db
  {
    if Waits(plan, line) && line.rowid in db[plan.name] then
      db[plan.name := db[plan.name][line.rowid := LinkedCells(plan, line, db[plan.name][line.rowid], |plan.columns|)]]
    else
      db
  }

  ghost predicate BareRows(deferred: set<string>, source: map<int, Cells>, rows: map<int, Cells>) {
    rows.Keys <= source.Keys && forall r :: r in rows ==> rows[r] == Bare(deferred, source[r])
  }

  /** Every present row is bare. */
  ghost predicate BareDb(deferred: map<string, set<string>>, source: Db, db: Db) {
    && db.Keys == source.Keys == deferred.Keys
    && forall name :: name in db ==> BareRows(deferred[name], source[name], db[name])
  }

  /** Every row of the source is present, each at one of its stages. */
  ghost predicate PresentDb(deferred: map<string, set<string>>, source: Db, db: Db) {
    && db.Keys == source.Keys == deferred.Keys
    && forall name :: name in db ==> db[name].Keys == source[name].Keys && StagedRows(deferred[name], source[name], db[name])
  }

  /** The rows of the first `n` lines are present, and no other. */
  ghost predicate HoldsLines(lines: seq<Line>, n: nat, db: Db) {
    forall name, r :: name in db ==> (r in db[name] <==> HasRow(lines, n, name, r))
  }

  lemma InsertedStaysBare(deferred: map<string, set<string>>, source: Db, plan: TablePlan, line: Line, db: Db)
    requires BareDb(deferred, source, db) && Carries(plan, deferred, source, line)
    ensures BareDb(deferred, source, Inserted(plan, line, db))
  {
    InsertedIsBare(plan, deferred[line.table], line, source[line.table][line.rowid]);
  }

  lemma HasOneMore(lines: seq<Line>, n: nat, name: string, r: int)
    requires n < |lines|
    ensures HasRow(lines, n + 1, name, r) <==> HasRow(lines, n, name, r) || (lines[n].table == name && lines[n].rowid == r)
  {
  }

  lemma InsertedHolds(lines: seq<Line>, n: nat, plan: TablePlan, db: Db)
    requires n < |lines| && HoldsLines(lines, n, db) && plan.name in db && plan.name == lines[n].table
    ensures HoldsLines(lines, n + 1, Inserted(plan, lines[n], db))
  {
    forall name, r | name in db
      ensures r in Inserted(plan, lines[n], db)[name] <==> HasRow(lines, n + 1, name, r)
    {
      HasOneMore(lines, n, name, r);
      assert r in db[name] <==> HasRow(lines, n, name, r);
    }
  }

  ghost predicate Whole(source: Db, db: Db, name: string, r: int) {
    name in source && name in db && r in source[name] && r in db[name] && db[name][r] == source[name][r]
  }

  /** Visiting a row in the link pass makes it whole and leaves every whole row whole. */
  lemma LinkStep(deferred: map<string, set<string>>, source: Db, plan: TablePlan, line: Line, db: Db)
    requires PresentDb(deferred, source, db) && Carries(plan, deferred, source, line)
    ensures PresentDb(deferred, source, Linked(plan, line, db))
    ensures Whole(source, Linked(plan, line, db), line.table, line.rowid)
    ensures forall name, r :: Whole(source, db, name, r) ==> Whole(source, Linked(plan, line, db), name, r)
  {
    var cells := source[line.table][line.rowid];
    assert Stage(deferred[line.table], cells, db[line.table][line.rowid]);
    if Waits(plan, line) {
      LinkedIsWhole(plan, deferred[line.table], line, cells, db[line.table][line.rowid]);
    } else {
      UnlinkedIsWhole(plan, deferred[line.table], line, cells);
    }
  }

  // ----- every state of a run is consistent

  lemma DeferredAt(ds: seq<Described>, d: Described)
    requires Describes(ds) && d in ds
    ensures d.table.name in DeferredMap(ds) && DeferredMap(ds)[d.table.name] == DeferredNames(ParentGraph(ds), d)
  {
    TableNamedIs(ds, d);
  }

  lemma BareIsStaged(ds: seq<Described>, source: Db, db: Db)
    requires Describes(ds) && BareDb(DeferredMap(ds), source, db)
    ensures Staged(ds, source, db)
  {
    forall d | d in ds ensures StagedRows(DeferredNames(ParentGraph(ds), d), source[d.table.name], db[d.table.name]) {
      DeferredAt(ds, d);
    }
  }

  lemma PresentIsStaged(ds: seq<Described>, source: Db, db: Db)
    requires Describes(ds) && PresentDb(DeferredMap(ds), source, db)
    ensures Staged(ds, source, db) && Supports(ds, source, db)
  {
    forall d | d in ds ensures StagedRows(DeferredNames(ParentGraph(ds), d), source[d.table.name], db[d.table.name]) {
      DeferredAt(ds, d);
    }
    forall d, j, r | d in ds && 0 <= j < |d.parents| && d.table.name in db && r in db[d.table.name]
      ensures Complete(source, db, d.parents[j].parent)
    {
      ParentEdge(ds, d, j);
    }
  }

  /** Each row of a table before `b` in the load order precedes every row of the table at `b`. */
  lemma EarlierTableComplete(plans: seq<TablePlan>, source: Db, lines: seq<Line>, n: nat, db: Db, a: nat, b: nat, r: int)
    requires IsDump(plans, source, lines) && HoldsLines(lines, n, db) && source.Keys == db.Keys
    requires forall name :: name in db ==> db[name].Keys <= source[name].Keys
    requires a < b < |plans| && plans[a].name in db && plans[b].name in db && r in db[plans[b].name]
    ensures Complete(source, db, plans[a].name)
  {
    assert HasRow(lines, n, plans[b].name, r);
    var m :| 0 <= m < n && m < |lines| && lines[m].table == plans[b].name && lines[m].rowid == r;
    forall s | s in source[plans[a].name] ensures s in db[plans[a].name] {
      assert HasRow(lines, |lines|, plans[a].name, s);
      var i :| 0 <= i < |lines| && lines[i].table == plans[a].name && lines[i].rowid == s;
      assert i <= m;
      assert HasRow(lines, n, plans[a].name, s);
    }
  }

  /** A bare row has its parents outside its cycle, wherever the load order put them first. */
  ghost predicate ParentsComplete(ds: seq<Described>, source: Db, db: Db) {
    forall d, j, r ::
      (d in ds && 0 <= j < |d.parents| && d.table.name in db && r in db[d.table.name]
       && !SameCycle(ParentGraph(ds), d.parents[j].parent, d.table.name)) ==> Complete(source, db, d.parents[j].parent)
  }

  lemma BareSupports(ds: seq<Described>, source: Db, db: Db)
    requires Describes(ds) && BareDb(DeferredMap(ds), source, db) && ParentsComplete(ds, source, db)
    ensures Supports(ds, source, db)
  {
    forall d, j, r | d in ds && 0 <= j < |d.parents| && d.table.name in db && r in db[d.table.name]
      ensures Complete(source, db, d.parents[j].parent) || StillBare(ds, source, db, d, j, r)
    {
      DeferredAt(ds, d);
    }
  }

  lemma OutsideParentEarlier(logic: Logic, ds: seq<Described>, order: seq<Described>, plans: seq<TablePlan>, d: Described, j: nat)
      returns (a: nat, b: nat)
    requires Planned(logic, ds, order, plans) && d in ds && j < |d.parents|
    requires !SameCycle(ParentGraph(ds), d.parents[j].parent, d.table.name)
    ensures a < b < |plans| && plans[a].name == d.parents[j].parent && plans[b].name == d.table.name
  {
    b := PlanOfTable(logic, ds, order, plans, d);
    LoadOrderIsSafe(ds, order);
    assert order[b].parents[j].parent in Names(order[..b]);
    a :| 0 <= a < b && order[..b][a].table.name == d.parents[j].parent;
  }

  lemma LoadedIsConsistent(logic: Logic, ds: seq<Described>, order: seq<Described>, plans: seq<TablePlan>, source: Db, lines: seq<Line>, n: nat, db: Db)
    requires Planned(logic, ds, order, plans) && Consistent(logic, ds, source) && IsDump(plans, source, lines)
    requires BareDb(DeferredMap(ds), source, db) && HoldsLines(lines, n, db)
    ensures Consistent(logic, ds, db)
  {
    forall d, j, r | d in ds && 0 <= j < |d.parents| && d.table.name in db && r in db[d.table.name]
      && !SameCycle(ParentGraph(ds), d.parents[j].parent, d.table.name)
      ensures Complete(source, db, d.parents[j].parent)
    {
      var a, b := OutsideParentEarlier(logic, ds, order, plans, d, j);
      ParentEdge(ds, d, j);
      EarlierTableComplete(plans, source, lines, n, db, a, b, r);
    }
    BareIsStaged(ds, source, db);
    BareSupports(ds, source, db);
    StagedIsConsistent(logic, ds, source, db);
  }

  lemma PresentIsConsistent(logic: Logic, ds: seq<Described>, source: Db, db: Db)
    requires Plannable(logic, ds) && Consistent(logic, ds, source) && PresentDb(DeferredMap(ds), source, db)
    ensures Consistent(logic, ds, db)
  {
    PresentIsStaged(ds, source, db);
    StagedIsConsistent(logic, ds, source, db);
  }

  lemma AllLoaded(plans: seq<TablePlan>, deferred: map<string, set<string>>, source: Db, lines: seq<Line>, db: Db)
    requires IsDump(plans, source, lines) && BareDb(deferred, source, db) && HoldsLines(lines, |lines|, db)
    ensures PresentDb(deferred, source, db)
  {
    forall name | name in db ensures db[name].Keys == source[name].Keys {
      forall r | r in source[name] ensures r in db[name] {
        assert HasRow(lines, |lines|, name, r);
      }
    }
  }

  /** What an import is given: the plan of `ds`, a consistent source, and the source's dump. */
  ghost predicate Importable(logic: Logic, ds: seq<Described>, order: seq<Described>, plans: seq<TablePlan>, source: Db) {
    Planned(logic, ds, order, plans) && Consistent(logic, ds, source)
  }

  /** The first `i` lines are in, each row bare, and nothing else. */
  ghost predicate LoadedSoFar(ds: seq<Described>, source: Db, lines: seq<Line>, i: nat, db: Db) {
    BareDb(DeferredMap(ds), source, db) && HoldsLines(lines, i, db)
  }

  /** The rows of the first `i` links are whole, and no row that was whole is not. */
  ghost predicate WholeSoFar(source: Db, links: seq<Line>, i: nat, was: Db, db: Db) {
    && (forall j :: 0 <= j < i && j < |links| ==> Whole(source, db, links[j].table, links[j].rowid))
    && forall name, r :: Whole(source, was, name, r) ==> Whole(source, db, name, r)
  }

  lemma WholeGrows(source: Db, links: seq<Line>, i: nat, was: Db, db: Db, after: Db)
    requires WholeSoFar(source, links, i, was, db) && i < |links| && Whole(source, after, links[i].table, links[i].rowid)
    requires forall name, r :: Whole(source, db, name, r) ==> Whole(source, after, name, r)
    ensures WholeSoFar(source, links, i + 1, was, after)
  {
  }

  /** Every row is in, and the link pass came as far as `i`. */
  ghost predicate LinkedSoFar(ds: seq<Described>, source: Db, links: seq<Line>, i: nat, was: Db, db: Db) {
    PresentDb(DeferredMap(ds), source, db) && WholeSoFar(source, links, i, was, db)
  }

  ghost predicate HasTable(plans: seq<TablePlan>, line: Line, db: Db) {
    line.table in PlansByName(plans) && PlansByName(plans)[line.table].name == line.table && line.table in db
  }

  /** Inserting the next line of the dump is not refused. */
  lemma LoadStep(logic: Logic, ds: seq<Described>, order: seq<Described>, plans: seq<TablePlan>, source: Db, lines: seq<Line>, i: nat, db: Db)
    requires Importable(logic, ds, order, plans, source) && IsDump(plans, source, lines) && i < |lines|
    requires LoadedSoFar(ds, source, lines, i, db)
    ensures HasTable(plans, lines[i], db) && lines[i].rowid !in db[lines[i].table]
    ensures var after := Inserted(PlansByName(plans)[lines[i].table], lines[i], db);
            LoadedSoFar(ds, source, lines, i + 1, after) && Consistent(logic, ds, after)
  {
    LineCarries(logic, ds, order, plans, source, lines[i]);
    var plan := PlansByName(plans)[lines[i].table];
    InsertedStaysBare(DeferredMap(ds), source, plan, lines[i], db);
    InsertedHolds(lines, i, plan, db);
    LoadedIsConsistent(logic, ds, order, plans, source, lines, i + 1, Inserted(plan, lines[i], db));
  }

  /** Linking any row of the dump is not refused. */
  lemma LinkRowStep(logic: Logic, ds: seq<Described>, order: seq<Described>, plans: seq<TablePlan>, source: Db, links: seq<Line>, i: nat, was: Db, db: Db)
    requires Importable(logic, ds, order, plans, source) && i < |links| && IsLine(PlansByName(plans), source, links[i])
    requires LinkedSoFar(ds, source, links, i, was, db)
    ensures HasTable(plans, links[i], db)
    ensures var after := Linked(PlansByName(plans)[links[i].table], links[i], db);
            LinkedSoFar(ds, source, links, i + 1, was, after) && Consistent(logic, ds, after)
  {
    LineCarries(logic, ds, order, plans, source, links[i]);
    var plan := PlansByName(plans)[links[i].table];
    var after := Linked(plan, links[i], db);
    LinkStep(DeferredMap(ds), source, plan, links[i], db);
    WholeGrows(source, links, i, was, db, after);
    PresentIsConsistent(logic, ds, source, after);
  }

  // ----- the states of `begin`, which clears what the migrations wrote

  /** The names, in lower case, of the columns a plan defers. */
  function PlanDeferred(plan: TablePlan): set<string> {
    set i | 0 <= i < |plan.deferred| :: AsciiLower(plan.deferred[i])
  }

  lemma PlanDeferredIs(logic: Logic, ds: seq<Described>, order: seq<Described>, plans: seq<TablePlan>, k: nat)
    requires Planned(logic, ds, order, plans) && k < |plans|
    ensures plans[k].name in DeferredMap(ds) && PlanDeferred(plans[k]) == DeferredMap(ds)[plans[k].name]
  {
    var d := order[k];
    PlacedIsTable(ds, order, k);
    DeferredAt(ds, d);
    assert plans[k] == TablePlanOf(ParentGraph(ds), d);
    hide DeferredColumns, ParentGraph, DeferredMap;
    DeferredOfPlan(ParentGraph(ds), d);
  }

  lemma PlacedIsTable(ds: seq<Described>, order: seq<Described>, k: nat)
    requires Describes(ds) && IsLoadOrder(ds, order) && k < |order|
    ensures order[k] in ds
  {
    LoadOrderIsSafe(ds, order);
  }

  lemma DeferredOfPlan(g: Graph, d: Described)
    ensures PlanDeferred(TablePlanOf(g, d)) == DeferredNames(g, d)
  {
    hide DeferredColumns, StoredColumns;
    var columns, names := DeferredColumns(g, d), TablePlanOf(g, d).deferred;
    assert |names| == |columns| && forall i :: 0 <= i < |columns| ==> names[i] == columns[i].name;
  }

  /** Every row is in, and the deferred columns of the first `i` tables are `NULL`. */
  ghost predicate NulledSoFar(ds: seq<Described>, plans: seq<TablePlan>, was: Db, i: nat, db: Db) {
    && PresentDb(DeferredMap(ds), was, db)
    && forall a :: 0 <= a < i && a < |plans| ==> NulledTable(ds, plans[a].name, was, db)
  }

  ghost predicate NulledTable(ds: seq<Described>, name: string, was: Db, db: Db) {
    name in DeferredMap(ds) && name in was && name in db && BareRows(DeferredMap(ds)[name], was[name], db[name])
  }

  /** Every present row is bare; the tables before `i` are complete and those after it are empty. */
  ghost predicate ClearedSoFar(ds: seq<Described>, plans: seq<TablePlan>, was: Db, i: int, db: Db) {
    && BareDb(DeferredMap(ds), was, db)
    && (forall a :: 0 <= a < i && a < |plans| ==> Complete(was, db, plans[a].name))
    && (forall a :: 0 <= a < |plans| && i < a && plans[a].name in db ==> db[plans[a].name] == map[])
  }

  lemma ClearedIsConsistent(logic: Logic, ds: seq<Described>, order: seq<Described>, plans: seq<TablePlan>, was: Db, i: int, db: Db)
    requires Planned(logic, ds, order, plans) && Consistent(logic, ds, was) && ClearedSoFar(ds, plans, was, i, db)
    ensures Consistent(logic, ds, db)
  {
    forall d, j, r | d in ds && 0 <= j < |d.parents| && d.table.name in db && r in db[d.table.name]
      && !SameCycle(ParentGraph(ds), d.parents[j].parent, d.table.name)
      ensures Complete(was, db, d.parents[j].parent)
    {
      var a, b := OutsideParentEarlier(logic, ds, order, plans, d, j);
    }
    BareIsStaged(ds, was, db);
    BareSupports(ds, was, db);
    StagedIsConsistent(logic, ds, was, db);
  }

  /** Every row is in; of the table of `plan`, all rows but those in `todo` are bare; no other table changed since `start`. */
  ghost predicate Nulling(ds: seq<Described>, plan: TablePlan, was: Db, start: Db, todo: set<int>, db: Db) {
    && PresentDb(DeferredMap(ds), was, db)
    && plan.name in db && todo <= db[plan.name].Keys
    && (forall r :: r in db[plan.name] && r !in todo ==> r in was[plan.name] && db[plan.name][r] == Bare(PlanDeferred(plan), was[plan.name][r]))
    && (forall name :: name in db && name != plan.name ==> name in start && db[name] == start[name])
  }

  function NulledRow(plan: TablePlan, r: int, db: Db): Db
    requires plan.name in db && r in db[plan.name]
  {
    db[plan.name := db[plan.name][r := Bare(PlanDeferred(plan), db[plan.name][r])]]
  }

  lemma NulledStays(deferred: map<string, set<string>>, was: Db, plan: TablePlan, r: int, db: Db)
    requires PresentDb(deferred, was, db) && plan.name in db && r in db[plan.name] && PlanDeferred(plan) == deferred[plan.name]
    ensures PresentDb(deferred, was, NulledRow(plan, r, db))
    ensures NulledRow(plan, r, db)[plan.name][r] == Bare(PlanDeferred(plan), was[plan.name][r])
  {
    assert StagedRows(deferred[plan.name], was[plan.name], db[plan.name]);
    NulledRows(deferred[plan.name], was[plan.name], db[plan.name], r);
    hide Bare, PlanDeferred, StagedRows;
  }

  lemma NulledRows(deferred: set<string>, was: map<int, Cells>, rows: map<int, Cells>, r: int)
    requires StagedRows(deferred, was, rows) && r in rows
    ensures StagedRows(deferred, was, rows[r := Bare(deferred, rows[r])]) && Bare(deferred, rows[r]) == Bare(deferred, was[r])
  {
    BareTwice(deferred, was[r], rows[r]);
    hide Bare;
  }

  lemma BareTwice(deferred: set<string>, source: Cells, cells: Cells)
    requires Stage(deferred, source, cells)
    ensures Bare(deferred, cells) == Bare(deferred, source)
  {
  }

  lemma NullingGrows(ds: seq<Described>, plan: TablePlan, was: Db, start: Db, todo: set<int>, r: int, db: Db)
    requires Nulling(ds, plan, was, start, todo, db) && r in todo
    requires plan.name in DeferredMap(ds) && PlanDeferred(plan) == DeferredMap(ds)[plan.name]
    ensures Nulling(ds, plan, was, start, todo - {r}, NulledRow(plan, r, db))
  {
    NulledStays(DeferredMap(ds), was, plan, r, db);
    hide PresentDb, Bare, PlanDeferred, DeferredMap;
  }

  /** Setting one more row's deferred columns to `NULL` is not refused. */
  lemma NullStep(logic: Logic, ds: seq<Described>, plan: TablePlan, was: Db, start: Db, todo: set<int>, r: int, db: Db)
    requires Plannable(logic, ds) && Consistent(logic, ds, was) && Nulling(ds, plan, was, start, todo, db)
    requires r in todo && plan.name in DeferredMap(ds) && PlanDeferred(plan) == DeferredMap(ds)[plan.name]
    ensures plan.name in db && r in db[plan.name]
    ensures Nulling(ds, plan, was, start, todo - {r}, NulledRow(plan, r, db)) && Consistent(logic, ds, NulledRow(plan, r, db))
  {
    NullingGrows(ds, plan, was, start, todo, r, db);
    PresentIsConsistent(logic, ds, was, NulledRow(plan, r, db));
  }

  /** Deleting one more row of table `i` is not refused. */
  lemma DeleteStep(logic: Logic, ds: seq<Described>, order: seq<Described>, plans: seq<TablePlan>, was: Db, i: nat, r: int, db: Db)
    requires Planned(logic, ds, order, plans) && Consistent(logic, ds, was) && i < |plans|
    requires ClearedSoFar(ds, plans, was, i, db) && plans[i].name in db
    ensures var after := db[plans[i].name := db[plans[i].name] - {r}];
            ClearedSoFar(ds, plans, was, i, after) && Consistent(logic, ds, after)
  {
    PlanNamesDiffer(logic, ds, order, plans);
    DeletedStays(ds, plans, was, i, r, db);
    ClearedIsConsistent(logic, ds, order, plans, was, i, db[plans[i].name := db[plans[i].name] - {r}]);
  }

  lemma DeletedStays(ds: seq<Described>, plans: seq<TablePlan>, was: Db, i: nat, r: int, db: Db)
    requires i < |plans| && ClearedSoFar(ds, plans, was, i, db) && plans[i].name in db
    requires forall a, b :: 0 <= a < |plans| && 0 <= b < |plans| && a != b ==> plans[a].name != plans[b].name
    ensures ClearedSoFar(ds, plans, was, i, db[plans[i].name := db[plans[i].name] - {r}])
  {
    var after := db[plans[i].name := db[plans[i].name] - {r}];
    forall a | 0 <= a < i ensures Complete(was, after, plans[a].name) {
      assert Complete(was, db, plans[a].name);
    }
  }

  lemma PlanNamesDiffer(logic: Logic, ds: seq<Described>, order: seq<Described>, plans: seq<TablePlan>)
    requires Planned(logic, ds, order, plans)
    ensures forall a, b :: 0 <= a < |plans| && 0 <= b < |plans| && a != b ==> plans[a].name != plans[b].name
    ensures forall a :: 0 <= a < |plans| ==> plans[a].name in Names(ds)
    ensures forall name :: name in Names(ds) ==> exists a :: 0 <= a < |plans| && plans[a].name == name
  {
    LoadOrderIsSafe(ds, order);
    forall a, b | 0 <= a < b < |plans| ensures plans[a].name != plans[b].name {
      assert order[a].table.name != order[b].table.name;
    }
    forall a | 0 <= a < |plans| ensures plans[a].name in Names(ds) {
      TableNamedIs(ds, order[a]);
    }
    forall name | name in Names(ds) ensures exists a :: 0 <= a < |plans| && plans[a].name == name {
      var k := PlanOfTable(logic, ds, order, plans, TableNamed(ds, name));
    }
  }

  lemma NothingNulled(logic: Logic, ds: seq<Described>, plans: seq<TablePlan>, was: Db)
    requires Consistent(logic, ds, was)
    ensures NulledSoFar(ds, plans, was, 0, was)
  {
  }

  lemma NullingStarts(logic: Logic, ds: seq<Described>, order: seq<Described>, plans: seq<TablePlan>, was: Db, i: nat, db: Db)
    requires Planned(logic, ds, order, plans) && NulledSoFar(ds, plans, was, i, db) && i < |plans|
    ensures plans[i].name in db && plans[i].name in DeferredMap(ds) && PlanDeferred(plans[i]) == DeferredMap(ds)[plans[i].name]
    ensures Nulling(ds, plans[i], was, db, db[plans[i].name].Keys, db)
    ensures Plannable(logic, ds)
  {
    PlanDeferredIs(logic, ds, order, plans, i);
  }

  /** A table without deferred columns is bare as it is; the others keep what they had. */
  lemma NulledStep(logic: Logic, ds: seq<Described>, order: seq<Described>, plans: seq<TablePlan>, was: Db, i: nat, before: Db, db: Db)
    requires Planned(logic, ds, order, plans) && NulledSoFar(ds, plans, was, i, before) && i < |plans|
    requires if plans[i].deferred == [] then db == before else Nulling(ds, plans[i], was, before, {}, db)
    ensures NulledSoFar(ds, plans, was, i + 1, db)
  {
    PlanNamesDiffer(logic, ds, order, plans);
    PlanDeferredIs(logic, ds, order, plans, i);
    forall a | 0 <= a < i ensures NulledTable(ds, plans[a].name, was, db) {
      assert NulledTable(ds, plans[a].name, was, before);
    }
    assert NulledTable(ds, plans[i].name, was, db) by {
      if plans[i].deferred == [] {
        UndeferredIsBare(DeferredMap(ds), was, plans[i].name, db);
      }
    }
  }

  lemma UndeferredIsBare(deferred: map<string, set<string>>, was: Db, name: string, db: Db)
    requires PresentDb(deferred, was, db) && name in db && deferred[name] == {}
    ensures BareRows(deferred[name], was[name], db[name])
  {
    assert StagedRows(deferred[name], was[name], db[name]);
    forall r | r in db[name] ensures db[name][r] == Bare({}, was[name][r]) {
      assert Stage({}, was[name][r], db[name][r]) && Bare({}, was[name][r]) == was[name][r];
    }
  }

  lemma NulledIsBare(logic: Logic, ds: seq<Described>, order: seq<Described>, plans: seq<TablePlan>, was: Db, db: Db)
    requires Planned(logic, ds, order, plans) && NulledSoFar(ds, plans, was, |plans|, db)
    ensures ClearedSoFar(ds, plans, was, |plans| - 1, db)
  {
    PlanNamesDiffer(logic, ds, order, plans);
    forall name | name in db ensures BareRows(DeferredMap(ds)[name], was[name], db[name]) && db[name].Keys == was[name].Keys {
      var a :| 0 <= a < |plans| && plans[a].name == name;
      assert NulledTable(ds, plans[a].name, was, db);
    }
    forall a | 0 <= a < |plans| - 1 ensures Complete(was, db, plans[a].name) {
      assert NulledTable(ds, plans[a].name, was, db);
    }
  }

  lemma ClearedHas(logic: Logic, ds: seq<Described>, order: seq<Described>, plans: seq<TablePlan>, was: Db, i: nat, db: Db)
    requires Planned(logic, ds, order, plans) && i < |plans| && ClearedSoFar(ds, plans, was, i, db)
    ensures plans[i].name in db
  {
    PlanNamesDiffer(logic, ds, order, plans);
  }

  lemma ClearedNext(ds: seq<Described>, plans: seq<TablePlan>, was: Db, i: nat, db: Db)
    requires i < |plans| && ClearedSoFar(ds, plans, was, i, db) && plans[i].name in db && db[plans[i].name] == map[]
    ensures ClearedSoFar(ds, plans, was, i - 1, db)
  {
  }

  lemma ClearedIsEmpty(logic: Logic, ds: seq<Described>, order: seq<Described>, plans: seq<TablePlan>, was: Db, db: Db)
    requires Planned(logic, ds, order, plans) && ClearedSoFar(ds, plans, was, -1, db)
    ensures db.Keys == was.Keys && forall name :: name in db ==> db[name] == map[]
  {
    PlanNamesDiffer(logic, ds, order, plans);
  }

  // ----- from a planned schema

  lemma DescribedKeys(tables: seq<Table>, ds: seq<Described>)
    requires DescribesTables(tables, ds)
    ensures KeysSized(ds) && forall d :: d in ds ==> Some(d.keyset) == Keyset(d.table)
  {
    forall d | d in ds
      ensures Some(d.keyset) == Keyset(d.table)
      ensures forall j :: 0 <= j < |d.parents| ==> |d.parents[j].columns| == |d.parents[j].references| && |d.parents[j].columns| > 0
    {
      var i :| 0 <= i < |ds| && ds[i] == d;
      assert ds[i] == Describe(tables[i], ByName(tables));
    }
  }

  /** What `planOpsDump` accepted is what an import needs: only the faithfulness of the description is left to ask. */
  lemma PlanIsImportable(schema: seq<Table>, plans: seq<TablePlan>) returns (ds: seq<Described>, order: seq<Described>)
    requires PlanSpec(schema, Plan(plans))
    ensures DescribesTables(SortBy(TableOrder, schema), ds)
    ensures forall logic :: Faithful(logic, ds) ==> Planned(logic, ds, order, plans)
  {
    ds :| DescribesTables(SortBy(TableOrder, schema), ds) && PlanOfDescribed(ds, Plan(plans));
    DescribedTables(schema, ds);
    DescribedKeys(SortBy(TableOrder, schema), ds);
    KeysAreImplied(schema, ds);
    order :| IsLoadOrder(ds, order) && PlanInOrder(ds, order, Plan(plans));
    AllLoad(ds, order, plans);
  }

  lemma AllLoad(ds: seq<Described>, order: seq<Described>, plans: seq<TablePlan>)
    requires Describes(ds) && IsLoadOrder(ds, order) && Plans(ds, order, plans)
    ensures forall d :: d in ds ==> Loads(ds, d)
  {
    LoadOrderIsSafe(ds, order);
    forall d | d in ds ensures Loads(ds, d) {
      var k :| 0 <= k < |order| && order[k] == d;
      assert Loads(ds, order[k]);
    }
  }

  // ----- the statements

  /** SQLite visits the rows of a table in an order of its own. */
  method Any<T(==)>(s: set<T>) returns (x: T)
    requires s != {}
    ensures x in s
  {
    x :| x in s;
  }

  /** The object's database, as the importer's statements change it. */
  class Target {
    ghost const logic: Logic
    ghost const ds: seq<Described>
    var rows: Db
    /** Whether SQLite refused some statement's row write. */
    ghost var refused: bool

    constructor (ghost logic: Logic, ghost ds: seq<Described>, rows: Db)
      ensures this.logic == logic && this.ds == ds && this.rows == rows && !refused
    {
      this.logic := logic;
      this.ds := ds;
      this.rows := rows;
      refused := false;
    }

    /** `INSERT` of one bare row; `waits` says that linking will have something to write. */
    method InsertRow(plan: TablePlan, line: Line) returns (waits: bool)
      requires plan.name in rows
      modifies this
      ensures rows == Inserted(plan, line, old(rows))
      ensures refused <==> old(refused) || line.rowid in old(rows)[plan.name] || !Consistent(logic, ds, rows)
      ensures waits <==> exists i :: 0 <= i < |plan.columns| && plan.columns[i] != plan.keyset
                                     && plan.columns[i] in plan.deferred && ValueAt(line.values, i) != Null
    {
      var cells: Cells := map[];
      waits := false;
      for i := 0 to |plan.columns|
        invariant cells == InsertedCells(plan, line, i)
        invariant waits <==> exists j :: 0 <= j < i && plan.columns[j] != plan.keyset
                                         && plan.columns[j] in plan.deferred && ValueAt(line.values, j) != Null
      {
        var column := plan.columns[i];
        if column == plan.keyset {
          cells := cells[AsciiLower(column) := Integer(line.rowid)];
        } else {
          var value := ValueAt(line.values, i);
          var deferred := column in plan.deferred;
          waits := waits || (deferred && value != Null);
          cells := cells[AsciiLower(column) := if deferred then Null else value];
        }
      }
      refused := refused || line.rowid in rows[plan.name];
      rows := rows[plan.name := rows[plan.name][line.rowid := cells]];
      refused := refused || !Consistent(logic, ds, rows);
    }

    /** `UPDATE`: the deferred columns of one row, by its rowid; a row without one to set is passed over. */
    method LinkRow(plan: TablePlan, line: Line) returns (linked: bool)
      requires plan.name in rows
      modifies this
      ensures rows == Linked(plan, line, old(rows))
      ensures linked <==> Waits(plan, line)
      ensures refused <==> old(refused) || (linked && !Consistent(logic, ds, rows))
    {
      linked := false;
      for i := 0 to |plan.columns|
        invariant linked <==> exists j :: 0 <= j < i && plan.columns[j] in plan.deferred && ValueAt(line.values, j) != Null
      {
        linked := linked || (plan.columns[i] in plan.deferred && ValueAt(line.values, i) != Null);
      }
      if linked {
        if line.rowid in rows[plan.name] {
          var cells := rows[plan.name][line.rowid];
          for i := 0 to |plan.columns|
            invariant cells == LinkedCells(plan, line, rows[plan.name][line.rowid], i)
            invariant rows == old(rows) && refused == old(refused)
          {
            if plan.columns[i] in plan.deferred {
              cells := cells[AsciiLower(plan.columns[i]) := ValueAt(line.values, i)];
            }
          }
          rows := rows[plan.name := rows[plan.name][line.rowid := cells]];
        }
        refused := refused || !Consistent(logic, ds, rows);
      }
    }

    /** One table's deferred columns to `NULL`, row by row in any order. */
    method NullTable(plan: TablePlan, ghost was: Db)
      requires Plannable(logic, ds) && Consistent(logic, ds, was)
      requires plan.name in rows && plan.name in DeferredMap(ds) && PlanDeferred(plan) == DeferredMap(ds)[plan.name]
      requires Nulling(ds, plan, was, rows, rows[plan.name].Keys, rows)
      modifies this
      ensures refused == old(refused)
      ensures Nulling(ds, plan, was, old(rows), {}, rows)
    {
      hide *;
      ghost var start := rows;
      var todo := rows[plan.name].Keys;
      while todo != {}
        invariant refused == old(refused)
        invariant Nulling(ds, plan, was, start, todo, rows)
        decreases todo
      {
        var r := Any(todo);
        NullStep(logic, ds, plan, was, start, todo, r, rows);
        rows := NulledRow(plan, r, rows);
        refused := refused || !Consistent(logic, ds, rows);
        todo := todo - {r};
      }
    }

    /** One table's rows deleted, one by one in any order. */
    method DeleteTable(plans: seq<TablePlan>, i: nat, ghost order: seq<Described>, ghost was: Db)
      requires Planned(logic, ds, order, plans) && Consistent(logic, ds, was) && i < |plans|
      requires ClearedSoFar(ds, plans, was, i, rows) && plans[i].name in rows
      modifies this
      ensures refused == old(refused) && rows.Keys == old(rows).Keys
      ensures ClearedSoFar(ds, plans, was, i, rows) && rows[plans[i].name] == map[]
    {
      hide *;
      var name := plans[i].name;
      while rows[name].Keys != {}
        invariant refused == old(refused) && rows.Keys == old(rows).Keys
        invariant ClearedSoFar(ds, plans, was, i, rows)
        decreases rows[name].Keys
      {
        var r := Any(rows[name].Keys);
        DeleteStep(logic, ds, order, plans, was, i, r, rows);
        rows := rows[name := rows[name] - {r}];
        refused := refused || !Consistent(logic, ds, rows);
      }
    }

    /** `begin`: the deferred columns of every row to `NULL`, then the tables emptied last to first; no row write is refused. */
    method Clear(plans: seq<TablePlan>, ghost order: seq<Described>)
      requires Planned(logic, ds, order, plans) && Consistent(logic, ds, rows)
      modifies this
      ensures refused == old(refused)
      ensures rows.Keys == old(rows).Keys && forall name :: name in rows ==> rows[name] == map[]
    {
      ghost var was := rows;
      NullDeferred(plans, order);
      NulledIsBare(logic, ds, order, plans, was, rows);
      DeleteRows(plans, order, was);
      ClearedIsEmpty(logic, ds, order, plans, was, rows);
    }

    method NullDeferred(plans: seq<TablePlan>, ghost order: seq<Described>)
      requires Planned(logic, ds, order, plans) && Consistent(logic, ds, rows)
      modifies this
      ensures refused == old(refused) && NulledSoFar(ds, plans, old(rows), |plans|, rows)
    {
      hide *;
      ghost var was := rows;
      NothingNulled(logic, ds, plans, was);
      for i := 0 to |plans|
        invariant refused == old(refused) && NulledSoFar(ds, plans, was, i, rows)
      {
        ghost var before := rows;
        NullingStarts(logic, ds, order, plans, was, i, before);
        if plans[i].deferred != [] {
          NullTable(plans[i], was);
        }
        NulledStep(logic, ds, order, plans, was, i, before, rows);
      }
    }

    method DeleteRows(plans: seq<TablePlan>, ghost order: seq<Described>, ghost was: Db)
      requires Planned(logic, ds, order, plans) && Consistent(logic, ds, was) && ClearedSoFar(ds, plans, was, |plans| - 1, rows)
      modifies this
      ensures refused == old(refused) && ClearedSoFar(ds, plans, was, -1, rows)
    {
      hide ClearedSoFar, Consistent;
      for i := |plans| downto 0
        invariant refused == old(refused) && ClearedSoFar(ds, plans, was, i as int - 1, rows)
      {
        ClearedHas(logic, ds, order, plans, was, i, rows);
        DeleteTable(plans, i, order, was);
        ClearedNext(ds, plans, was, i, rows);
      }
    }

    /** Every part, in the order of the dump: no row write is refused, and every row is in. */
    method LoadParts(plans: seq<TablePlan>, lines: seq<Line>, ghost order: seq<Described>, ghost source: Db)
      requires Importable(logic, ds, order, plans, source) && IsDump(plans, source, lines)
      requires LoadedSoFar(ds, source, lines, 0, rows)
      modifies this
      ensures refused == old(refused)
      ensures LoadedSoFar(ds, source, lines, |lines|, rows)
    {
      var tables := PlansByName(plans);
      for i := 0 to |lines|
        invariant refused == old(refused)
        invariant LoadedSoFar(ds, source, lines, i, rows)
      {
        LoadStep(logic, ds, order, plans, source, lines, i, rows);
        var waits := InsertRow(tables[lines[i].table], lines[i]);
      }
    }

    /** The link pass over any rows of the dump, in any order: no row write is refused, and each visited row is whole. */
    method LinkParts(plans: seq<TablePlan>, links: seq<Line>, ghost order: seq<Described>, ghost source: Db)
      requires Importable(logic, ds, order, plans, source)
      requires forall i :: 0 <= i < |links| ==> IsLine(PlansByName(plans), source, links[i])
      requires LinkedSoFar(ds, source, links, 0, rows, rows)
      modifies this
      ensures refused == old(refused)
      ensures LinkedSoFar(ds, source, links, |links|, old(rows), rows)
    {
      var tables := PlansByName(plans);
      ghost var was := rows;
      hide IsLine, LinkedSoFar;
      for i := 0 to |links|
        invariant refused == old(refused)
        invariant LinkedSoFar(ds, source, links, i, was, rows)
      {
        LinkRowStep(logic, ds, order, plans, source, links, i, was, rows);
        var linked := LinkRow(tables[links[i].table], links[i]);
      }
    }

    /** The import: into an empty target, with every waiting row linked, the source arrives and no row write is refused. */
    method Import(plans: seq<TablePlan>, lines: seq<Line>, links: seq<Line>, ghost order: seq<Described>, ghost source: Db)
      requires Importable(logic, ds, order, plans, source) && IsDump(plans, source, lines)
      requires forall i :: 0 <= i < |links| ==> links[i] in lines
      requires forall i :: 0 <= i < |lines| && Waits(PlansByName(plans)[lines[i].table], lines[i]) ==> lines[i] in links
      requires rows.Keys == source.Keys && forall name :: name in rows ==> rows[name] == map[]
      modifies this
      ensures rows == source && refused == old(refused)
    {
      EmptyIsLoaded(logic, ds, source, lines, rows);
      LoadParts(plans, lines, order, source);
      AllLoaded(plans, DeferredMap(ds), source, lines, rows);
      ghost var loaded := rows;
      LinksAreLines(plans, source, lines, links);
      LinkParts(plans, links, order, source);
      EndsAsSource(logic, ds, order, plans, source, lines, links, loaded, rows);
    }

    /** Every step over a target that holds rows of its own: whatever they were, the source replaces them. */
    method Restore(plans: seq<TablePlan>, lines: seq<Line>, links: seq<Line>, ghost order: seq<Described>, ghost source: Db)
      requires Importable(logic, ds, order, plans, source) && IsDump(plans, source, lines)
      requires forall i :: 0 <= i < |links| ==> links[i] in lines
      requires forall i :: 0 <= i < |lines| && Waits(PlansByName(plans)[lines[i].table], lines[i]) ==> lines[i] in links
      requires Consistent(logic, ds, rows)
      modifies this
      ensures rows == source && refused == old(refused)
    {
      assert rows.Keys == source.Keys && Planned(logic, ds, order, plans);
      hide *;
      Clear(plans, order);
      Import(plans, lines, links, order, source);
    }
  }

  lemma LinksAreLines(plans: seq<TablePlan>, source: Db, lines: seq<Line>, links: seq<Line>)
    requires IsDump(plans, source, lines) && forall i :: 0 <= i < |links| ==> links[i] in lines
    ensures forall i :: 0 <= i < |links| ==> IsLine(PlansByName(plans), source, links[i])
  {
    forall i | 0 <= i < |links| ensures IsLine(PlansByName(plans), source, links[i]) {
      var j :| 0 <= j < |lines| && lines[j] == links[i];
    }
  }

  lemma EmptyIsLoaded(logic: Logic, ds: seq<Described>, source: Db, lines: seq<Line>, db: Db)
    requires Consistent(logic, ds, source)
    requires db.Keys == source.Keys && forall name :: name in db ==> db[name] == map[]
    ensures LoadedSoFar(ds, source, lines, 0, db)
  {
  }

  lemma EndsAsSource(logic: Logic, ds: seq<Described>, order: seq<Described>, plans: seq<TablePlan>, source: Db, lines: seq<Line>, links: seq<Line>,
      loaded: Db, db: Db)
    requires Importable(logic, ds, order, plans, source) && IsDump(plans, source, lines)
    requires forall i :: 0 <= i < |lines| && Waits(PlansByName(plans)[lines[i].table], lines[i]) ==> lines[i] in links
    requires LoadedSoFar(ds, source, lines, |lines|, loaded) && LinkedSoFar(ds, source, links, |links|, loaded, db)
    ensures db == source
  {
    forall name, r | name in source && r in source[name] ensures Whole(source, db, name, r) {
      RowEndsWhole(logic, ds, order, plans, source, lines, links, loaded, db, name, r);
    }
    AllWhole(DeferredMap(ds), source, db);
  }

  lemma AllWhole(deferred: map<string, set<string>>, source: Db, db: Db)
    requires PresentDb(deferred, source, db)
    requires forall name, r :: name in source && r in source[name] ==> Whole(source, db, name, r)
    ensures db == source
  {
    forall name | name in source ensures db[name] == source[name] {
      forall r | r in source[name] ensures db[name][r] == source[name][r] {
        assert Whole(source, db, name, r);
      }
    }
  }

  lemma RowEndsWhole(logic: Logic, ds: seq<Described>, order: seq<Described>, plans: seq<TablePlan>, source: Db, lines: seq<Line>, links: seq<Line>,
      loaded: Db, db: Db, name: string, r: int)
    requires Importable(logic, ds, order, plans, source) && IsDump(plans, source, lines)
    requires forall i :: 0 <= i < |lines| && Waits(PlansByName(plans)[lines[i].table], lines[i]) ==> lines[i] in links
    requires LoadedSoFar(ds, source, lines, |lines|, loaded) && LinkedSoFar(ds, source, links, |links|, loaded, db)
    requires name in source && r in source[name]
    ensures Whole(source, db, name, r)
  {
    assert HasRow(lines, |lines|, name, r);
    var i :| 0 <= i < |lines| && lines[i].table == name && lines[i].rowid == r;
    LineCarries(logic, ds, order, plans, source, lines[i]);
    var plan := PlansByName(plans)[name];
    if Waits(plan, lines[i]) {
      var j :| 0 <= j < |links| && links[j] == lines[i];
      assert Whole(source, db, links[j].table, links[j].rowid);
    } else {
      UnlinkedIsWhole(plan, DeferredMap(ds)[name], lines[i], source[name][r]);
      assert HasRow(lines, |lines|, name, r) <==> r in loaded[name];
      assert Whole(source, loaded, name, r);
    }
  }
}
