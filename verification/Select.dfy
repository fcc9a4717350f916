/** A SELECT from the planner to its rows: build the executors of the plan, project, and take row after
    row (src/portal.h, src/execution/execution_manager.cpp, src/execution/executor_projection.h). */
module Select {
  import opened Values
  import opened HeapFile
  import opened Plans
  import opened Delivery
  import opened Join
  import opened Executors
  import opened Projection
  import opened PlanTrees
  import opened PlanOrder
  import opened QueryPlanner

  // Building the executors.

  /** What the catalog knows of a table. */
  datatype Table = Table(file: RmFileHandle, cols: seq<ColMeta>)

  ghost function FilesOf(tables: map<string, Table>): set<object> {
    set tab | tab in tables :: tables[tab].file
  }

  ghost predicate CatalogOk(db: Database, tables: map<string, Table>, names: set<string>)
    reads FilesOf(tables)
  {
    forall tab :: tab in names ==>
      tab in tables && tables[tab].file in FilesOf(tables)
      && tab in db.cols && tables[tab].cols == db.cols[tab] && TableFile(db, tab, tables[tab].file.Abs())
  }

  /** convert_plan_executor. */
  method Convert(node: PlanNode, tables: map<string, Table>, ghost db: Database) returns (e: Executor)
    requires node.Valid() && Distinct(node.Tree()) && JoinsOriented(node.Tree()) && Served(db, node.Tree())
    requires CatalogOk(db, tables, Leaves(node.Tree()))
    ensures e.Wired() && !e.begun && !e.isend && fresh(e.repr)
    ensures e.db == db && e.plan == node.Tree() && e.files <= FilesOf(tables)
    decreases node.repr
  {
    hide TableFile, TableOk, Served, Distinct, JoinsOriented, Leaves, CatalogOk, node.Tree, node.Valid, AllChecked;
    hide e.Wired, e.Leaf, e.Parts, Yield;
    if node.left == null {
      LeafNode(node, tables, db);
      e := new Executor.Scan(db, node.tab, node.conds, tables[node.tab].file, tables[node.tab].cols);
    } else {
      JoinNode(node, tables, db);
      var left := Convert(node.left, tables, db);
      var right := Convert(node.right, tables, db);
      e := new Executor.Join(left, right, node.conds);
    }
  }

  lemma LeafNode(node: PlanNode, tables: map<string, Table>, db: Database)
    requires node.Valid() && node.left == null && Served(db, node.Tree())
    requires CatalogOk(db, tables, Leaves(node.Tree()))
    ensures node.Tree() == ScanPlan(node.tab, node.conds) && AllChecked(db, node.conds)
    ensures node.tab in tables && node.tab in db.cols && tables[node.tab].cols == db.cols[node.tab]
    ensures TableFile(db, node.tab, tables[node.tab].file.Abs())
    ensures tables[node.tab].file in FilesOf(tables)
  {
    hide TableFile, TableOk;
    assert node.tab in Leaves(node.Tree());
  }

  lemma JoinNode(node: PlanNode, tables: map<string, Table>, db: Database)
    requires node.Valid() && node.left != null
    requires Distinct(node.Tree()) && JoinsOriented(node.Tree()) && Served(db, node.Tree())
    requires CatalogOk(db, tables, Leaves(node.Tree()))
    ensures node.right != null && node.left.Valid() && node.right.Valid()
    ensures node.left.repr < node.repr && node.right.repr < node.repr
    ensures node.Tree() == JoinPlan(node.left.Tree(), node.right.Tree(), node.conds)
    ensures Distinct(node.left.Tree()) && JoinsOriented(node.left.Tree()) && Served(db, node.left.Tree())
    ensures Distinct(node.right.Tree()) && JoinsOriented(node.right.Tree()) && Served(db, node.right.Tree())
    ensures CatalogOk(db, tables, Leaves(node.left.Tree())) && CatalogOk(db, tables, Leaves(node.right.Tree()))
  {
    hide TableFile, TableOk, CatalogOk;
    PartsCatalog(db, tables, node.Tree());
  }

  lemma PartsCatalog(db: Database, tables: map<string, Table>, t: Plan)
    requires t.JoinPlan? && CatalogOk(db, tables, Leaves(t))
    ensures CatalogOk(db, tables, Leaves(t.left)) && CatalogOk(db, tables, Leaves(t.right))
  {
    hide CatalogOk;
    assert Leaves(t) == Leaves(t.left) + Leaves(t.right);
    FewerTables(db, tables, Leaves(t), Leaves(t.left));
    FewerTables(db, tables, Leaves(t), Leaves(t.right));
  }

  lemma FewerTables(db: Database, tables: map<string, Table>, names: set<string>, some: set<string>)
    requires CatalogOk(db, tables, names) && some <= names
    ensures CatalogOk(db, tables, some)
  {
    hide TableFile;
  }

  // Taking the rows.

  /** Every selected column is a column of some table of the plan. */
  predicate Selectable(db: Database, t: Plan, sel: seq<TabCol>) {
    forall name :: name in sel ==> name.tab in Leaves(t) && Found(db, name)
  }

  /** The projected record shows, under each selected name, the bytes of that column in the row. */
  ghost predicate ShowsRow(db: Database, t: Plan, sel: seq<TabCol>, cols: seq<ColMeta>, rec: Record, a: Row) {
    && Served(db, t) && HasRow(db, t, a)
    && forall name :: name in sel && name.tab in Leaves(t) && Found(db, name) ==>
         Shows(rec, cols, name, ColumnOf(db, name), db.rows[name.tab][a[name.tab]])
  }

  ghost predicate ShowsRows(db: Database, t: Plan, sel: seq<TabCol>, cols: seq<ColMeta>, recs: seq<Record>,
                            rows: seq<Row>) {
    |recs| == |rows| && forall k :: 0 <= k < |recs| ==> ShowsRow(db, t, sel, cols, recs[k], rows[k])
  }

  lemma SelectableIff(db: Database, t: Plan, sel: seq<TabCol>)
    requires Served(db, t)
    ensures Selectable(db, t, sel) <==> forall name :: name in sel ==> GetCol(ColsOf(db, t), name).Some?
  {
    forall name | name in sel ensures GetCol(ColsOf(db, t), name).Some? <==> name.tab in Leaves(t) && Found(db, name) {
      ColumnPresent(db, t, name);
    }
  }

  /** The projection of a row's record shows the row. */
  lemma ProjectedShows(db: Database, t: Plan, sel: seq<TabCol>, l: Layout, a: Row, rec: Record)
    requires Distinct(t) && Served(db, t) && HasRow(db, t, a)
    requires LaidOut(ColsOf(db, t), sel, l) && |rec| == l.len && AllFit(ColsOf(db, t), |BytesOf(db, t, a)|)
    requires Copied(ColsOf(db, t), sel, l, BytesOf(db, t, a), rec, |sel|)
    ensures ShowsRow(db, t, sel, l.cols, rec, a)
  {
    forall name | name in sel && name.tab in Leaves(t) && Found(db, name)
      ensures Shows(rec, l.cols, name, ColumnOf(db, name), db.rows[name.tab][a[name.tab]])
    {
      ColumnReads(db, t, a, name);
      SelectedColumnReads(ColsOf(db, t), sel, l, BytesOf(db, t, a), rec, name);
      hide BytesOf, ColsOf, HasRow, LaidOut, Copied, Field;
    }
  }

  lemma ShowsNone(db: Database, t: Plan, sel: seq<TabCol>, cols: seq<ColMeta>)
    ensures ShowsRows(db, t, sel, cols, [], [])
  {
  }

  lemma ShowsCount(db: Database, t: Plan, sel: seq<TabCol>, cols: seq<ColMeta>, recs: seq<Record>, rows: seq<Row>)
    requires ShowsRows(db, t, sel, cols, recs, rows)
    ensures |recs| == |rows|
  {
  }

  lemma ShowsNext(db: Database, t: Plan, sel: seq<TabCol>, cols: seq<ColMeta>,
                  recs: seq<Record>, rows: seq<Row>, rec: Record, a: Row)
    requires ShowsRows(db, t, sel, cols, recs, rows) && ShowsRow(db, t, sel, cols, rec, a)
    ensures ShowsRows(db, t, sel, cols, recs + [rec], rows + [a])
  {
    hide ShowsRow;
  }

  /** One row through the projection. */
  method ProjectRow(root: Executor, projection: ProjectionExecutor) returns (rec: Record)
    requires root.Positioned() && root.ahead.rows != []
    requires projection.Valid() && projection.prevCols == root.cols
    ensures ShowsRow(root.db, root.plan, projection.sel, projection.layout.cols, rec, root.ahead.rows[0])
  {
    hide *;
    root.Stays();
    root.Shape();
    ColsFit(root.db, root.plan);
    var prevRec := root.Next();
    rec := projection.Next(prevRec);
    Projected(projection, prevRec, rec);
    ProjectedShows(root.db, root.plan, projection.sel, projection.layout, root.ahead.rows[0], rec);
  }

  lemma Projected(projection: ProjectionExecutor, prevRec: Record, rec: Record)
    requires projection.Valid()
    ensures LaidOut(projection.prevCols, projection.sel, projection.layout)
  {
  }

  /** QlManager::select_from: begin, then project and take each row until the end or an exception. The rows
      are those the executors deliver. They are all the plan's if and only if the root is new, or a scan,
      or there are none: a join that has ended delivers nothing again. */
  method SelectFrom(root: Executor, projection: ProjectionExecutor) returns (thrown: bool, recs: seq<Record>)
    requires root.Wired() && root.CanBegin() && projection.Valid() && projection.prevCols == root.cols
    modifies root.repr
    ensures
      var o := old(root.Fresh());
      && thrown == o.thrown
      && ShowsRows(root.db, root.plan, projection.sel, projection.layout.cols, recs, o.rows)
    ensures
      var y := Yield(root.db, root.plan, false);
      thrown == y.thrown && |recs| == |y.rows| <==> !old(root.isend) || y.rows == []
  {
    hide *;
    recs := [];
    ghost var o: Outcome, rows: seq<Row> := root.Fresh(), [];
    FreshCounts(root);
    ShowsNone(root.db, root.plan, projection.sel, projection.layout.cols);
    TakenNone(o);
    var ok := root.BeginTuple();
    if !ok {
      TakenAll(o, rows, o);
      thrown := true;
      return;
    }
    var end := root.IsEnd();
    while !end
      invariant root.Positioned() && (end <==> root.ahead.rows == []) && fresh(root.repr - old(root.repr))
      invariant Taken(o, rows, root.ahead)
      invariant ShowsRows(root.db, root.plan, projection.sel, projection.layout.cols, recs, rows)
      decreases |root.ahead.rows|
    {
      ghost var a, rest := root.ahead.rows[0], root.ahead.(rows := root.ahead.rows[1..]);
      TakenNext(o, rows, root.ahead);
      var rec := ProjectRow(root, projection);
      ShowsNext(root.db, root.plan, projection.sel, projection.layout.cols, recs, rows, rec, a);
      recs := recs + [rec];
      rows := rows + [a];
      ok := root.NextTuple();
      if !ok {
        TakenAll(o, rows, rest);
        ShowsCount(root.db, root.plan, projection.sel, projection.layout.cols, recs, rows);
        thrown := true;
        return;
      }
      end := root.IsEnd();
    }
    root.EndCanBegin();
    TakenAll(o, rows, root.ahead);
    ShowsCount(root.db, root.plan, projection.sel, projection.layout.cols, recs, rows);
    thrown := false;
  }

  /** Of outcome `o`, the rows taken and the outcome still ahead. */
  ghost predicate Taken(o: Outcome, rows: seq<Row>, ahead: Outcome) {
    o.rows == rows + ahead.rows && o.thrown == ahead.thrown
  }

  lemma TakenNone(o: Outcome)
    ensures Taken(o, [], o)
  {
    assert [] + o.rows == o.rows;
  }

  lemma TakenNext(o: Outcome, rows: seq<Row>, ahead: Outcome)
    requires Taken(o, rows, ahead) && ahead.rows != []
    ensures Taken(o, rows + [ahead.rows[0]], ahead.(rows := ahead.rows[1..]))
  {
    assert ahead.rows == [ahead.rows[0]] + ahead.rows[1..];
  }

  lemma TakenAll(o: Outcome, rows: seq<Row>, ahead: Outcome)
    requires Taken(o, rows, ahead) && ahead.rows == []
    ensures o == Outcome(rows, ahead.thrown)
  {
    assert rows + [] == rows;
  }

  /** What a pass delivers is all of the plan's rows if and only if the executor has not ended before, or
      there are none. */
  lemma FreshCounts(root: Executor)
    requires root.Wired()
    ensures
      var o, y := root.Fresh(), Yield(root.db, root.plan, false);
      o.thrown == y.thrown && |o.rows| == |y.rows| <==> !root.isend || y.rows == []
  {
  }

  // A whole statement.

  /** What SELECT gives back: records laid out as `cols`, and whether an exception ended them. */
  datatype Answer = Answer(cols: seq<ColMeta>, recs: seq<Record>, thrown: bool)

  lemma Executable(db: Database, t: Plan, tables: seq<string>, conds: seq<Condition>)
    requires tables != [] && Planned(t, tables, conds) && ServesQuery(db, SetOf(tables), conds)
    ensures Distinct(t) && JoinsOriented(t) && Served(db, t) && Leaves(t) == SetOf(tables)
  {
    PlanServes(db, t, SetOf(tables), conds);
    PlanParts(t, SetOf(tables), conds);
  }

  lemma TablesThere(tables: seq<string>, conds: seq<Condition>)
    requires QueryOk(tables, conds)
    ensures tables != []
  {
  }

  /** Portal::start: make the plan, its executors and the projection above them. Null if the projection throws
      because a selected column is not among the tables' columns. */
  method StartSelect(tables: seq<string>, conds: seq<Condition>, sel: seq<TabCol>,
                     catalog: map<string, Table>, ghost db: Database)
    returns (root: Executor, projection: ProjectionExecutor?, ghost t: Plan)
    requires QueryOk(tables, conds) && (|tables| == 1 || AllInScope(tables, conds))
    requires ServesQuery(db, SetOf(tables), Attaching(tables, conds)) && CatalogOk(db, catalog, SetOf(tables))
    ensures Planned(t, tables, Attaching(tables, conds))
    ensures Blocks(t) == BlocksFor(tables, conds) && LeavesTook(tables, conds, t)
    ensures root.Wired() && root.CanBegin() && fresh(root.repr) && root.db == db && root.plan == t
    ensures !root.isend && root.Fresh() == Yield(db, t, false)
    ensures projection != null <==> Selectable(db, t, sel)
    ensures projection != null ==> projection.Valid() && projection.prevCols == root.cols && projection.sel == sel
  {
    hide CatalogOk, TableFile, QueryOk, ServesQuery, PlanFor, Planned, SetOf, AllInScope, Attaching;
    hide Distinct, JoinsOriented, Served, Leaves, ColsOf, Yield, Selectable, LaidOut, Blocks, BlocksFor, LeavesTook;
    ghost var files := FilesOf(catalog);  // allocated before the calls that follow
    var node := MakeOneRel(tables, conds);
    assert CatalogOk(db, catalog, SetOf(tables));
    hide *;
    t := node.Tree();
    TablesThere(tables, conds);
    Executable(db, t, tables, Attaching(tables, conds));
    root := Convert(node, catalog, db);
    root.Shape();
    root.Unbegun();
    SelectableIff(db, t, sel);
    var laid := LayOut(root.cols, sel);
    if laid.Err? {
      return root, null, t;
    }
    projection := new ProjectionExecutor(root.cols, sel, laid.value);
  }

  /** SELECT: plan, build, take the rows. A selected column of no table in the FROM list throws before any row. If
      there is none, the records show the rows delivered, and what those are and whether an exception ends them
      is as the guard on same-table conditions decides (PlanTrees.Decided). With one table, conditions that it
      does not take are dropped. */
  method RunSelect(tables: seq<string>, conds: seq<Condition>, sel: seq<TabCol>,
                   catalog: map<string, Table>, ghost db: Database)
    returns (answer: Answer, ghost t: Plan, ghost rows: seq<Row>)
    requires QueryOk(tables, conds) && (|tables| == 1 || AllInScope(tables, conds))
    requires ServesQuery(db, SetOf(tables), Attaching(tables, conds)) && CatalogOk(db, catalog, SetOf(tables))
    ensures Planned(t, tables, Attaching(tables, conds))
    ensures Blocks(t) == BlocksFor(tables, conds) && LeavesTook(tables, conds, t)
    ensures !Selectable(db, t, sel) ==> answer.thrown && answer.recs == []
    ensures Selectable(db, t, sel) ==>
      && ShowsRows(db, t, sel, answer.cols, answer.recs, rows)
      && Yield(db, t, false) == Outcome(rows, answer.thrown)
      && Decided(db, t, tables, Attaching(tables, conds), Outcome(rows, answer.thrown))
  {
    hide *;
    var root, projection;
    root, projection, t := StartSelect(tables, conds, sel, catalog, db);
    TablesThere(tables, conds);
    DecidedByGuard(db, t, tables, Attaching(tables, conds));
    rows := Yield(db, t, false).rows;
    if projection == null {
      answer := Answer([], [], true);
      return;
    }
    var thrown, recs := SelectFrom(root, projection);
    answer := Answer(projection.layout.cols, recs, thrown);
    assert Yield(db, t, false) == Outcome(rows, thrown);
  }
}
