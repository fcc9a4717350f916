/** Inputs on which a query is not answered (src/optimizer/planner.cpp,
    src/execution/executor_nestedloop_join.h). */
module Witnesses {
  import opened Wrappers
  import opened Values
  import opened Plans
  import opened Planner
  import opened Delivery
  import opened PlanTrees

  function IntColumn(tab: string, name: string, offset: nat): ColMeta {
    ColMeta(tab, name, TypeInt, 4, offset, false)
  }

  // FROM a, b WHERE b.x = b.y.

  /** Table a has one row; table b has the one row x = 1, y = 2. */
  function TwoTables(): Database {
    Database(map["a" := [IntColumn("a", "z", 0)], "b" := [IntColumn("b", "x", 0), IntColumn("b", "y", 4)]],
             map["a" := [[0, 0, 0, 0]], "b" := [[1, 0, 0, 0, 2, 0, 0, 0]]])
  }

  function Misplaced(): Condition {
    Condition(TabCol("b", "x"), OpEq, false, TabCol("b", "y"), Value(TypeInt, []))
  }

  /** Table a is asked first and takes the condition. */
  function MisplacedPlan(): Plan {
    JoinPlan(ScanPlan("b", []), ScanPlan("a", Taken([Misplaced()], "a")), [])
  }

  lemma MisplacedTaken()
    ensures Taken([Misplaced()], "a") == [Misplaced()]
  {
    assert [Misplaced()][..0] == [];
  }

  lemma MisplacedIsPlan()
    ensures PlanFor(MisplacedPlan(), SetOf(["a", "b"]), [Misplaced()])
  {
    MisplacedTaken();
    var l, r := ScanPlan("b", []), ScanPlan("a", [Misplaced()]);
    assert Leaves(l) == {"b"} && Leaves(r) == {"a"};
    assert Classes([]) == multiset{};
    hide Class;
  }

  lemma ConditionChecked()
    ensures Checked(TwoTables(), Misplaced())
  {
    var b, c := TwoTables().cols["b"], Misplaced();
    assert b[1..][0] == IntColumn("b", "y", 4);
    assert GetCol(b, c.lhs) == Some(b[0]) && GetCol(b, c.rhs) == Some(b[1]);
  }

  lemma MisplacedServed()
    ensures QueryOk(["a", "b"], [Misplaced()]) && !OwnColumnsOnFirst(["a", "b"], [Misplaced()])
    ensures ServesQuery(TwoTables(), SetOf(["a", "b"]), [Misplaced()])
  {
    ConditionChecked();
    TablesOk();
    hide TableOk, Checked, TwoTables;
    assert Misplaced() in [Misplaced()];
  }

  lemma TablesOk()
    ensures TableOk(TwoTables(), "a") && TableOk(TwoTables(), "b")
  {
  }

  lemma MisplacedUnanswered()
    ensures NoAnswer(TwoTables(), SetOf(["a", "b"]), [Misplaced()])
  {
    var db, c := TwoTables(), Misplaced();
    var b := db.cols["b"];
    assert b[1..][0] == IntColumn("b", "y", 4);
    assert GetCol(b, c.lhs) == Some(b[0]) && GetCol(b, c.rhs) == Some(b[1]);
    forall a | InProduct(db, SetOf(["a", "b"]), a) ensures !AllHold(db, a, [c]) {
      assert "b" in SetOf(["a", "b"]) && a["b"] == 0;
      var rec := db.rows["b"][0];
      assert Cell(db, a, c.lhs) == Some((b[0], rec[0..])) && Cell(db, a, c.rhs) == Some((b[1], rec[4..]));
      assert !Holds(db, a, c);
    }
  }

  lemma ScanOfOne(db: Database, tab: string, conds: seq<Condition>, clean: bool)
    requires Size(db, tab) == 1
    ensures Yield(db, ScanPlan(tab, conds), clean)
         == Pass(RowJudge(db, map[tab := 0], conds), map[tab := 0], NOTHING)
  {
  }

  /** The query has no answer, and the plan throws instead of saying so: table b has a row, so table a is
      opened, and its first row meets a condition on columns it does not have. */
  lemma MisplacedConditionThrows(clean: bool)
    ensures QueryOk(["a", "b"], [Misplaced()]) && !OwnColumnsOnFirst(["a", "b"], [Misplaced()])
    ensures ServesQuery(TwoTables(), SetOf(["a", "b"]), [Misplaced()])
    ensures PlanFor(MisplacedPlan(), SetOf(["a", "b"]), [Misplaced()])
    ensures NoAnswer(TwoTables(), SetOf(["a", "b"]), [Misplaced()])
    ensures Yield(TwoTables(), MisplacedPlan(), clean) == Outcome([], true)
  {
    MisplacedServed();
    MisplacedIsPlan();
    MisplacedUnanswered();
    MisplacedTaken();
    hide QueryOk, ServesQuery, PlanFor, NoAnswer, OwnColumnsOnFirst, Taken;
    var db, c := TwoTables(), Misplaced();
    ScanOfOne(db, "b", [], clean);
    ScanOfOne(db, "a", [c], clean);
    NoCell(db, map["a" := 0], c.lhs);
    hide TwoTables;
    assert RowJudge(db, map["a" := 0], [c]) == None;
  }

  // FROM a WHERE b.x = 1.

  function Foreign(): Condition {
    Condition(TabCol("b", "x"), OpEq, true, TabCol("", ""), Value(TypeInt, [1, 0, 0, 0]))
  }

  /** The condition is about a table that the FROM list does not have. It passes the analyzer and is dropped: the
      plan is the bare scan, and over the two tables above it delivers a row that does not satisfy it. */
  lemma ForeignConditionDropped()
    ensures QueryOk(["a"], [Foreign()]) && !AllInScope(["a"], [Foreign()])
    ensures Attaching(["a"], [Foreign()]) == []
    ensures !PlanFor(ScanPlan("a", []), SetOf(["a"]), [Foreign()])
    ensures Yield(TwoTables(), ScanPlan("a", []), false) == Outcome([map["a" := 0]], false)
    ensures !AllHold(TwoTables(), map["a" := 0], [Foreign()])
  {
    var db, c := TwoTables(), Foreign();
    assert c in [c] && [c][..0] == [];
    ScanOfOne(db, "a", [], false);
    NoCell(db, map["a" := 0], c.lhs);
    ClassesOne(c);
    hide TwoTables;
    assert Class(c) in Classes([c]) && Class(c) !in Classes([]);
    assert [map["a" := 0]] + [] == [map["a" := 0]];
  }

  // FROM a, b, c.

  /** Tables a and b have one row, table c has two. */
  function ThreeTables(): Database {
    Database(map["a" := [IntColumn("a", "x", 0)], "b" := [IntColumn("b", "x", 0)], "c" := [IntColumn("c", "x", 0)]],
             map["a" := [[0, 0, 0, 0]], "b" := [[0, 0, 0, 0]], "c" := [[0, 0, 0, 0], [1, 0, 0, 0]]])
  }

  function RightDeepPlan(): Plan {
    JoinPlan(ScanPlan("c", []), JoinPlan(ScanPlan("b", []), ScanPlan("a", []), []), [])
  }

  lemma PairOfOne(db: Database, l: Row, r: Row)
    ensures Pair(db, l, Outcome([r], false), []) == Outcome([l + r], false)
  {
    var rest := Outcome([r], false).(rows := [r][1..]);
    assert rest == NOTHING;
  }

  lemma NestOfOne(db: Database, l: Row, r: Row, again: Outcome)
    ensures Nest(db, Outcome([l], false), Outcome([r], false), again, []) == Outcome([l + r], false)
  {
    PairOfOne(db, l, r);
    assert [l][1..] == [] && [l + r] + [] == [l + r];
  }

  lemma InnerYields(db: Database, clean: bool)
    requires Size(db, "a") == 1 && Size(db, "b") == 1
    ensures Yield(db, RightDeepPlan().right, clean) == Outcome([map["b" := 0, "a" := 0]], false)
  {
    var a: Row, b: Row := map["a" := 0], map["b" := 0];
    ScanOfOne(db, "a", [], clean);
    ScanOfOne(db, "b", [], clean);
    assert [a] + [] == [a] && [b] + [] == [b];
    NestOfOne(db, b, a, Yield(db, ScanPlan("a", []), clean));
    assert b + a == map["b" := 0, "a" := 0];
  }

  lemma OuterYields(db: Database)
    requires Size(db, "c") == 2
    ensures ScanYield(db, "c", [], 0, 2) == Outcome([map["c" := 0], map["c" := 1]], false)
  {
    var c0: Row, c1: Row := map["c" := 0], map["c" := 1];
    assert ScanYield(db, "c", [], 1, 2) == Outcome([c1] + [], false);
    assert [c1] + [] == [c1] && [c0] + [c1] == [c0, c1];
  }

  lemma NestOfTwo(db: Database, l0: Row, l1: Row, r: Row, again: Outcome)
    requires again == Outcome([r], false) || again == NOTHING
    ensures Nest(db, Outcome([l0, l1], false), Outcome([r], false), again, [])
         == if again == NOTHING then Outcome([l0 + r], false) else Outcome([l0 + r, l1 + r], false)
  {
    var rest := Outcome([l0, l1], false).(rows := [l0, l1][1..]);
    assert rest == Outcome([l1], false);
    PairOfOne(db, l0, r);
    if again == NOTHING {
      assert Outcome([l1], false).(rows := [l1][1..]) == NOTHING;
      assert Nest(db, rest, NOTHING, NOTHING, []) == NOTHING;
      assert [l0 + r] + [] == [l0 + r];
    } else {
      NestOfOne(db, l1, r, again);
      assert [l0 + r] + [l1 + r] == [l0 + r, l1 + r];
    }
  }

  /** The join of a and b has ended after the first row of c and delivers nothing for the second. */
  lemma EndedJoinLosesRow()
    ensures
      var row0, row1 := map["c" := 0, "b" := 0, "a" := 0], map["c" := 1, "b" := 0, "a" := 0];
      && Yield(ThreeTables(), RightDeepPlan(), true) == Outcome([row0, row1], false)
      && Yield(ThreeTables(), RightDeepPlan(), false) == Outcome([row0], false)
  {
    var db := ThreeTables();
    var ab: Row, c0: Row, c1: Row := map["b" := 0, "a" := 0], map["c" := 0], map["c" := 1];
    OuterYields(db);
    assert Size(db, "c") == 2;
    assert c0 + ab == map["c" := 0, "b" := 0, "a" := 0] && c1 + ab == map["c" := 1, "b" := 0, "a" := 0];
    InnerYields(db, true);
    InnerYields(db, false);
    hide ThreeTables, Nest, ScanYield;
    NestOfTwo(db, c0, c1, ab, Outcome([ab], false));
    NestOfTwo(db, c0, c1, ab, NOTHING);
  }
}
