/** What a tree of executors delivers, and when it throws: conditions in order, the left child first, the
    right child only for a left row (src/execution/executor_seq_scan.h,
    src/execution/executor_nestedloop_join.h, src/execution/executor_abstract.h). */
module Delivery {
  import opened Wrappers
  import opened Values
  import opened Plans

  // Conditions on a row.

  /** Both operands can be looked up; if not, get_col throws ColumnNotFoundError. */
  predicate Readable(db: Database, a: Row, c: Condition) {
    Cell(db, a, c.lhs).Some? && (c.rhsIsVal || Cell(db, a, c.rhs).Some?)
  }

  /** The conditions in order, up to the first that is false. None if one of them throws. */
  function RowJudge(db: Database, a: Row, conds: seq<Condition>): Option<bool> {
    if conds == [] then Some(true)
    else if !Readable(db, a, conds[0]) then None
    else if !Holds(db, a, conds[0]) then Some(false)
    else RowJudge(db, a, conds[1..])
  }

  lemma {:induction false} RowJudgeReadable(db: Database, a: Row, conds: seq<Condition>)
    requires forall c :: c in conds ==> Readable(db, a, c)
    ensures RowJudge(db, a, conds) == Some(AllHold(db, a, conds))
  {
    if conds == [] {
    } else {
      RowJudgeReadable(db, a, conds[1..]);
      assert forall c :: c in conds <==> c == conds[0] || c in conds[1..];
    }
  }

  // Outcomes.

  /** The rows delivered, and whether an exception ends them. */
  datatype Outcome = Outcome(rows: seq<Row>, thrown: bool)

  const NOTHING: Outcome := Outcome([], false)

  function Append(first: Outcome, rest: Outcome): Outcome {
    if first.thrown then first else Outcome(first.rows + rest.rows, rest.thrown)
  }

  /** One row that a condition list lets through, stops or throws at, then the rest. */
  function Pass(verdict: Option<bool>, a: Row, rest: Outcome): Outcome {
    match verdict
    case None => Outcome([], true)
    case Some(ok) => if ok then rest.(rows := [a] + rest.rows) else rest
  }

  function ScanYield(db: Database, tab: string, conds: seq<Condition>, i: nat, n: nat): Outcome
    requires i <= n
    decreases n - i
  {
    if i == n then NOTHING
    else Pass(RowJudge(db, map[tab := i], conds), map[tab := i], ScanYield(db, tab, conds, i + 1, n))
  }

  /** One left row against what the right child delivers. */
  function Pair(db: Database, l: Row, ro: Outcome, conds: seq<Condition>): Outcome
    decreases |ro.rows|
  {
    if ro.rows == [] then ro
    else Pass(RowJudge(db, l + ro.rows[0], conds), l + ro.rows[0], Pair(db, l, ro.(rows := ro.rows[1..]), conds))
  }

  /** The nested loop: `ro` is what the right child still delivers for the first left row, `again` what it
      delivers each time it is restarted. */
  function Nest(db: Database, lo: Outcome, ro: Outcome, again: Outcome, conds: seq<Condition>): Outcome
    decreases |lo.rows|
  {
    if lo.rows == [] then lo
    else Append(Pair(db, lo.rows[0], ro, conds), Nest(db, lo.(rows := lo.rows[1..]), again, again, conds))
  }

  /** What a right child delivers when it is restarted after its end: a scan starts over, while a join has
      `isend` set and delivers nothing. With `clean` set, every child would start over. */
  function Again(right: Plan, ro: Outcome, clean: bool): Outcome {
    if right.JoinPlan? && !clean then NOTHING else ro
  }

  /** What the executors of a plan deliver. */
  function Yield(db: Database, t: Plan, clean: bool): Outcome {
    match t
    case ScanPlan(tab, conds) => ScanYield(db, tab, conds, 0, Size(db, tab))
    case JoinPlan(l, r, conds) =>
      var ro := Yield(db, r, clean);
      Nest(db, Yield(db, l, clean), ro, Again(r, ro, clean), conds)
  }

  // Databases and conditions as the catalog and the analyzer leave them.

  /** tupleLen of a table scan. */
  function TupleLen(cols: seq<ColMeta>): nat
    requires cols != []
  {
    cols[|cols| - 1].offset + cols[|cols| - 1].len
  }

  predicate TableOk(db: Database, tab: string) {
    && tab in db.cols && tab in db.rows && db.cols[tab] != []
    && (forall col :: col in db.cols[tab] ==> col.tab == tab)
    && AllFit(db.cols[tab], TupleLen(db.cols[tab]))
    && forall rec :: rec in db.rows[tab] ==> |rec| == TupleLen(db.cols[tab])
  }

  predicate Found(db: Database, name: TabCol) {
    name.tab in db.cols && GetCol(db.cols[name.tab], name).Some?
  }

  function ColumnOf(db: Database, name: TabCol): ColMeta
    requires Found(db, name)
  {
    GetCol(db.cols[name.tab], name).value
  }

  /** check_clause: the columns exist and their types agree. That their lengths agree too is asked here. */
  predicate Checked(db: Database, c: Condition) {
    Found(db, c.lhs) &&
    var l := ColumnOf(db, c.lhs);
    if c.rhsIsVal then c.val.colType == l.colType && Raw(c.val, l.len).Some?
    else Found(db, c.rhs) && ColumnOf(db, c.rhs).colType == l.colType && ColumnOf(db, c.rhs).len == l.len
  }

  predicate AllChecked(db: Database, conds: seq<Condition>) {
    forall c :: c in conds ==> Checked(db, c)
  }

  /** The tables of a plan are well formed and its conditions are checked. */
  predicate Served(db: Database, t: Plan) {
    AllChecked(db, t.conds) &&
    match t
    case ScanPlan(tab, _) => TableOk(db, tab)
    case JoinPlan(l, r, _) => Served(db, l) && Served(db, r)
  }

  ghost predicate ServesQuery(db: Database, tables: set<string>, conds: seq<Condition>) {
    AllChecked(db, conds) && forall tab :: tab in tables ==> TableOk(db, tab)
  }

  lemma CellFound(db: Database, a: Row, name: TabCol)
    requires Found(db, name) && TableOk(db, name.tab)
    requires name.tab in a ==> a[name.tab] < |db.rows[name.tab]|
    ensures Cell(db, a, name).Some? <==> name.tab in a
    ensures name.tab in a ==>
              Cell(db, a, name).value
              == (ColumnOf(db, name), db.rows[name.tab][a[name.tab]][ColumnOf(db, name).offset..])
  {
    if name.tab in a {
      assert db.rows[name.tab][a[name.tab]] in db.rows[name.tab];
    }
  }

  lemma NoCell(db: Database, a: Row, name: TabCol)
    requires name.tab !in a
    ensures Cell(db, a, name) == None
  {
  }

  /** In a row over good tables a checked condition can be read if and only if its tables are in the row. */
  lemma ReadableIff(db: Database, a: Row, c: Condition)
    requires InProduct(db, a.Keys, a) && (forall tab :: tab in a ==> TableOk(db, tab)) && Checked(db, c)
    ensures Readable(db, a, c) <==> c.lhs.tab in a && (c.rhsIsVal || c.rhs.tab in a)
  {
    if c.lhs.tab in a {
      CellFound(db, a, c.lhs);
    }
    if !c.rhsIsVal && c.rhs.tab in a {
      CellFound(db, a, c.rhs);
    }
  }

  // Leaves.

  /** The position of the first condition that is not about the leaf's own table. */
  function FirstForeign(conds: seq<Condition>, tab: string): (k: nat)
    ensures k <= |conds| && forall j :: 0 <= j < k ==> OwnCondition(conds[j], tab)
    ensures k < |conds| ==> !OwnCondition(conds[k], tab)
  {
    if conds == [] || !OwnCondition(conds[0], tab) then 0 else 1 + FirstForeign(conds[1..], tab)
  }

  /** The row passes every condition before the first foreign one. */
  predicate Reaches(db: Database, tab: string, conds: seq<Condition>, i: nat) {
    FirstForeign(conds, tab) < |conds| && AllHold(db, map[tab := i], conds[..FirstForeign(conds, tab)])
  }

  lemma ReachesStep(db: Database, tab: string, conds: seq<Condition>, i: nat)
    requires conds != []
    ensures
      var a, c, rest := map[tab := i], conds[0], conds[1..];
      && (AllHold(db, a, conds) <==> Holds(db, a, c) && AllHold(db, a, rest))
      && (Reaches(db, tab, conds, i)
          <==> !OwnCondition(c, tab) || (Holds(db, a, c) && Reaches(db, tab, rest, i)))
  {
    var rest := conds[1..];
    assert forall c :: c in conds <==> c == conds[0] || c in rest;
    var k := FirstForeign(rest, tab);
    assert conds[..k + 1] == [conds[0]] + rest[..k];
    assert forall c :: c in conds[..k + 1] <==> c == conds[0] || c in rest[..k];
    hide Holds;
  }

  lemma OwnIsReadable(db: Database, tab: string, c: Condition, i: nat)
    requires TableOk(db, tab) && Checked(db, c) && i < |db.rows[tab]|
    ensures Readable(db, map[tab := i], c) <==> OwnCondition(c, tab)
  {
    ReadableIff(db, map[tab := i], c);
  }

  lemma {:induction false} LeafJudge(db: Database, tab: string, conds: seq<Condition>, i: nat)
    requires TableOk(db, tab) && AllChecked(db, conds) && i < |db.rows[tab]|
    ensures RowJudge(db, map[tab := i], conds)
         == if Reaches(db, tab, conds, i) then None else Some(AllHold(db, map[tab := i], conds))
  {
    if conds == [] {
    } else {
      OwnIsReadable(db, tab, conds[0], i);
      LeafJudge(db, tab, conds[1..], i);
      ReachesStep(db, tab, conds, i);
      hide Readable, Holds, TableOk, Checked, AllHold, Reaches;
    }
  }

  ghost predicate SomeReaches(db: Database, tab: string, conds: seq<Condition>, i: nat, n: nat) {
    exists k :: i <= k < n && Reaches(db, tab, conds, k)
  }

  lemma SomeReachesStep(db: Database, tab: string, conds: seq<Condition>, i: nat, n: nat)
    requires i < n
    ensures SomeReaches(db, tab, conds, i, n) <==> Reaches(db, tab, conds, i) || SomeReaches(db, tab, conds, i + 1, n)
  {
    hide Reaches;
  }

  lemma PassThrows(verdict: Option<bool>, a: Row, rest: Outcome)
    ensures Pass(verdict, a, rest).thrown <==> verdict == None || rest.thrown
  {
  }

  lemma {:induction false} ScanThrowsIff(db: Database, tab: string, conds: seq<Condition>, i: nat, n: nat)
    requires TableOk(db, tab) && AllChecked(db, conds) && i <= n == |db.rows[tab]|
    ensures ScanYield(db, tab, conds, i, n).thrown <==> SomeReaches(db, tab, conds, i, n)
    decreases n - i
  {
    hide *;
    SizeOfTable(db, tab);
    if i == n {
      NoneReaches(db, tab, conds, i);
    } else {
      LeafJudge(db, tab, conds, i);
      ScanThrowsIff(db, tab, conds, i + 1, n);
      SomeReachesStep(db, tab, conds, i, n);
      ScanYieldUnfolds(db, tab, conds, i, n);
      PassThrows(RowJudge(db, map[tab := i], conds), map[tab := i], ScanYield(db, tab, conds, i + 1, n));
    }
  }

  lemma SizeOfTable(db: Database, tab: string)
    requires TableOk(db, tab)
    ensures tab in db.rows && tab in db.cols
  {
  }

  lemma NoneReaches(db: Database, tab: string, conds: seq<Condition>, i: nat)
    ensures !SomeReaches(db, tab, conds, i, i) && ScanYield(db, tab, conds, i, i) == Outcome([], false)
  {
  }

  lemma ScanYieldUnfolds(db: Database, tab: string, conds: seq<Condition>, i: nat, n: nat)
    requires i < n
    ensures ScanYield(db, tab, conds, i, n)
         == Pass(RowJudge(db, map[tab := i], conds), map[tab := i], ScanYield(db, tab, conds, i + 1, n))
  {
  }

  lemma {:induction false} QuietScan(db: Database, tab: string, conds: seq<Condition>, i: nat, n: nat)
    requires TableOk(db, tab) && AllChecked(db, conds) && i <= n == |db.rows[tab]|
    requires !SomeReaches(db, tab, conds, i, n)
    ensures ScanYield(db, tab, conds, i, n) == Outcome(ScanRows(db, tab, conds, i, n), false)
    decreases n - i
  {
    if i == n {
    } else {
      LeafJudge(db, tab, conds, i);
      SomeReachesStep(db, tab, conds, i, n);
      hide Reaches, SomeReaches, AllHold, TableOk, RowJudge, AllChecked;
      QuietScan(db, tab, conds, i + 1, n);
    }
  }

  /** A scan throws if and only if some row reaches a foreign condition; if not, it delivers the rows that pass. */
  lemma ScanYieldExact(db: Database, tab: string, conds: seq<Condition>)
    requires TableOk(db, tab) && AllChecked(db, conds)
    ensures
      var y, n := ScanYield(db, tab, conds, 0, Size(db, tab)), Size(db, tab);
      && (y.thrown <==> SomeReaches(db, tab, conds, 0, n))
      && (!y.thrown ==> y.rows == ScanRows(db, tab, conds, 0, n))
  {
    ScanThrowsIff(db, tab, conds, 0, Size(db, tab));
    if !SomeReaches(db, tab, conds, 0, Size(db, tab)) {
      QuietScan(db, tab, conds, 0, Size(db, tab));
    }
  }

  lemma {:induction false} ScanYieldKeys(db: Database, tab: string, conds: seq<Condition>, i: nat, n: nat)
    requires i <= n
    ensures forall a :: a in ScanYield(db, tab, conds, i, n).rows ==> a.Keys == {tab} && a[tab] < n
    decreases n - i
  {
    if i == n {
    } else {
      ScanYieldKeys(db, tab, conds, i + 1, n);
      hide RowJudge;
    }
  }

  // Joins.

  ghost predicate Within(db: Database, rows: seq<Row>, tabs: set<string>) {
    forall a :: a in rows ==> InProduct(db, tabs, a)
  }

  /** A join condition of an oriented plan can always be read. */
  ghost predicate JoinReads(db: Database, l: Row, rs: seq<Row>, conds: seq<Condition>) {
    forall r, c :: r in rs && c in conds ==> Readable(db, l + r, c)
  }

  lemma JoinCondsRead(db: Database, left: Plan, right: Plan, l: Row, rs: seq<Row>, conds: seq<Condition>)
    requires Served(db, left) && Served(db, right) && Leaves(left) !! Leaves(right) && AllChecked(db, conds)
    requires InProduct(db, Leaves(left), l) && Within(db, rs, Leaves(right))
    requires forall c :: c in conds ==> Crosses(c, Leaves(left), Leaves(right))
    ensures JoinReads(db, l, rs, conds)
  {
    hide TableOk, Checked, Readable, Served, Leaves, Crosses, InProduct;
    LeavesServed(db, left);
    LeavesServed(db, right);
    forall r, c | r in rs && c in conds ensures Readable(db, l + r, c) {
      JoinCondReads(db, Leaves(left), Leaves(right), l, r, c);
    }
  }

  lemma JoinCondReads(db: Database, left: set<string>, right: set<string>, l: Row, r: Row, c: Condition)
    requires forall tab :: tab in left + right ==> TableOk(db, tab)
    requires left !! right && Checked(db, c) && Crosses(c, left, right)
    requires InProduct(db, left, l) && InProduct(db, right, r)
    ensures Readable(db, l + r, c)
  {
    hide TableOk, Checked, Readable;
    ReadableIff(db, l + r, c);
  }

  lemma {:induction false} LeavesServed(db: Database, t: Plan)
    requires Served(db, t)
    ensures forall tab :: tab in Leaves(t) ==> TableOk(db, tab)
  {
    match t
    case ScanPlan(_, _) =>
    case JoinPlan(l, r, _) =>
      LeavesServed(db, l);
      LeavesServed(db, r);
  }

  lemma {:induction false} PairReads(db: Database, l: Row, ro: Outcome, conds: seq<Condition>)
    requires JoinReads(db, l, ro.rows, conds)
    ensures Pair(db, l, ro, conds) == Outcome(RowsWith(db, l, ro.rows, conds), ro.thrown)
    decreases |ro.rows|
  {
    if ro.rows == [] {
    } else {
      var r := ro.rows[0];
      assert forall c :: c in conds ==> Readable(db, l + r, c);
      RowJudgeReadable(db, l + r, conds);
      PairReads(db, l, ro.(rows := ro.rows[1..]), conds);
      hide AllHold, RowJudge, Readable;
    }
  }

  /** With readable conditions a join throws if and only if its left child does, or its right child does
      and there is a left row. */
  lemma {:induction false} NestReads(db: Database, lo: Outcome, ro: Outcome, again: Outcome, conds: seq<Condition>)
    requires forall l :: l in lo.rows ==> JoinReads(db, l, ro.rows, conds) && JoinReads(db, l, again.rows, conds)
    requires again.thrown ==> ro.thrown
    ensures Nest(db, lo, ro, again, conds).thrown <==> lo.thrown || (lo.rows != [] && ro.thrown)
    ensures !ro.thrown && lo.rows != [] ==>
              Nest(db, lo, ro, again, conds).rows
              == RowsWith(db, lo.rows[0], ro.rows, conds) + JoinRows(db, lo.rows[1..], again.rows, conds)
    decreases |lo.rows|
  {
    if lo.rows == [] {
    } else {
      assert lo.rows[0] in lo.rows;
      PairReads(db, lo.rows[0], ro, conds);
      NestReads(db, lo.(rows := lo.rows[1..]), again, again, conds);
      hide JoinReads, RowsWith;
    }
  }

  /** What a join delivers comes from a left row and a right row. */
  lemma {:induction false} PairMembers(db: Database, l: Row, ro: Outcome, conds: seq<Condition>)
    ensures forall a :: a in Pair(db, l, ro, conds).rows ==> exists r :: r in ro.rows && a == l + r
    decreases |ro.rows|
  {
    if ro.rows == [] {
    } else {
      PairMembers(db, l, ro.(rows := ro.rows[1..]), conds);
      hide RowJudge;
    }
  }

  lemma {:induction false} NestWithin(db: Database, lo: Outcome, ro: Outcome, again: Outcome, conds: seq<Condition>,
                                      left: set<string>, right: set<string>)
    requires Within(db, lo.rows, left) && Within(db, ro.rows, right) && Within(db, again.rows, right)
    ensures Within(db, Nest(db, lo, ro, again, conds).rows, left + right)
    decreases |lo.rows|
  {
    if lo.rows == [] {
    } else {
      var l := lo.rows[0];
      assert InProduct(db, left, l);
      PairMembers(db, l, ro, conds);
      NestWithin(db, lo.(rows := lo.rows[1..]), again, again, conds, left, right);
      forall a | a in Pair(db, l, ro, conds).rows ensures InProduct(db, left + right, a) {
        var r :| r in ro.rows && a == l + r;
        assert InProduct(db, right, r);
      }
      hide Pair, InProduct;
    }
  }

  lemma {:induction false} YieldWithin(db: Database, t: Plan, clean: bool)
    requires Served(db, t)
    ensures Within(db, Yield(db, t, clean).rows, Leaves(t))
  {
    match t
    case ScanPlan(tab, conds) => ScanYieldKeys(db, tab, conds, 0, Size(db, tab));
    case JoinPlan(l, r, conds) =>
      YieldWithin(db, l, clean);
      YieldWithin(db, r, clean);
      var ro := Yield(db, r, clean);
      NestWithin(db, Yield(db, l, clean), ro, Again(r, ro, clean), conds, Leaves(l), Leaves(r));
      assert Leaves(t) == Leaves(l) + Leaves(r);
  }

  // When a plan throws.

  /** A leaf has a row that reaches a foreign condition, and every left child on the way down to that leaf
      delivers a row, so that the leaf is opened. */
  ghost predicate Throws(db: Database, t: Plan, clean: bool) {
    match t
    case ScanPlan(tab, conds) => SomeReaches(db, tab, conds, 0, Size(db, tab))
    case JoinPlan(l, r, _) => Throws(db, l, clean) || (Yield(db, l, clean).rows != [] && Throws(db, r, clean))
  }

  lemma {:induction false} YieldThrowsIff(db: Database, t: Plan, clean: bool)
    requires Distinct(t) && JoinsOriented(t) && Served(db, t)
    ensures Yield(db, t, clean).thrown <==> Throws(db, t, clean)
  {
    match t
    case ScanPlan(tab, conds) => ScanYieldExact(db, tab, conds);
    case JoinPlan(l, r, conds) =>
      YieldThrowsIff(db, l, clean);
      YieldThrowsIff(db, r, clean);
      JoinYields(db, t, clean);
  }

  /** One join node of an oriented plan. */
  lemma JoinYields(db: Database, t: Plan, clean: bool)
    requires t.JoinPlan? && Distinct(t) && JoinsOriented(t) && Served(db, t)
    ensures
      var lo, ro, y := Yield(db, t.left, clean), Yield(db, t.right, clean), Yield(db, t, clean);
      && (y.thrown <==> lo.thrown || (lo.rows != [] && ro.thrown))
      && (lo.rows == [] ==> y == lo)
      && (lo.rows != [] && !ro.thrown ==>
            y.rows == RowsWith(db, lo.rows[0], ro.rows, t.conds)
                      + JoinRows(db, lo.rows[1..], Again(t.right, ro, clean).rows, t.conds))
  {
    var lo, ro := Yield(db, t.left, clean), Yield(db, t.right, clean);
    var again := Again(t.right, ro, clean);
    YieldWithin(db, t.left, clean);
    YieldWithin(db, t.right, clean);
    forall l | l in lo.rows ensures JoinReads(db, l, ro.rows, t.conds) && JoinReads(db, l, again.rows, t.conds) {
      assert InProduct(db, Leaves(t.left), l);
      JoinCondsRead(db, t.left, t.right, l, ro.rows, t.conds);
    }
    NestReads(db, lo, ro, again, t.conds);
    hide JoinReads, Within, RowsWith, JoinRows;
  }

  lemma {:induction false} ScopedNeverThrows(db: Database, t: Plan, clean: bool)
    requires LeavesScoped(t)
    ensures !Throws(db, t, clean)
  {
    match t
    case ScanPlan(tab, conds) =>
      assert FirstForeign(conds, tab) == |conds|;
    case JoinPlan(l, r, _) =>
      ScopedNeverThrows(db, l, clean);
      ScopedNeverThrows(db, r, clean);
  }

  /** If every child could be started over, a plan that does not throw would deliver its rows. */
  lemma {:induction false} CleanYieldsRows(db: Database, t: Plan)
    requires Distinct(t) && JoinsOriented(t) && Served(db, t) && !Throws(db, t, true)
    ensures Yield(db, t, true) == Outcome(Rows(db, t), false)
  {
    YieldThrowsIff(db, t, true);
    match t
    case ScanPlan(tab, conds) => ScanYieldExact(db, tab, conds);
    case JoinPlan(l, r, conds) =>
      CleanYieldsRows(db, l);
      YieldThrowsIff(db, r, true);
      JoinYields(db, t, true);
      hide Served, Throws;
      if Rows(db, l) != [] {
        CleanYieldsRows(db, r);
      }
  }

  /** A row of the cross product that satisfies every condition in the plan leads to a misplaced one. */
  lemma {:induction false} AnswerLeadsToThrow(db: Database, t: Plan, a: Row)
    requires Distinct(t) && JoinsOriented(t) && Served(db, t) && !LeavesScoped(t)
    requires InProduct(db, a.Keys, a) && Leaves(t) <= a.Keys && PlanHolds(db, t, a)
    ensures Throws(db, t, true)
  {
    match t
    case ScanPlan(tab, conds) =>
      var k := FirstForeign(conds, tab);
      forall c | c in conds[..k] ensures Holds(db, map[tab := a[tab]], c) {
        HoldsLocally(db, a, map[tab := a[tab]], c);
      }
      assert k < |conds|;
      assert Reaches(db, tab, conds, a[tab]);
    case JoinPlan(l, r, _) =>
      PlanHoldsUnfold(db, t, a);
      if !LeavesScoped(l) {
        AnswerLeadsToThrow(db, l, a);
      } else {
        AnswerLeadsToThrow(db, r, a);
        ScopedNeverThrows(db, l, true);
        CleanYieldsRows(db, l);
        var b := Restrict(a, Leaves(l));
        PlanHoldsLocally(db, l, a, b);
        RowsExact(db, l);
        assert b.Keys == Leaves(l);
        assert InProduct(db, Leaves(l), b);
        assert b in Rows(db, l);
      }
  }

  // Plans of queries.

  lemma MirrorChecked(db: Database, c: Condition)
    requires Checked(db, c)
    ensures Typed(db, c) && forall d :: d in Class(c) ==> Checked(db, d)
  {
  }

  ghost predicate ClassesChecked(db: Database, xs: multiset<set<Condition>>) {
    forall x :: x in xs ==> forall c :: c in x ==> Checked(db, c)
  }

  lemma ClassesCheckedSplit(db: Database, a: multiset<set<Condition>>, b: multiset<set<Condition>>)
    requires ClassesChecked(db, a + b)
    ensures ClassesChecked(db, a) && ClassesChecked(db, b)
  {
    hide Checked;
    forall x | x in a ensures x in a + b {
    }
    forall x | x in b ensures x in a + b {
    }
  }

  lemma CheckedFromClasses(db: Database, conds: seq<Condition>)
    requires ClassesChecked(db, Classes(conds))
    ensures AllChecked(db, conds)
  {
    hide Checked;
    forall c | c in conds ensures Checked(db, c) {
      ClassesMember(conds, Class(c));
      assert c in Class(c);
    }
  }

  lemma {:induction false} ClassesServe(db: Database, t: Plan)
    requires forall tab :: tab in Leaves(t) ==> TableOk(db, tab)
    requires ClassesChecked(db, TreeClasses(t))
    ensures Served(db, t)
  {
    hide TableOk, Checked, Classes, Class, ClassesChecked, AllChecked;
    match t
    case ScanPlan(_, conds) => CheckedFromClasses(db, conds);
    case JoinPlan(l, r, conds) =>
      ClassesCheckedSplit(db, TreeClasses(l) + TreeClasses(r), Classes(conds));
      ClassesCheckedSplit(db, TreeClasses(l), TreeClasses(r));
      CheckedFromClasses(db, conds);
      ClassesServe(db, l);
      ClassesServe(db, r);
  }

  lemma PlanServes(db: Database, t: Plan, tables: set<string>, conds: seq<Condition>)
    requires PlanFor(t, tables, conds) && ServesQuery(db, tables, conds)
    ensures Served(db, t) && AllTyped(db, conds)
  {
    forall x | x in Classes(conds) ensures forall c :: c in x ==> Checked(db, c) {
      ClassesMember(conds, x);
      var c :| c in conds && Class(c) == x;
      MirrorChecked(db, c);
    }
    forall c | c in conds ensures Typed(db, c) {
      MirrorChecked(db, c);
    }
    hide TableOk, Checked;
    ClassesServe(db, t);
  }

  /** What a plan for a query delivers, were every child started over. It throws if and only if a leaf that
      is opened has a row that reaches a foreign condition. If it does not throw it answers the query, and
      a well-scoped plan does not throw. A plan that is not well scoped throws whenever there is an answer. */
  lemma QueryDelivered(db: Database, t: Plan, tables: set<string>, conds: seq<Condition>)
    requires PlanFor(t, tables, conds) && ServesQuery(db, tables, conds)
    ensures
      var y := Yield(db, t, true);
      && (y.thrown <==> Throws(db, t, true))
      && (LeavesScoped(t) ==> !y.thrown)
      && (!y.thrown ==> Answers(db, y.rows, tables, conds))
      && (!LeavesScoped(t) && !NoAnswer(db, tables, conds) ==> y.thrown)
  {
    PlanServes(db, t, tables, conds);
    YieldThrowsIff(db, t, true);
    if LeavesScoped(t) {
      ScopedNeverThrows(db, t, true);
      CleanYieldsRows(db, t);
      PlanMeansQuery(db, t, tables, conds);
    } else {
      if a :| InProduct(db, tables, a) && AllHold(db, a, conds) {
        AnswerHoldsInPlan(db, t, tables, conds, a);
        AnswerLeadsToThrow(db, t, a);
      } else {
        if !Throws(db, t, true) {
          CleanYieldsRows(db, t);
          UnscopedYieldsNothing(db, t);
        }
      }
    }
  }

  lemma AnswerHoldsInPlan(db: Database, t: Plan, tables: set<string>, conds: seq<Condition>, a: Row)
    requires PlanFor(t, tables, conds) && AllTyped(db, conds) && AllHold(db, a, conds)
    ensures PlanHolds(db, t, a)
  {
    forall x | x in Classes(conds) ensures forall c :: c in x ==> Typed(db, c) {
      ClassesMember(conds, x);
    }
    PlanHoldsIffClasses(db, t, a);
    AllHoldIffClasses(db, a, conds);
  }

  // Joins cannot be started over.

  /** The row takes the first left row at every join whose right child is a join. */
  ghost predicate FirstParts(db: Database, t: Plan, a: Row) {
    t.JoinPlan? ==>
      && FirstParts(db, t.left, Restrict(a, Leaves(t.left)))
      && FirstParts(db, t.right, Restrict(a, Leaves(t.right)))
      && (t.right.JoinPlan? ==>
            var lo := Yield(db, t.left, false).rows;
            lo != [] && Restrict(a, Leaves(t.left)) == lo[0])
  }

  lemma RestrictSum(l: Row, r: Row, left: set<string>, right: set<string>)
    requires l.Keys == left && r.Keys == right && left !! right
    ensures Restrict(l + r, left) == l && Restrict(l + r, right) == r
  {
  }

  /** The executors of a well-scoped plan deliver exactly those of its rows that take the first left row at
      every join whose right child is a join, each once. */
  lemma {:induction false} DeliveredExact(db: Database, t: Plan)
    requires Distinct(t) && JoinsOriented(t) && Served(db, t) && LeavesScoped(t)
    ensures
      var y := Yield(db, t, false);
      && !y.thrown && NoRepeats(y.rows)
      && forall a :: a in y.rows <==> a in Rows(db, t) && FirstParts(db, t, a)
  {
    ScopedNeverThrows(db, t, false);
    YieldThrowsIff(db, t, false);
    match t
    case ScanPlan(tab, conds) =>
      ScanYieldExact(db, tab, conds);
      RowsExact(db, t);
    case JoinPlan(l, r, conds) =>
      DeliveredExact(db, l);
      DeliveredExact(db, r);
      DeliveredJoin(db, t);
  }

  /** The left rows that meet any right row. */
  function LeftOnce(right: Plan, lo: seq<Row>): seq<Row> {
    if lo != [] && right.JoinPlan? then lo[..1] else lo
  }

  /** The rows a join node delivers, from those its children deliver. */
  ghost function Joined(db: Database, t: Plan): seq<Row>
    requires t.JoinPlan?
  {
    JoinRows(db, LeftOnce(t.right, Yield(db, t.left, false).rows), Yield(db, t.right, false).rows, t.conds)
  }

  lemma JoinOfOne(db: Database, l: Row, rs: seq<Row>, conds: seq<Condition>)
    ensures JoinRows(db, [l], rs, conds) == RowsWith(db, l, rs, conds)
  {
    hide RowsWith;
    assert [l][1..] == [];
  }

  lemma JoinedIs(db: Database, t: Plan)
    requires t.JoinPlan? && Distinct(t) && JoinsOriented(t) && Served(db, t)
    requires !Yield(db, t.left, false).thrown && !Yield(db, t.right, false).thrown
    ensures Yield(db, t, false).rows == Joined(db, t)
  {
    JoinYields(db, t, false);
    var lo, ro := Yield(db, t.left, false).rows, Yield(db, t.right, false).rows;
    hide Yield, RowsWith, Served, Distinct, JoinsOriented;
    if lo != [] {
      if t.right.JoinPlan? {
        hide JoinRows;
        NoRightRows(db, lo[1..], t.conds);
        JoinOfOne(db, lo[0], ro, t.conds);
        assert lo[..1] == [lo[0]];
      }
    }
  }

  lemma DeliveredJoin(db: Database, t: Plan)
    requires t.JoinPlan? && Distinct(t) && JoinsOriented(t) && Served(db, t) && LeavesScoped(t)
    requires
      var lo, ro := Yield(db, t.left, false), Yield(db, t.right, false);
      && !lo.thrown && !ro.thrown && NoRepeats(lo.rows) && NoRepeats(ro.rows)
      && (forall l :: l in lo.rows <==> l in Rows(db, t.left) && FirstParts(db, t.left, l))
      && (forall r :: r in ro.rows <==> r in Rows(db, t.right) && FirstParts(db, t.right, r))
    ensures
      var y := Yield(db, t, false);
      && NoRepeats(y.rows)
      && forall a :: a in y.rows <==> a in Rows(db, t) && FirstParts(db, t, a)
  {
    JoinedIs(db, t);
    JoinedOnce(db, t);
    RowsExact(db, t.left);
    RowsExact(db, t.right);
    YieldWithin(db, t.left, false);
    YieldWithin(db, t.right, false);
    var lo, ro := Yield(db, t.left, false).rows, Yield(db, t.right, false).rows;
    JoinRowsExact(db, Rows(db, t.left), Rows(db, t.right), t.conds);
    JoinRowsExact(db, LeftOnce(t.right, lo), ro, t.conds);
    hide Yield, JoinRows, Served, JoinsOriented, LeavesScoped, FirstParts, PlanHolds, AllHold, InProduct, LeftOnce,
         NoRepeats;
    forall a ensures a in Joined(db, t) <==> a in Rows(db, t) && FirstParts(db, t, a) {
      DeliveredMember(db, t, LeftOnce(t.right, lo), a);
    }
  }

  lemma JoinedOnce(db: Database, t: Plan)
    requires t.JoinPlan? && Distinct(t) && Served(db, t)
    requires NoRepeats(Yield(db, t.left, false).rows) && NoRepeats(Yield(db, t.right, false).rows)
    ensures NoRepeats(Joined(db, t))
  {
    YieldWithin(db, t.left, false);
    YieldWithin(db, t.right, false);
    var lo, ro := Yield(db, t.left, false).rows, Yield(db, t.right, false).rows;
    var ls := LeftOnce(t.right, lo);
    assert forall l :: l in ls ==> l in lo;
    assert KeysAre(ls, Leaves(t.left)) && KeysAre(ro, Leaves(t.right));
    hide Yield, JoinRows, Served;
    JoinRowsDistinct(db, ls, ro, t.conds, Leaves(t.left), Leaves(t.right));
  }

  lemma DeliveredMember(db: Database, t: Plan, ls: seq<Row>, a: Row)
    requires t.JoinPlan? && Distinct(t)
    requires
      var lo, ro := Yield(db, t.left, false).rows, Yield(db, t.right, false).rows;
      && ls == LeftOnce(t.right, lo)
      && Within(db, lo, Leaves(t.left)) && Within(db, ro, Leaves(t.right))
      && Within(db, Rows(db, t.left), Leaves(t.left)) && Within(db, Rows(db, t.right), Leaves(t.right))
      && (forall l :: l in lo <==> l in Rows(db, t.left) && FirstParts(db, t.left, l))
      && (forall r :: r in ro <==> r in Rows(db, t.right) && FirstParts(db, t.right, r))
    ensures
      (exists l, r :: l in ls && r in Yield(db, t.right, false).rows && a == l + r && AllHold(db, a, t.conds))
      <==> (exists l, r :: l in Rows(db, t.left) && r in Rows(db, t.right) && a == l + r && AllHold(db, a, t.conds))
           && FirstParts(db, t, a)
  {
    var lo, ro := Yield(db, t.left, false).rows, Yield(db, t.right, false).rows;
    hide Yield, Rows, AllHold, Restrict;
    forall l, r | l in Rows(db, t.left) && r in Rows(db, t.right) && a == l + r
      ensures Restrict(a, Leaves(t.left)) == l && Restrict(a, Leaves(t.right)) == r
    {
      assert InProduct(db, Leaves(t.left), l) && InProduct(db, Leaves(t.right), r);
      RestrictSum(l, r, Leaves(t.left), Leaves(t.right));
    }
  }

  // When nothing is lost.

  /** No join has a join as its right child. */
  predicate ScansOnRight(t: Plan) {
    t.JoinPlan? ==> t.right.ScanPlan? && ScansOnRight(t.left)
  }

  lemma {:induction false} ScansLoseNothing(db: Database, t: Plan, a: Row)
    requires ScansOnRight(t)
    ensures FirstParts(db, t, a)
  {
    match t
    case ScanPlan(_, _) =>
    case JoinPlan(l, r, _) => ScansLoseNothing(db, l, Restrict(a, Leaves(l)));
  }

  lemma {:induction false} LeafCount(t: Plan)
    requires Distinct(t)
    ensures |Leaves(t)| >= if t.ScanPlan? then 1 else 2
  {
    match t
    case ScanPlan(tab, _) => assert Leaves(t) == {tab};
    case JoinPlan(l, r, _) =>
      LeafCount(l);
      LeafCount(r);
      assert Leaves(t) == Leaves(l) + Leaves(r);
  }

  lemma TwoTablesScanOnRight(t: Plan)
    requires Distinct(t) && |Leaves(t)| <= 2
    ensures ScansOnRight(t)
  {
    match t
    case ScanPlan(_, _) =>
    case JoinPlan(l, r, _) =>
      LeafCount(l);
      LeafCount(r);
      assert Leaves(t) == Leaves(l) + Leaves(r);
  }

  lemma PlanParts(t: Plan, tables: set<string>, conds: seq<Condition>)
    requires PlanFor(t, tables, conds)
    ensures Distinct(t) && JoinsOriented(t) && Leaves(t) == tables
  {
  }

  lemma OtherRow(db: Database, tabs: set<string>, x: Row) returns (b: Row)
    requires forall tab :: tab in tabs ==> tab in db.rows && |db.rows[tab]| >= 2
    requires tabs != {}
    ensures InProduct(db, tabs, b) && b != x
  {
    var low: Row, high: Row := map tab | tab in tabs :: 0, map tab | tab in tabs :: 1;
    var tab :| tab in tabs;
    assert low[tab] != high[tab];
    b := if low != x then low else high;
  }

  lemma ProductSum(db: Database, t: Plan, l: Row, r: Row)
    requires t.JoinPlan? && Distinct(t) && InProduct(db, Leaves(t.left), l) && InProduct(db, Leaves(t.right), r)
    ensures InProduct(db, Leaves(t), l + r) && Restrict(l + r, Leaves(t.left)) == l
  {
    assert Leaves(t) == Leaves(t.left) + Leaves(t.right);
  }

  lemma {:induction false} SomeLeaf(t: Plan)
    ensures Leaves(t) != {}
  {
    match t
    case ScanPlan(tab, _) => assert tab in Leaves(t);
    case JoinPlan(l, r, _) =>
      SomeLeaf(l);
      assert Leaves(t) == Leaves(l) + Leaves(r);
  }

  /** If every table has two rows, a join with a join on its right misses some row of the cross product. */
  lemma {:induction false} MissedRow(db: Database, t: Plan) returns (a: Row)
    requires Distinct(t) && !ScansOnRight(t)
    requires forall tab :: tab in Leaves(t) ==> tab in db.rows && |db.rows[tab]| >= 2
    ensures InProduct(db, Leaves(t), a) && !FirstParts(db, t, a)
  {
    var l, r := t.left, t.right;
    assert Leaves(t) == Leaves(l) + Leaves(r);
    SomeLeaf(l);
    SomeLeaf(r);
    var c := OtherRow(db, Leaves(r), map[]);
    var b;
    if r.JoinPlan? {
      var lo := Yield(db, l, false).rows;
      b := OtherRow(db, Leaves(l), if lo == [] then map[] else lo[0]);
    } else {
      b := MissedRow(db, l);
    }
    ProductSum(db, t, b, c);
    a := b + c;
  }

  /** Over tables of at least two rows each, a well-scoped plan without conditions, or with conditions that all
      rows satisfy, is executed in full if and only if no join has a join as its right child. */
  lemma ExecutedInFullIff(db: Database, t: Plan, tables: set<string>, conds: seq<Condition>)
    requires PlanFor(t, tables, conds) && ServesQuery(db, tables, conds) && LeavesScoped(t)
    requires forall tab :: tab in tables ==> tab in db.rows && |db.rows[tab]| >= 2
    requires forall a :: InProduct(db, tables, a) ==> AllHold(db, a, conds)
    ensures Answers(db, Yield(db, t, false).rows, tables, conds) <==> ScansOnRight(t)
  {
    hide *;
    ExecutedPlan(db, t, tables, conds);
    PlanParts(t, tables, conds);
    if ScansOnRight(t) {
      forall a ensures FirstParts(db, t, a) {
        ScansLoseNothing(db, t, a);
      }
    } else {
      var a := MissedRow(db, t);
    }
  }

  // The planner's trees: no left child has a join on its right.

  predicate LeftsFlat(t: Plan) {
    t.JoinPlan? ==> ScansOnRight(t.left) && LeftsFlat(t.right)
  }

  /** Where no join is on the right, nothing is restarted but scans. */
  lemma {:induction false} FlatDeliversAll(db: Database, t: Plan)
    requires ScansOnRight(t)
    ensures Yield(db, t, false) == Yield(db, t, true) && (Throws(db, t, false) <==> Throws(db, t, true))
  {
    match t
    case ScanPlan(_, _) =>
    case JoinPlan(l, r, _) =>
      FlatDeliversAll(db, l);
      FlatDeliversAll(db, r);
  }

  /** The planner's trees throw what they would throw if joins could be restarted. */
  lemma {:induction false} ThrowsAlike(db: Database, t: Plan)
    requires LeftsFlat(t)
    ensures Throws(db, t, false) <==> Throws(db, t, true)
  {
    match t
    case ScanPlan(_, _) =>
    case JoinPlan(l, r, _) =>
      FlatDeliversAll(db, l);
      ThrowsAlike(db, r);
  }

  /** A plan with a misplaced condition delivers no row, unless it throws. */
  lemma {:induction false} UnscopedDeliversNothing(db: Database, t: Plan)
    requires Distinct(t) && JoinsOriented(t) && Served(db, t) && !LeavesScoped(t)
    requires !Yield(db, t, false).thrown
    ensures Yield(db, t, false).rows == []
  {
    match t
    case ScanPlan(tab, conds) =>
      ScanYieldExact(db, tab, conds);
      UnscopedYieldsNothing(db, t);
    case JoinPlan(l, r, conds) =>
      JoinYields(db, t, false);
      var lo, ro := Yield(db, l, false), Yield(db, r, false);
      if !LeavesScoped(l) {
        UnscopedDeliversNothing(db, l);
      } else if lo.rows == [] {
      } else {
        UnscopedDeliversNothing(db, r);
        NoRightRows(db, lo.rows[1..], conds);
        assert RowsWith(db, lo.rows[0], [], conds) == [];
      }
  }

  /** What the executors of an ill-scoped plan of the planner's shape do: they throw whenever the query has an
      answer; if they do not throw, they deliver nothing and the query has no answer. */
  lemma UnscopedDelivered(db: Database, t: Plan, tables: set<string>, conds: seq<Condition>)
    requires PlanFor(t, tables, conds) && ServesQuery(db, tables, conds) && LeftsFlat(t) && !LeavesScoped(t)
    ensures
      var y := Yield(db, t, false);
      && (y.thrown <==> Throws(db, t, false))
      && (!NoAnswer(db, tables, conds) ==> y.thrown)
      && (!y.thrown ==> y.rows == [] && Answers(db, [], tables, conds))
  {
    PlanServes(db, t, tables, conds);
    YieldThrowsIff(db, t, false);
    ThrowsAlike(db, t);
    QueryDelivered(db, t, tables, conds);
    hide Yield, Served, Throws, AllTyped, LeavesScoped, ServesQuery, LeftsFlat, AllHold, InProduct;
    if !Yield(db, t, false).thrown {
      UnscopedDeliversNothing(db, t);
      NothingAnswers(db, tables, conds);
    }
  }

  lemma NothingAnswers(db: Database, tables: set<string>, conds: seq<Condition>)
    requires NoAnswer(db, tables, conds)
    ensures Answers(db, [], tables, conds)
  {
    hide AllHold, InProduct;
  }

  /** The executors of a well-scoped plan for a query throw nothing. They answer the query if and only if
      every answer takes the first left row wherever a join has a join as its right child; with two tables
      no join has. */
  lemma ExecutedPlan(db: Database, t: Plan, tables: set<string>, conds: seq<Condition>)
    requires PlanFor(t, tables, conds) && ServesQuery(db, tables, conds) && LeavesScoped(t)
    ensures
      var y := Yield(db, t, false);
      && !y.thrown && NoRepeats(y.rows)
      && (forall a :: a in y.rows <==> InProduct(db, tables, a) && AllHold(db, a, conds) && FirstParts(db, t, a))
      && (Answers(db, y.rows, tables, conds)
          <==> forall a :: InProduct(db, tables, a) && AllHold(db, a, conds) ==> FirstParts(db, t, a))
      && (|tables| <= 2 ==> Answers(db, y.rows, tables, conds))
  {
    PlanServes(db, t, tables, conds);
    PlanMeansQuery(db, t, tables, conds);
    DeliveredExact(db, t);
    hide InProduct, AllHold, Yield, Rows, PlanFor, ServesQuery, LeavesScoped;
    if |tables| <= 2 {
      PlanParts(t, tables, conds);
      TwoTablesScanOnRight(t);
      forall a ensures FirstParts(db, t, a) {
        ScansLoseNothing(db, t, a);
      }
    }
  }

  /** In terms of the data: wherever a right child is a join, the row takes the first row of the left child. */
  ghost predicate FirstRows(db: Database, t: Plan, a: Row) {
    t.JoinPlan? && t.right.JoinPlan? ==>
      var lo := Rows(db, t.left);
      && lo != [] && Restrict(a, Leaves(t.left)) == lo[0]
      && FirstRows(db, t.right, Restrict(a, Leaves(t.right)))
  }

  lemma {:induction false} FirstPartsAreRows(db: Database, t: Plan, a: Row)
    requires Distinct(t) && JoinsOriented(t) && Served(db, t) && LeavesScoped(t) && LeftsFlat(t)
    ensures FirstParts(db, t, a) <==> FirstRows(db, t, a)
  {
    match t
    case ScanPlan(_, _) =>
    case JoinPlan(l, r, _) =>
      ScansLoseNothing(db, l, Restrict(a, Leaves(l)));
      FlatDeliversAll(db, l);
      ScopedNeverThrows(db, l, true);
      CleanYieldsRows(db, l);
      hide Yield, Rows, Served, Throws, Restrict;
      FirstPartsAreRows(db, r, Restrict(a, Leaves(r)));
  }

  /** What the executors of a well-scoped plan of the planner's shape deliver, in terms of the data. */
  lemma PlannedExecution(db: Database, t: Plan, tables: set<string>, conds: seq<Condition>)
    requires PlanFor(t, tables, conds) && ServesQuery(db, tables, conds) && LeavesScoped(t) && LeftsFlat(t)
    ensures
      var y := Yield(db, t, false);
      && !y.thrown && NoRepeats(y.rows)
      && (forall a :: a in y.rows <==> InProduct(db, tables, a) && AllHold(db, a, conds) && FirstRows(db, t, a))
      && (Answers(db, y.rows, tables, conds)
          <==> forall a :: InProduct(db, tables, a) && AllHold(db, a, conds) ==> FirstRows(db, t, a))
  {
    ExecutedPlan(db, t, tables, conds);
    PlanServes(db, t, tables, conds);
    PlanParts(t, tables, conds);
    hide *;
    forall a ensures FirstParts(db, t, a) <==> FirstRows(db, t, a) {
      FirstPartsAreRows(db, t, a);
    }
    var rows := Yield(db, t, false).rows;
    assert forall a :: a in rows <==> InProduct(db, tables, a) && AllHold(db, a, conds) && FirstRows(db, t, a);
  }
}
