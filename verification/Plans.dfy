/** Join plans and what they mean (src/optimizer/plan.h, and the row semantics of
    src/execution/executor_seq_scan.h and src/execution/executor_nestedloop_join.h). */
module Plans {
  import opened Wrappers
  import opened Values

  datatype Plan =
    | ScanPlan(tab: string, conds: seq<Condition>)
    | JoinPlan(left: Plan, right: Plan, conds: seq<Condition>)

  // Shape.

  /** The conditions attached to each leaf. */
  function LeafMap(t: Plan): map<string, seq<Condition>> {
    match t
    case ScanPlan(tab, conds) => map[tab := conds]
    case JoinPlan(l, r, _) => LeafMap(l) + LeafMap(r)
  }

  function Leaves(t: Plan): set<string> {
    LeafMap(t).Keys
  }

  /** Each table is a leaf at most once. */
  predicate Distinct(t: Plan) {
    t.JoinPlan? ==> Distinct(t.left) && Distinct(t.right) && Leaves(t.left) !! Leaves(t.right)
  }

  /** A join condition compares a column of the left subtree with one of the right subtree. */
  predicate Crosses(c: Condition, left: set<string>, right: set<string>) {
    !c.rhsIsVal && c.lhs.tab in left && c.rhs.tab in right
  }

  predicate JoinsOriented(t: Plan) {
    t.JoinPlan? ==>
      && JoinsOriented(t.left) && JoinsOriented(t.right)
      && forall c :: c in t.conds ==> Crosses(c, Leaves(t.left), Leaves(t.right))
  }

  predicate OwnCondition(c: Condition, tab: string) {
    c.lhs.tab == tab && (c.rhsIsVal || c.rhs.tab == tab)
  }

  /** A leaf condition mentions only the leaf's table. */
  predicate LeavesScoped(t: Plan) {
    match t
    case ScanPlan(tab, conds) => forall c :: c in conds ==> OwnCondition(c, tab)
    case JoinPlan(l, r, _) => LeavesScoped(l) && LeavesScoped(r)
  }

  lemma {:induction false} LeavesScopedByTable(t: Plan)
    requires Distinct(t)
    ensures LeavesScoped(t) <==>
            forall tab :: tab in LeafMap(t) ==> forall c :: c in LeafMap(t)[tab] ==> OwnCondition(c, tab)
  {
    match t
    case ScanPlan(tab, conds) =>
      assert LeafMap(t)[tab] == conds;
    case JoinPlan(l, r, _) =>
      LeavesScopedByTable(l);
      LeavesScopedByTable(r);
      var m := LeafMap(t);
      assert forall tab :: tab in LeafMap(l) ==> tab in m && m[tab] == LeafMap(l)[tab];
      assert forall tab :: tab in LeafMap(r) ==> tab in m && m[tab] == LeafMap(r)[tab];
      assert forall tab :: tab in m ==> tab in LeafMap(l) || tab in LeafMap(r);
  }

  // Conditions up to mirroring.

  function Class(c: Condition): set<Condition> {
    if c.rhsIsVal then {c} else {c, Mirror(c)}
  }

  function Classes(conds: seq<Condition>): multiset<set<Condition>> {
    if conds == [] then multiset{}
    else Classes(conds[..|conds| - 1]) + multiset{Class(conds[|conds| - 1])}
  }

  /** The conditions attached at the join nodes. */
  function JoinClasses(t: Plan): multiset<set<Condition>> {
    match t
    case ScanPlan(_, _) => multiset{}
    case JoinPlan(l, r, conds) => JoinClasses(l) + JoinClasses(r) + Classes(conds)
  }

  /** All conditions attached anywhere. */
  function TreeClasses(t: Plan): multiset<set<Condition>> {
    match t
    case ScanPlan(_, conds) => Classes(conds)
    case JoinPlan(l, r, conds) => TreeClasses(l) + TreeClasses(r) + Classes(conds)
  }

  lemma MirrorTwice(c: Condition)
    ensures Mirror(Mirror(c)) == c
    ensures !c.rhsIsVal ==> Class(Mirror(c)) == Class(c)
  {
  }

  lemma {:induction false} ClassesConcat(a: seq<Condition>, b: seq<Condition>)
    ensures Classes(a + b) == Classes(a) + Classes(b)
  {
    if b == [] {
      assert a + b == a;
    } else {
      assert (a + b)[..|a + b| - 1] == a + b[..|b| - 1];
      ClassesConcat(a, b[..|b| - 1]);
    }
  }

  lemma {:induction false} ClassesMember(conds: seq<Condition>, x: set<Condition>)
    ensures x in Classes(conds) <==> exists c :: c in conds && Class(c) == x
  {
    if conds == [] {
    } else {
      var n := |conds| - 1;
      ClassesMember(conds[..n], x);
      assert conds == conds[..n] + [conds[n]];
    }
  }

  // Meaning.

  datatype Database = Database(cols: map<string, seq<ColMeta>>, rows: map<string, seq<seq<bv8>>>)

  /** A row of a join: which row each table contributes. */
  type Row = map<string, nat>

  /** The column and the bytes a name denotes in a row. */
  function Cell(db: Database, a: Row, name: TabCol): Option<(ColMeta, seq<bv8>)> {
    if name.tab in a && name.tab in db.cols && name.tab in db.rows && a[name.tab] < |db.rows[name.tab]| then
      var col := GetCol(db.cols[name.tab], name);
      var rec := db.rows[name.tab][a[name.tab]];
      if col.Some? && Fits(col.value, |rec|) then Some((col.value, rec[col.value.offset..])) else None
    else None
  }

  /** The condition holds of the row. An operand that cannot be read makes it fail. */
  predicate Holds(db: Database, a: Row, c: Condition) {
    var l := Cell(db, a, c.lhs);
    l.Some? &&
    var (col, bytes) := l.value;
    if c.rhsIsVal then
      var raw := Raw(c.val, col.len);
      raw.Some? && c.val.colType == col.colType && OpHolds(c.op, IxCompare(bytes, raw.value, col.colType, col.len))
    else
      var r := Cell(db, a, c.rhs);
      r.Some? && |r.value.1| >= Width(col.colType, col.len) &&
      OpHolds(c.op, IxCompare(bytes, r.value.1, col.colType, col.len))
  }

  /** The two columns of a condition have the same type and length. */
  predicate Typed(db: Database, c: Condition) {
    !c.rhsIsVal && c.lhs.tab in db.cols && c.rhs.tab in db.cols ==>
      var l, r := GetCol(db.cols[c.lhs.tab], c.lhs), GetCol(db.cols[c.rhs.tab], c.rhs);
      l.Some? && r.Some? ==> l.value.colType == r.value.colType && l.value.len == r.value.len
  }

  /** Swapping the operands and mirroring the operator keeps a condition's truth. */
  lemma MirrorHolds(db: Database, a: Row, c: Condition)
    requires !c.rhsIsVal && Typed(db, c)
    ensures Holds(db, a, Mirror(c)) == Holds(db, a, c)
  {
    var l, r := Cell(db, a, c.lhs), Cell(db, a, c.rhs);
    if l.Some? && r.Some? {
      SwappedComparison(l.value.1, r.value.1, l.value.0.colType, l.value.0.len, c.op);
    }
  }

  /** A condition looks only at its own tables. */
  lemma HoldsLocally(db: Database, a: Row, b: Row, c: Condition)
    requires c.lhs.tab in a && c.lhs.tab in b && a[c.lhs.tab] == b[c.lhs.tab]
    requires c.rhsIsVal || (c.rhs.tab in a && c.rhs.tab in b && a[c.rhs.tab] == b[c.rhs.tab])
    ensures Holds(db, a, c) == Holds(db, b, c)
  {
  }

  function AllHold(db: Database, a: Row, conds: seq<Condition>): bool {
    forall c :: c in conds ==> Holds(db, a, c)
  }

  /** The rows of a table from number `i` on that pass. */
  function ScanRows(db: Database, tab: string, conds: seq<Condition>, i: nat, n: nat): seq<Row>
    requires i <= n
    decreases n - i
  {
    if i == n then []
    else (if AllHold(db, map[tab := i], conds) then [map[tab := i]] else []) + ScanRows(db, tab, conds, i + 1, n)
  }

  function Size(db: Database, tab: string): nat {
    if tab in db.rows then |db.rows[tab]| else 0
  }

  function RowsWith(db: Database, l: Row, rs: seq<Row>, conds: seq<Condition>): seq<Row> {
    if rs == [] then []
    else (if AllHold(db, l + rs[0], conds) then [l + rs[0]] else []) + RowsWith(db, l, rs[1..], conds)
  }

  /** Left-major nested loop. */
  function JoinRows(db: Database, ls: seq<Row>, rs: seq<Row>, conds: seq<Condition>): seq<Row> {
    if ls == [] then [] else RowsWith(db, ls[0], rs, conds) + JoinRows(db, ls[1..], rs, conds)
  }

  /** The rows a plan yields, in order. */
  function Rows(db: Database, t: Plan): seq<Row> {
    match t
    case ScanPlan(tab, conds) => ScanRows(db, tab, conds, 0, Size(db, tab))
    case JoinPlan(l, r, conds) => JoinRows(db, Rows(db, l), Rows(db, r), conds)
  }

  ghost predicate NoRepeats(rows: seq<Row>) {
    forall i, j :: 0 <= i < j < |rows| ==> rows[i] != rows[j]
  }

  /** A row of the cross product of `tabs`. */
  predicate InProduct(db: Database, tabs: set<string>, a: Row) {
    a.Keys == tabs && forall tab :: tab in tabs ==> tab in db.rows && a[tab] < |db.rows[tab]|
  }

  predicate PlanHolds(db: Database, t: Plan, a: Row) {
    && AllHold(db, a, t.conds)
    && (t.JoinPlan? ==> PlanHolds(db, t.left, a) && PlanHolds(db, t.right, a))
  }

  lemma {:induction false} ScanRowsExact(db: Database, tab: string, conds: seq<Condition>, i: nat, n: nat)
    requires i <= n
    ensures NoRepeats(ScanRows(db, tab, conds, i, n))
    ensures forall a :: a in ScanRows(db, tab, conds, i, n) <==>
              a.Keys == {tab} && i <= a[tab] < n && AllHold(db, a, conds)
    decreases n - i
  {
    if i == n {
    } else {
      ScanRowsExact(db, tab, conds, i + 1, n);
      forall a: Row ensures a.Keys == {tab} && a[tab] == i <==> a == map[tab := i] {
      }
    }
  }

  lemma {:induction false} RowsWithExact(db: Database, l: Row, rs: seq<Row>, conds: seq<Condition>)
    ensures forall a :: a in RowsWith(db, l, rs, conds) <==> exists r :: r in rs && a == l + r && AllHold(db, a, conds)
  {
    if rs == [] {
    } else {
      RowsWithExact(db, l, rs[1..], conds);
      assert rs == [rs[0]] + rs[1..];
    }
  }

  lemma {:induction false} JoinRowsExact(db: Database, ls: seq<Row>, rs: seq<Row>, conds: seq<Condition>)
    ensures forall a :: a in JoinRows(db, ls, rs, conds) <==>
              exists l, r :: l in ls && r in rs && a == l + r && AllHold(db, a, conds)
  {
    if ls == [] {
    } else {
      RowsWithExact(db, ls[0], rs, conds);
      JoinRowsExact(db, ls[1..], rs, conds);
      assert ls == [ls[0]] + ls[1..];
    }
  }

  ghost predicate KeysAre(rows: seq<Row>, keys: set<string>) {
    forall a :: a in rows ==> a.Keys == keys
  }

  lemma SumInjective(l1: Row, r1: Row, l2: Row, r2: Row)
    requires l1.Keys == l2.Keys && r1.Keys == r2.Keys && l1.Keys !! r1.Keys && l1 + r1 == l2 + r2
    ensures l1 == l2 && r1 == r2
  {
    var a := l1 + r1;
    assert forall k :: k in l1 ==> l1[k] == a[k] == (l2 + r2)[k] == l2[k];
    assert forall k :: k in r1 ==> r1[k] == a[k] == (l2 + r2)[k] == r2[k];
  }

  lemma {:induction false} RowsWithDistinct(db: Database, l: Row, rs: seq<Row>, conds: seq<Condition>,
                                            right: set<string>)
    requires KeysAre(rs, right) && l.Keys !! right && NoRepeats(rs)
    ensures NoRepeats(RowsWith(db, l, rs, conds))
  {
    if rs == [] {
    } else {
      RowsWithDistinct(db, l, rs[1..], conds, right);
      RowsWithExact(db, l, rs[1..], conds);
      var rest := RowsWith(db, l, rs[1..], conds);
      forall j | 0 <= j < |rest| ensures rest[j] != l + rs[0] {
        assert rest[j] in rest;
        var r :| r in rs[1..] && rest[j] == l + r;
        var i :| 1 <= i < |rs| && rs[i] == r;
        if rest[j] == l + rs[0] {
          SumInjective(l, r, l, rs[0]);
        }
      }
    }
  }

  lemma {:induction false} JoinRowsDistinct(db: Database, ls: seq<Row>, rs: seq<Row>, conds: seq<Condition>,
                                            left: set<string>, right: set<string>)
    requires KeysAre(ls, left) && KeysAre(rs, right) && left !! right && NoRepeats(ls) && NoRepeats(rs)
    ensures NoRepeats(JoinRows(db, ls, rs, conds))
  {
    if ls == [] {
    } else {
      assert ls[0] in ls;
      RowsWithDistinct(db, ls[0], rs, conds, right);
      JoinRowsDistinct(db, ls[1..], rs, conds, left, right);
      RowsWithExact(db, ls[0], rs, conds);
      JoinRowsExact(db, ls[1..], rs, conds);
      var first, rest := RowsWith(db, ls[0], rs, conds), JoinRows(db, ls[1..], rs, conds);
      forall i, j | 0 <= i < |first| && 0 <= j < |rest| ensures first[i] != rest[j] {
        assert first[i] in first && rest[j] in rest;
        var r1 :| r1 in rs && first[i] == ls[0] + r1;
        var l2, r2 :| l2 in ls[1..] && r2 in rs && rest[j] == l2 + r2;
        var k :| 1 <= k < |ls| && ls[k] == l2;
        if first[i] == rest[j] {
          SumInjective(ls[0], r1, l2, r2);
        }
      }
    }
  }

  function Restrict(a: Row, keys: set<string>): Row {
    map k | k in a && k in keys :: a[k]
  }

  /** A scoped subtree looks only at its own tables. */
  lemma {:induction false} PlanHoldsLocally(db: Database, t: Plan, a: Row, b: Row)
    requires JoinsOriented(t) && LeavesScoped(t)
    requires forall k :: k in Leaves(t) ==> k in a && k in b && a[k] == b[k]
    ensures PlanHolds(db, t, a) == PlanHolds(db, t, b)
  {
    match t
    case ScanPlan(tab, conds) =>
      forall c | c in conds ensures Holds(db, a, c) == Holds(db, b, c) {
        HoldsLocally(db, a, b, c);
      }
    case JoinPlan(l, r, conds) =>
      PlanHoldsLocally(db, l, a, b);
      PlanHoldsLocally(db, r, a, b);
      forall c | c in conds ensures Holds(db, a, c) == Holds(db, b, c) {
        HoldsLocally(db, a, b, c);
      }
  }

  /** The rows of a scoped plan: each row of the cross product that passes every attached condition,
      exactly once. */
  lemma {:induction false} RowsExact(db: Database, t: Plan)
    requires Distinct(t) && JoinsOriented(t) && LeavesScoped(t)
    ensures NoRepeats(Rows(db, t))
    ensures forall a :: a in Rows(db, t) <==> InProduct(db, Leaves(t), a) && PlanHolds(db, t, a)
  {
    match t
    case ScanPlan(tab, conds) =>
      ScanRowsExact(db, tab, conds, 0, Size(db, tab));
    case JoinPlan(l, r, conds) =>
      RowsExact(db, l);
      RowsExact(db, r);
      JoinRowsDistinct(db, Rows(db, l), Rows(db, r), conds, Leaves(l), Leaves(r));
      JoinRowsExact(db, Rows(db, l), Rows(db, r), conds);
      forall a ensures a in Rows(db, t) <==> InProduct(db, Leaves(t), a) && PlanHolds(db, t, a) {
        JoinRowSplits(db, t, a);
      }
  }

  lemma JoinRowSplits(db: Database, t: Plan, a: Row)
    requires t.JoinPlan? && Leaves(t.left) !! Leaves(t.right)
    requires JoinsOriented(t) && LeavesScoped(t)
    ensures InProduct(db, Leaves(t), a) && PlanHolds(db, t, a) <==>
            exists l, r ::
              && InProduct(db, Leaves(t.left), l) && PlanHolds(db, t.left, l)
              && InProduct(db, Leaves(t.right), r) && PlanHolds(db, t.right, r)
              && a == l + r && AllHold(db, a, t.conds)
  {
    hide PlanHolds, AllHold;
    PlanHoldsUnfold(db, t, a);
    if InProduct(db, Leaves(t), a) && PlanHolds(db, t, a) {
      var l, r := Restrict(a, Leaves(t.left)), Restrict(a, Leaves(t.right));
      PlanHoldsLocally(db, t.left, a, l);
      PlanHoldsLocally(db, t.right, a, r);
      assert l.Keys == Leaves(t.left) && r.Keys == Leaves(t.right);
      assert a == l + r;
    }
    forall l, r | InProduct(db, Leaves(t.left), l) && PlanHolds(db, t.left, l) &&
                  InProduct(db, Leaves(t.right), r) && PlanHolds(db, t.right, r) &&
                  a == l + r && AllHold(db, a, t.conds)
      ensures InProduct(db, Leaves(t), a) && PlanHolds(db, t, a)
    {
      PlanHoldsLocally(db, t.left, a, l);
      PlanHoldsLocally(db, t.right, a, r);
    }
  }

  lemma PlanHoldsUnfold(db: Database, t: Plan, a: Row)
    requires t.JoinPlan?
    ensures PlanHolds(db, t, a) <==> AllHold(db, a, t.conds) && PlanHolds(db, t.left, a) && PlanHolds(db, t.right, a)
    ensures Leaves(t) == Leaves(t.left) + Leaves(t.right)
  {
  }

  // Conditions up to mirroring have one truth value.

  predicate ClassHolds(db: Database, a: Row, x: set<Condition>) {
    forall c :: c in x ==> Holds(db, a, c)
  }

  ghost predicate ClassesTyped(db: Database, xs: multiset<set<Condition>>) {
    forall x :: x in xs ==> forall c :: c in x ==> Typed(db, c)
  }

  lemma ClassHoldsIff(db: Database, a: Row, c: Condition)
    requires Typed(db, c)
    ensures ClassHolds(db, a, Class(c)) <==> Holds(db, a, c)
  {
    if !c.rhsIsVal {
      MirrorHolds(db, a, c);
      assert c in Class(c);
    }
  }

  lemma AllHoldIffClasses(db: Database, a: Row, conds: seq<Condition>)
    requires ClassesTyped(db, Classes(conds))
    ensures AllHold(db, a, conds) <==> forall x :: x in Classes(conds) ==> ClassHolds(db, a, x)
  {
    forall c | c in conds ensures Class(c) in Classes(conds) && (ClassHolds(db, a, Class(c)) <==> Holds(db, a, c)) {
      ClassesMember(conds, Class(c));
      assert c in Class(c);
      ClassHoldsIff(db, a, c);
    }
    forall x | x in Classes(conds) ensures exists c :: c in conds && Class(c) == x {
      ClassesMember(conds, x);
    }
  }

  lemma {:induction false} PlanHoldsIffClasses(db: Database, t: Plan, a: Row)
    requires ClassesTyped(db, TreeClasses(t))
    ensures PlanHolds(db, t, a) <==> forall x :: x in TreeClasses(t) ==> ClassHolds(db, a, x)
  {
    hide ClassHolds, Classes, Class;
    match t
    case ScanPlan(_, conds) => AllHoldIffClasses(db, a, conds);
    case JoinPlan(l, r, conds) =>
      var xl, xr, xc := TreeClasses(l), TreeClasses(r), Classes(conds);
      assert TreeClasses(t) == xl + xr + xc;
      assert forall x :: x in TreeClasses(t) <==> x in xl || x in xr || x in xc;
      AllHoldIffClasses(db, a, conds);
      PlanHoldsIffClasses(db, l, a);
      PlanHoldsIffClasses(db, r, a);
  }

  /** A plan that attaches exactly the given conditions, up to mirroring, to the given tables. */
  ghost predicate PlanFor(t: Plan, tables: set<string>, conds: seq<Condition>) {
    && Distinct(t) && Leaves(t) == tables
    && JoinsOriented(t) && TreeClasses(t) == Classes(conds)
  }

  /** Exactly the rows of the cross product that satisfy every condition, each once. */
  ghost predicate Answers(db: Database, rows: seq<Row>, tables: set<string>, conds: seq<Condition>) {
    NoRepeats(rows) && forall a :: a in rows <==> InProduct(db, tables, a) && AllHold(db, a, conds)
  }

  ghost predicate NoAnswer(db: Database, tables: set<string>, conds: seq<Condition>) {
    forall a :: InProduct(db, tables, a) ==> !AllHold(db, a, conds)
  }

  ghost predicate AllTyped(db: Database, conds: seq<Condition>) {
    forall c :: c in conds ==> Typed(db, c)
  }

  /** A well-scoped plan for a query yields exactly the rows of the cross product that satisfy every
      WHERE condition, each once, whatever the data. */
  lemma PlanMeansQuery(db: Database, t: Plan, tables: set<string>, conds: seq<Condition>)
    requires PlanFor(t, tables, conds) && LeavesScoped(t) && AllTyped(db, conds)
    ensures Answers(db, Rows(db, t), tables, conds)
  {
    forall x | x in Classes(conds) ensures forall c :: c in x ==> Typed(db, c) {
      ClassesMember(conds, x);
    }
    RowsExact(db, t);
    forall a ensures PlanHolds(db, t, a) <==> AllHold(db, a, conds) {
      PlanHoldsIffClasses(db, t, a);
      AllHoldIffClasses(db, a, conds);
    }
  }

  // A leaf that carries another table's condition.

  lemma {:induction false} NoRightRows(db: Database, ls: seq<Row>, conds: seq<Condition>)
    ensures JoinRows(db, ls, [], conds) == []
  {
    if ls == [] {
    } else {
      NoRightRows(db, ls[1..], conds);
    }
  }

  lemma {:induction false} ForeignConditionFails(
    db: Database, tab: string, conds: seq<Condition>, c: Condition, i: nat, n: nat)
    requires c in conds && !OwnCondition(c, tab) && i <= n
    ensures ScanRows(db, tab, conds, i, n) == []
    decreases n - i
  {
    if i == n {
    } else {
      ForeignConditionFails(db, tab, conds, c, i + 1, n);
      assert !Holds(db, map[tab := i], c);
    }
  }

  /** Such a leaf passes no row, so the whole plan passes none. */
  lemma {:induction false} UnscopedYieldsNothing(db: Database, t: Plan)
    requires !LeavesScoped(t)
    ensures Rows(db, t) == []
  {
    match t
    case ScanPlan(tab, conds) =>
      var c :| c in conds && !OwnCondition(c, tab);
      ForeignConditionFails(db, tab, conds, c, 0, Size(db, tab));
    case JoinPlan(l, r, conds) =>
      if !LeavesScoped(l) {
        UnscopedYieldsNothing(db, l);
      } else {
        UnscopedYieldsNothing(db, r);
        NoRightRows(db, Rows(db, l), conds);
      }
  }
}
