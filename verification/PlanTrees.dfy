/** Queries and the trees that make_one_rel builds for them: how the conditions are shared out, what a tree so
    far carries, and what the finished plan decides (src/optimizer/planner.cpp, src/analyze/analyze.cpp). */
module PlanTrees {
  import opened Wrappers
  import opened Values
  import opened Plans
  import opened Planner
  import opened Delivery

  // Queries.

  /** Some tables, each named once; a condition against a literal has no right-hand column, and the analyzer has
      given every other column its table. Neither parser nor analyzer looks for repeated tables, nor for
      conditions over tables that the FROM list does not have. */
  predicate QueryOk(tables: seq<string>, conds: seq<Condition>) {
    && tables != [] && "" !in tables
    && (forall i, j :: 0 <= i < j < |tables| ==> tables[i] != tables[j])
    && forall c :: c in conds ==> c.lhs.tab != "" && (c.rhsIsVal <==> c.rhs.tab == "")
  }

  /** Both columns of the condition belong to tables of the FROM list. */
  predicate Scoped(tables: seq<string>, c: Condition) {
    c.lhs.tab in tables && c.rhs.tab in tables
  }

  /** The condition is over the FROM list, or compares two columns of one table, whichever that is. */
  predicate InScope(tables: seq<string>, c: Condition) {
    c.lhs.tab == c.rhs.tab || (c.lhs.tab in tables && (c.rhsIsVal || c.rhs.tab in tables))
  }

  predicate AllInScope(tables: seq<string>, conds: seq<Condition>) {
    forall c :: c in conds ==> InScope(tables, c)
  }

  /** Every column-to-column condition inside one table is about the first table of the FROM list. */
  predicate OwnColumnsOnFirst(tables: seq<string>, conds: seq<Condition>)
    requires tables != []
  {
    forall c :: c in conds && c.lhs.tab == c.rhs.tab ==> c.lhs.tab == tables[0]
  }

  ghost function SetOf(tables: seq<string>): set<string> {
    set tab | tab in tables
  }

  // Adding up the conditions of the leaves.

  ghost function Sum(m: map<string, seq<Condition>>): multiset<set<Condition>> {
    if m == map[] then multiset{}
    else
      var k :| k in m;
      Classes(m[k]) + Sum(m - {k})
  }

  lemma {:induction false} SumRemove(m: map<string, seq<Condition>>, k: string)
    requires k in m
    ensures Sum(m) == Classes(m[k]) + Sum(m - {k})
    decreases |m|
  {
    hide *;
    var j := SumUnfolds(m);
    if j == k {
    } else {
      SumRemove(m - {j}, k);
      SumRemove(m - {k}, j);
      assert m - {j} - {k} == m - {k} - {j};
      Exchange(Classes(m[j]), Classes(m[k]), Sum(m - {j} - {k}));
    }
  }

  lemma SumUnfolds(m: map<string, seq<Condition>>) returns (j: string)
    requires m != map[]
    ensures j in m && Sum(m) == Classes(m[j]) + Sum(m - {j})
  {
    hide Classes;
    j :| j in m && Sum(m) == Classes(m[j]) + Sum(m - {j});
  }

  lemma Exchange<T>(a: multiset<T>, b: multiset<T>, c: multiset<T>)
    ensures a + (b + c) == b + (a + c)
  {
  }

  lemma RemoveFromUnion<K, V>(a: map<K, V>, b: map<K, V>, k: K)
    requires k in a && a.Keys !! b.Keys
    ensures k in a + b && (a + b)[k] == a[k] && (a + b) - {k} == (a - {k}) + b
    ensures (a - {k}).Keys !! b.Keys && |a - {k}| < |a|
  {
  }

  lemma SumNothing(b: map<string, seq<Condition>>)
    ensures Sum(map[] + b) == Sum(map[]) + Sum(b)
  {
    assert map[] + b == b;
  }

  lemma Associate<T>(a: multiset<T>, b: multiset<T>, c: multiset<T>)
    ensures a + (b + c) == (a + b) + c
  {
  }

  lemma Rearrange<T>(a: multiset<T>, b: multiset<T>, c: multiset<T>)
    ensures a + (b + c) == (b + a) + c
  {
  }

  lemma {:induction false} SumUnion(a: map<string, seq<Condition>>, b: map<string, seq<Condition>>)
    requires a.Keys !! b.Keys
    ensures Sum(a + b) == Sum(a) + Sum(b)
    decreases |a|
  {
    hide *;
    if a == map[] {
      SumNothing(b);
    } else {
      var k :| k in a;
      RemoveFromUnion(a, b, k);
      SumRemove(a, k);
      SumRemove(a + b, k);
      SumUnion(a - {k}, b);
      Associate(Classes(a[k]), Sum(a - {k}), Sum(b));
    }
  }

  lemma {:induction false} TreeIsJoinsPlusLeaves(t: Plan)
    requires Distinct(t)
    ensures TreeClasses(t) == JoinClasses(t) + Sum(LeafMap(t))
  {
    match t
    case ScanPlan(tab, conds) =>
      SumRemove(LeafMap(t), tab);
      assert LeafMap(t) - {tab} == map[];
    case JoinPlan(l, r, conds) =>
      hide Classes;
      TreeIsJoinsPlusLeaves(l);
      TreeIsJoinsPlusLeaves(r);
      SumUnion(LeafMap(l), LeafMap(r));
  }

  // The scans.

  /** After `n` tables took their conditions: `m` holds what they took, `rest` what is left. */
  ghost predicate Distributed(tables: seq<string>, conds: seq<Condition>, n: nat,
                              m: map<string, seq<Condition>>, rest: seq<Condition>)
    requires n <= |tables|
  {
    && m.Keys == SetOf(tables[..n])
    && Classes(conds) == Sum(m) + Classes(rest)
    && Placed(tables, conds, n, m, rest)
  }

  ghost predicate Placed(tables: seq<string>, conds: seq<Condition>, n: nat,
                         m: map<string, seq<Condition>>, rest: seq<Condition>)
    requires n <= |tables| && m.Keys == SetOf(tables[..n])
  {
    && (n == 0 ==> rest == conds)
    && (n > 0 ==> tables[0] in m && m[tables[0]] == Taken(conds, tables[0]))
    && (forall tab :: tab in m && tab != tables[0] ==> forall c :: c in m[tab] ==> OwnCondition(c, tab))
    && (forall c :: c in rest ==> c in conds && (n > 0 ==> c.lhs.tab != c.rhs.tab) && !(c.rhsIsVal && c.lhs.tab in m))
    && (forall c :: c in conds && c.lhs.tab != c.rhs.tab && !(c.rhsIsVal && c.lhs.tab in m) ==> c in rest)
  }

  /** What is left once every table has taken its conditions. */
  predicate LeftOver(tables: seq<string>, c: Condition) {
    && c.lhs.tab != c.rhs.tab && c.lhs.tab != "" && (c.rhsIsVal <==> c.rhs.tab == "")
    && !(c.rhsIsVal && c.lhs.tab in tables)
  }

  lemma DistinctTables(tables: seq<string>, conds: seq<Condition>)
    requires QueryOk(tables, conds)
    ensures |tables| > 0 && "" !in tables
    ensures forall i, j :: 0 <= i < j < |tables| ==> tables[i] != tables[j]
  {
  }

  lemma NothingDistributed(tables: seq<string>, conds: seq<Condition>)
    ensures Distributed(tables, conds, 0, map[], conds)
  {
    assert tables[..0] == [];
  }

  lemma DistributeNext(tables: seq<string>, conds: seq<Condition>, n: nat,
                       m: map<string, seq<Condition>>, rest: seq<Condition>)
    requires QueryOk(tables, conds) && n < |tables| && Distributed(tables, conds, n, m, rest)
    ensures Distributed(tables, conds, n + 1, m[tables[n] := Taken(rest, tables[n])], Kept(rest, tables[n]))
  {
    var tab := tables[n];
    var m' := m[tab := Taken(rest, tab)];
    NextTable(tables, n);
    assert m'.Keys == SetOf(tables[..n + 1]);
    PlaceNext(tables, conds, n, m, rest);
    SumNext(conds, m, rest, tab);
  }

  lemma SumNext(conds: seq<Condition>, m: map<string, seq<Condition>>, rest: seq<Condition>, tab: string)
    requires tab !in m && Classes(conds) == Sum(m) + Classes(rest)
    ensures Classes(conds) == Sum(m[tab := Taken(rest, tab)]) + Classes(Kept(rest, tab))
  {
    hide *;
    var m' := m[tab := Taken(rest, tab)];
    TakenKeptSplit(rest, tab);
    SumRemove(m', tab);
    assert m' - {tab} == m;
    Rearrange(Sum(m), Classes(Taken(rest, tab)), Classes(Kept(rest, tab)));
  }

  lemma NextTable(tables: seq<string>, n: nat)
    requires n < |tables| && forall i, j :: 0 <= i < j < |tables| ==> tables[i] != tables[j]
    ensures SetOf(tables[..n + 1]) == SetOf(tables[..n]) + {tables[n]} && tables[n] !in SetOf(tables[..n])
  {
    assert tables[..n + 1] == tables[..n] + [tables[n]];
  }

  lemma PlaceNext(tables: seq<string>, conds: seq<Condition>, n: nat,
                  m: map<string, seq<Condition>>, rest: seq<Condition>)
    requires n < |tables| && m.Keys == SetOf(tables[..n]) && Placed(tables, conds, n, m, rest)
    requires m.Keys + {tables[n]} == SetOf(tables[..n + 1]) && tables[n] !in m
    ensures m[tables[n] := Taken(rest, tables[n])].Keys == SetOf(tables[..n + 1])
    ensures Placed(tables, conds, n + 1, m[tables[n] := Taken(rest, tables[n])], Kept(rest, tables[n]))
  {
    TakenKeptMembers(rest, tables[n]);
    hide Taken, Kept;
  }

  lemma AllDistributed(tables: seq<string>, conds: seq<Condition>, m: map<string, seq<Condition>>, rest: seq<Condition>)
    requires QueryOk(tables, conds) && Distributed(tables, conds, |tables|, m, rest)
    ensures m.Keys == SetOf(tables)
    ensures forall c :: c in rest ==> LeftOver(tables, c)
    ensures AllInScope(tables, conds) <==> forall c :: c in rest ==> Scoped(tables, c)
  {
    assert tables[..|tables|] == tables;
    hide Classes, Sum;
  }

  /** The leaves are scoped exactly when the conditions inside one table are about the first table. */
  lemma LeavesScopedIff(tables: seq<string>, conds: seq<Condition>, m: map<string, seq<Condition>>,
                        rest: seq<Condition>, t: Plan)
    requires QueryOk(tables, conds) && Distributed(tables, conds, |tables|, m, rest)
    requires Distinct(t) && LeafMap(t) == m
    ensures LeavesScoped(t) <==> OwnColumnsOnFirst(tables, conds)
  {
    LeavesScopedByTable(t);
    assert tables[..|tables|] == tables;
    assert tables[0] in m;
    TakenKeptMembers(conds, tables[0]);
    if OwnColumnsOnFirst(tables, conds) {
      assert forall c :: c in m[tables[0]] ==> OwnCondition(c, tables[0]);
    } else {
      var c :| c in conds && c.lhs.tab == c.rhs.tab && c.lhs.tab != tables[0];
      assert c in m[tables[0]] && !OwnCondition(c, tables[0]);
    }
  }

  /** A tree over all tables that carries the leaf conditions and exactly the rest at its joins. */
  lemma PlanForQuery(tables: seq<string>, conds: seq<Condition>, m: map<string, seq<Condition>>,
                     rest: seq<Condition>, t: Plan)
    requires QueryOk(tables, conds) && Distributed(tables, conds, |tables|, m, rest)
    requires Distinct(t) && JoinsOriented(t) && LeafMap(t) == m && JoinClasses(t) == Classes(rest)
    ensures PlanFor(t, SetOf(tables), conds)
  {
    AllDistributed(tables, conds, m, rest);
    TreeIsJoinsPlusLeaves(t);
  }

  lemma {:induction false} JoinConditionCrosses(t: Plan, x: set<Condition>)
    requires JoinsOriented(t) && x in JoinClasses(t)
    ensures exists c :: Class(c) == x && !c.rhsIsVal && c.lhs.tab in Leaves(t) && c.rhs.tab in Leaves(t)
  {
    match t
    case ScanPlan(_, _) =>
    case JoinPlan(l, r, conds) =>
      assert Leaves(t) == Leaves(l) + Leaves(r);
      if x in JoinClasses(l) {
        JoinConditionCrosses(l, x);
      } else if x in JoinClasses(r) {
        JoinConditionCrosses(r, x);
      } else {
        ClassesMember(conds, x);
        var c :| c in conds && Class(c) == x;
        assert Crosses(c, Leaves(l), Leaves(r));
      }
  }

  lemma SameClass(c: Condition, d: Condition)
    requires Class(c) == Class(d) && !d.rhsIsVal
    ensures c == d || c == Mirror(d)
  {
    assert c in Class(c);
  }

  /** Whatever tree is built over the scans, it is no plan for the query if a condition is out of scope: no scan
      has taken the condition, and no join of the tables of the FROM list can. */
  lemma OutOfScopeNoPlan(tables: seq<string>, conds: seq<Condition>, m: map<string, seq<Condition>>,
                         rest: seq<Condition>, t: Plan)
    requires QueryOk(tables, conds) && Distributed(tables, conds, |tables|, m, rest)
    requires LeafMap(t) == m && PlanFor(t, SetOf(tables), conds)
    ensures AllInScope(tables, conds)
  {
    AllDistributed(tables, conds, m, rest);
    TreeIsJoinsPlusLeaves(t);
    CancelSum(Classes(conds), Sum(m), Classes(rest), JoinClasses(t));
    forall c | c in rest ensures Scoped(tables, c) {
      ClassesMember(rest, Class(c));
      JoinConditionCrosses(t, Class(c));
      var d :| Class(d) == Class(c) && !d.rhsIsVal && d.lhs.tab in Leaves(t) && d.rhs.tab in Leaves(t);
      SameClass(c, d);
    }
  }

  lemma CancelSum<T>(all: multiset<T>, a: multiset<T>, b: multiset<T>, c: multiset<T>)
    requires all == a + b && all == c + a
    ensures b == c
  {
    assert b == all - a && c == all - a;
  }

  // Building the joins.

  /** Every join but one of two scans has a join as its right child: the tree so far always goes there. */
  predicate GrownRight(t: Plan) {
    t.JoinPlan? && t.right.ScanPlan? ==> t.left.ScanPlan?
  }

  /** The conditions at the joins; none once a condition out of scope was dropped, or put where it cannot be
      read. */
  type Attached = Option<multiset<set<Condition>>>

  ghost function Plus(a: Attached, b: Attached): Attached {
    if a.Some? && b.Some? then Some(a.value + b.value) else None
  }

  ghost function Cond(conds: seq<Condition>, ok: bool): Attached {
    if ok then Some(Classes(conds)) else None
  }

  const NO_CONDITION: Attached := Some(multiset{})

  lemma PlusNothing(a: Attached)
    ensures Plus(NO_CONDITION, a) == a && Plus(a, NO_CONDITION) == a && Plus(a, Cond([], true)) == a
  {
    ClassesNone();
    if a.Some? {
      assert multiset{} + a.value == a.value && a.value + multiset{} == a.value;
    }
  }

  lemma PlusCommutes(a: Attached, b: Attached)
    ensures Plus(a, b) == Plus(b, a)
  {
    if a.Some? && b.Some? {
      assert a.value + b.value == b.value + a.value;
    }
  }

  lemma PlusAssociates(a: Attached, b: Attached, c: Attached)
    ensures Plus(Plus(a, b), c) == Plus(a, Plus(b, c))
  {
    if a.Some? && b.Some? && c.Some? {
      Associate(a.value, b.value, c.value);
    }
  }

  /** The tree built so far: its joins carry `done`, its leaves what their tables took. */
  ghost predicate TreeOk(tables: seq<string>, m: map<string, seq<Condition>>, done: Attached, t: Plan) {
    && Distinct(t) && GrownRight(t) && LeftsFlat(t)
    && (done.Some? ==> JoinsOriented(t) && JoinClasses(t) == done.value)
    && (forall tab :: tab in LeafMap(t) ==> tab in tables && tab in m && LeafMap(t)[tab] == m[tab])
  }

  /** `scantbl` and `joined_tables` name exactly the tables of the tree. */
  ghost predicate Marks(tables: seq<string>, scantbl: seq<int>, joined: seq<string>, leaves: set<string>) {
    && |scantbl| == |tables|
    && (forall i :: 0 <= i < |tables| ==> scantbl[i] == if tables[i] in leaves then 1 else -1)
    && (forall tab :: tab in tables ==> (tab in joined <==> tab in leaves))
  }

  lemma ScanIsTree(tables: seq<string>, m: map<string, seq<Condition>>, k: nat)
    requires k < |tables| && tables[k] in m
    ensures TreeOk(tables, m, NO_CONDITION, ScanPlan(tables[k], m[tables[k]]))
    ensures Leaves(ScanPlan(tables[k], m[tables[k]])) == {tables[k]}
  {
  }

  lemma JoinIsTree(tables: seq<string>, m: map<string, seq<Condition>>, d1: Attached, t1: Plan,
                   d2: Attached, t2: Plan, cs: seq<Condition>, ok: bool)
    requires TreeOk(tables, m, d1, t1) && TreeOk(tables, m, d2, t2) && Leaves(t1) !! Leaves(t2)
    requires ok ==> forall c :: c in cs ==> Crosses(c, Leaves(t1), Leaves(t2))
    requires (t2.ScanPlan? ==> t1.ScanPlan?) && ScansOnRight(t1)
    ensures TreeOk(tables, m, Plus(Plus(d1, d2), Cond(cs, ok)), JoinPlan(t1, t2, cs))
    ensures Leaves(JoinPlan(t1, t2, cs)) == Leaves(t1) + Leaves(t2)
  {
  }

  lemma PushParts(c: Condition, t: Plan)
    requires t.JoinPlan?
    ensures
      var t' := Push(c, t).1;
      t'.JoinPlan? && t'.left == Push(c, t.left).1 && (t'.right == t.right || t'.right == Push(c, t.right).1)
  {
  }

  /** push_conds changes no leaf, whatever the condition. */
  lemma {:induction false} PushKeepsLeaves(c: Condition, t: Plan)
    ensures
      var t' := Push(c, t).1;
      LeafMap(t') == LeafMap(t) && (t'.ScanPlan? <==> t.ScanPlan?) && (Distinct(t') <==> Distinct(t))
  {
    match t
    case ScanPlan(_, _) =>
    case JoinPlan(l, r, _) =>
      PushParts(c, t);
      PushKeepsLeaves(c, l);
      PushKeepsLeaves(c, r);
      hide Push;
  }

  /** Nor does it change the shape of the tree. */
  lemma {:induction false} PushKeepsGrowth(c: Condition, t: Plan)
    ensures
      var t' := Push(c, t).1;
      && (GrownRight(t') <==> GrownRight(t)) && (ScansOnRight(t') <==> ScansOnRight(t))
      && (LeftsFlat(t') <==> LeftsFlat(t))
  {
    match t
    case ScanPlan(_, _) =>
    case JoinPlan(l, r, _) =>
      PushParts(c, t);
      PushKeepsLeaves(c, l);
      PushKeepsLeaves(c, r);
      PushKeepsGrowth(c, l);
      PushKeepsGrowth(c, r);
      hide Push, LeafMap, Distinct;
  }

  lemma PushedIsTree(tables: seq<string>, m: map<string, seq<Condition>>, done: Attached, t: Plan, c: Condition,
                     ok: bool)
    requires TreeOk(tables, m, done, t)
    requires ok ==> CrossTable(c) && c.lhs.tab in Leaves(t) && c.rhs.tab in Leaves(t)
    ensures TreeOk(tables, m, Plus(done, Cond([c], ok)), Push(c, t).1) && Leaves(Push(c, t).1) == Leaves(t)
  {
    hide AddAtLowest, Push, JoinsOriented, Distinct, LeafMap, JoinClasses, Class, Classes, GrownRight, LeftsFlat;
    PushKeepsLeaves(c, t);
    PushKeepsGrowth(c, t);
    ClassesOne(c);
    if ok {
      PushIsAddAtLowest(c, t);
      AddKeepsOriented(c, t, done);
      AddAddsOneClass(c, t);
    }
  }

  lemma AddKeepsOriented(c: Condition, t: Plan, done: Attached)
    requires CrossTable(c) && c.lhs.tab in Leaves(t) && c.rhs.tab in Leaves(t)
    requires done.Some? ==> JoinsOriented(t)
    ensures done.Some? ==> JoinsOriented(AddAtLowest(c, t))
  {
    if done.Some? {
      AddKeepsOrientation(c, t);
    }
  }

  lemma MarkOne(tables: seq<string>, scantbl: seq<int>, joined: seq<string>, leaves: set<string>, k: nat)
    requires Marks(tables, scantbl, joined, leaves) && k < |tables|
    requires forall i, j :: 0 <= i < j < |tables| ==> tables[i] != tables[j]
    ensures Marks(tables, scantbl[k := 1], joined + [tables[k]], leaves + {tables[k]})
  {
  }

  lemma MarkNone(tables: seq<string>, scantbl: seq<int>, joined: seq<string>)
    requires |scantbl| == |tables| && "" !in tables
    requires forall i :: 0 <= i < |tables| ==> scantbl[i] == -1
    requires joined == seq(|tables|, _ => "")
    ensures Marks(tables, scantbl, joined, {})
  {
  }

  lemma MarksOf(tables: seq<string>, scantbl: seq<int>, joined: seq<string>, leaves: set<string>)
    requires Marks(tables, scantbl, joined, leaves)
    ensures forall tab :: tab in tables ==> (tab in joined <==> tab in leaves)
  {
  }

  lemma NoneAdded(leaves: set<string>, a: string, b: string)
    ensures leaves + {} + {} == leaves && leaves + {} + {b} == leaves + {b} && leaves + {a} + {} == leaves + {a}
  {
  }

  lemma ClassesNone()
    ensures Classes([]) == multiset{}
  {
  }

  lemma CondNothing()
    ensures Cond([], true) == NO_CONDITION
  {
  }

  lemma CondMirrored(c: Condition, ok: bool)
    requires ok ==> !c.rhsIsVal
    ensures Cond([Mirror(c)], ok) == Cond([c], ok)
  {
    MirrorTwice(c);
    ClassesOne(c);
    ClassesOne(Mirror(c));
  }

  lemma LeavesAmong(tables: seq<string>, m: map<string, seq<Condition>>, done: Attached, t: Plan)
    requires TreeOk(tables, m, done, t)
    ensures Leaves(t) + SetOf(tables) == SetOf(tables)
  {
  }

  ghost predicate AllScoped(tables: seq<string>, conds: seq<Condition>) {
    forall c :: c in conds ==> Scoped(tables, c)
  }

  lemma NoneScoped(tables: seq<string>)
    ensures AllScoped(tables, [])
  {
  }

  lemma FirstClass(conds: seq<Condition>)
    requires conds != []
    ensures Classes(conds) == multiset{Class(conds[0])} + Classes(conds[1..])
  {
    ClassesConcat([conds[0]], conds[1..]);
    ClassesOne(conds[0]);
    assert conds == [conds[0]] + conds[1..];
  }

  lemma FirstScoped(tables: seq<string>, conds: seq<Condition>, done: Attached)
    requires conds != []
    ensures AllScoped(tables, conds) <==> Scoped(tables, conds[0]) && AllScoped(tables, conds[1..])
    ensures Plus(done, Cond(conds, AllScoped(tables, conds)))
         == Plus(Plus(done, Cond([conds[0]], Scoped(tables, conds[0]))),
                 Cond(conds[1..], AllScoped(tables, conds[1..])))
  {
    FirstClass(conds);
    ClassesOne(conds[0]);
    PlusAssociates(done, Cond([conds[0]], Scoped(tables, conds[0])), Cond(conds[1..], AllScoped(tables, conds[1..])));
    hide Classes, Scoped;
    assert forall c :: c in conds <==> c == conds[0] || c in conds[1..];
  }

  // What a plan decides.

  lemma TwoLeaves(t: Plan)
    requires GrownRight(t) && ScansOnRight(t)
    ensures |Leaves(t)| <= 2
  {
    match t
    case ScanPlan(tab, _) => assert Leaves(t) == {tab};
    case JoinPlan(l, r, _) =>
      assert Leaves(t) == Leaves(l) + Leaves(r);
      assert Leaves(l) == {l.tab} && Leaves(r) == {r.tab};
  }

  lemma ThreeTablesJoinOnRight(t: Plan)
    requires Distinct(t) && GrownRight(t)
    ensures ScansOnRight(t) <==> |Leaves(t)| <= 2
  {
    if |Leaves(t)| <= 2 {
      TwoTablesScanOnRight(t);
    }
    if ScansOnRight(t) {
      TwoLeaves(t);
    }
  }

  lemma {:induction false} CountTables(tables: seq<string>)
    requires forall i, j :: 0 <= i < j < |tables| ==> tables[i] != tables[j]
    ensures |SetOf(tables)| == |tables|
  {
    if tables == [] {
      assert SetOf(tables) == {};
    } else {
      var n := |tables| - 1;
      CountTables(tables[..n]);
      NextTable(tables, n);
      assert tables[..n + 1] == tables;
    }
  }

  /** Every table has two rows at least, and every row of the cross product satisfies the conditions. */
  ghost predicate Ample(db: Database, tables: set<string>, conds: seq<Condition>) {
    && (forall tab :: tab in tables ==> tab in db.rows && |db.rows[tab]| >= 2)
    && forall a :: InProduct(db, tables, a) ==> AllHold(db, a, conds)
  }

  /** Which rows a well-scoped plan delivers: the rows of the cross product that satisfy every condition and take
      the first row of the left child wherever a right child is a join. With at most two tables that is all that
      satisfy every condition; with three or more, rows are lost as soon as there are two of each. */
  ghost predicate Answered(db: Database, t: Plan, tables: seq<string>, conds: seq<Condition>, rows: seq<Row>) {
    && NoRepeats(rows)
    && (forall a :: a in rows <==> InProduct(db, SetOf(tables), a) && AllHold(db, a, conds) && FirstRows(db, t, a))
    && (|tables| <= 2 ==> Answers(db, rows, SetOf(tables), conds))
    && (Ample(db, SetOf(tables), conds) ==> (Answers(db, rows, SetOf(tables), conds) <==> |tables| <= 2))
  }

  /** What the guard on same-table conditions decides about what the executors of a plan deliver. If every such
      condition is about the first table, they throw nothing. If not, they throw whenever the query has an
      answer, and otherwise deliver nothing, which answers the query. They throw if and only if a row reaches a
      misplaced condition in a scan that is opened. */
  ghost predicate Decided(db: Database, t: Plan, tables: seq<string>, conds: seq<Condition>, y: Outcome)
    requires tables != []
  {
    && (y.thrown <==> Throws(db, t, false))
    && if OwnColumnsOnFirst(tables, conds) then !y.thrown && Answered(db, t, tables, conds, y.rows)
       else
         && (!NoAnswer(db, SetOf(tables), conds) ==> y.thrown)
         && (!y.thrown ==> y.rows == [] && Answers(db, [], SetOf(tables), conds))
  }

  lemma AnsweredBy(db: Database, t: Plan, tables: seq<string>, conds: seq<Condition>)
    requires ServesQuery(db, SetOf(tables), conds) && PlanFor(t, SetOf(tables), conds)
    requires LeavesScoped(t) && LeftsFlat(t) && (ScansOnRight(t) <==> |tables| <= 2)
    ensures !Yield(db, t, false).thrown && Answered(db, t, tables, conds, Yield(db, t, false).rows)
  {
    hide Yield, ServesQuery, LeavesScoped, FirstRows, Answers, PlanFor, InProduct, AllHold, ScansOnRight, LeftsFlat;
    FewTables(tables);
    ExecutedPlan(db, t, SetOf(tables), conds);
    PlannedExecution(db, t, SetOf(tables), conds);
    if Ample(db, SetOf(tables), conds) {
      ExecutedInFullIff(db, t, SetOf(tables), conds);
    }
  }

  lemma {:induction false} FewTables(tables: seq<string>)
    ensures |SetOf(tables)| <= |tables|
  {
    if tables == [] {
      assert SetOf(tables) == {};
    } else {
      FewTables(tables[1..]);
      assert SetOf(tables) == {tables[0]} + SetOf(tables[1..]);
    }
  }

  /** A tree of the planner's shape for a query, scoped as the guard says. */
  ghost predicate Planned(t: Plan, tables: seq<string>, conds: seq<Condition>)
    requires tables != []
  {
    && PlanFor(t, SetOf(tables), conds) && LeftsFlat(t) && (ScansOnRight(t) <==> |tables| <= 2)
    && (LeavesScoped(t) <==> OwnColumnsOnFirst(tables, conds))
  }

  /** What the guard decides, on every database. */
  lemma DecidedByGuard(db: Database, t: Plan, tables: seq<string>, conds: seq<Condition>)
    requires tables != [] && Planned(t, tables, conds) && ServesQuery(db, SetOf(tables), conds)
    ensures Decided(db, t, tables, conds, Yield(db, t, false))
  {
    PlanServes(db, t, SetOf(tables), conds);
    PlanParts(t, SetOf(tables), conds);
    YieldThrowsIff(db, t, false);
    hide Answered, Answers, NoAnswer, ServesQuery, PlanFor, Yield, Throws, Served, LeftsFlat, ScansOnRight, Leaves;
    if LeavesScoped(t) {
      AnsweredBy(db, t, tables, conds);
    } else {
      UnscopedDelivered(db, t, SetOf(tables), conds);
    }
  }

  /** The conditions that reach the plan: with one table, those that it takes. */
  function Attaching(tables: seq<string>, conds: seq<Condition>): seq<Condition>
    requires tables != []
  {
    if |tables| == 1 then Taken(conds, tables[0]) else conds
  }

  /** No condition in scope is lost. */
  lemma {:induction false} AttachingAll(tables: seq<string>, conds: seq<Condition>)
    requires tables != [] && AllInScope(tables, conds)
    ensures Attaching(tables, conds) == conds
    decreases |conds|
  {
    if |tables| > 1 || conds == [] {
    } else {
      var n := |conds| - 1;
      assert InScope(tables, conds[n]);
      AttachingAll(tables, conds[..n]);
      assert conds == conds[..n] + [conds[n]];
    }
  }

  lemma PlanToRun(t: Plan, tables: seq<string>, conds: seq<Condition>)
    requires tables != [] && (|tables| == 1 || AllInScope(tables, conds))
    requires AllInScope(tables, conds) ==> Planned(t, tables, conds)
    requires |tables| == 1 ==> Planned(t, tables, Taken(conds, tables[0]))
    ensures Planned(t, tables, Attaching(tables, conds))
  {
    hide Planned, AllInScope;
  }

  lemma ScopedIs(tables: seq<string>, conds: seq<Condition>)
    ensures AllScoped(tables, conds) <==> forall c :: c in conds ==> Scoped(tables, c)
  {
  }

  lemma TreeParts(tables: seq<string>, m: map<string, seq<Condition>>, done: Attached, t: Plan)
    requires TreeOk(tables, m, done, t) && Leaves(t) == m.Keys
    ensures Distinct(t) && GrownRight(t) && LeftsFlat(t) && LeafMap(t) == m
    ensures done.Some? ==> JoinsOriented(t) && JoinClasses(t) == done.value
  {
  }

  lemma CondIs(conds: seq<Condition>, ok: bool)
    ensures Cond(conds, ok) == if ok then Some(Classes(conds)) else None
  {
  }

  lemma PlannedIs(t: Plan, tables: seq<string>, conds: seq<Condition>)
    requires tables != [] && PlanFor(t, SetOf(tables), conds) && LeftsFlat(t) && (ScansOnRight(t) <==> |tables| <= 2)
    requires LeavesScoped(t) <==> OwnColumnsOnFirst(tables, conds)
    ensures Planned(t, tables, conds)
  {
  }

  lemma PlanComplete(tables: seq<string>, conds: seq<Condition>, m: map<string, seq<Condition>>,
                     rest: seq<Condition>, done: Attached, t: Plan)
    requires QueryOk(tables, conds) && Distributed(tables, conds, |tables|, m, rest)
    requires TreeOk(tables, m, done, t) && Leaves(t) == SetOf(tables)
    requires AllScoped(tables, rest) ==> done == Some(Classes(rest))
    ensures tables != []
    ensures PlanFor(t, SetOf(tables), conds) <==> AllInScope(tables, conds)
    ensures AllInScope(tables, conds) ==> Planned(t, tables, conds)
  {
    DistinctTables(tables, conds);
    CountTables(tables);
    AllDistributed(tables, conds, m, rest);
    ScopedIs(tables, rest);
    TreeParts(tables, m, done, t);
    hide *;
    ThreeTablesJoinOnRight(t);
    if AllInScope(tables, conds) {
      PlanForQuery(tables, conds, m, rest, t);
      LeavesScopedIff(tables, conds, m, rest, t);
      PlannedIs(t, tables, conds);
    } else if PlanFor(t, SetOf(tables), conds) {
      OutOfScopeNoPlan(tables, conds, m, rest, t);
    }
  }

  lemma OneTable(tables: seq<string>, m: map<string, seq<Condition>>)
    requires |tables| == 1 && tables[0] in m
    ensures TreeOk(tables, m, NO_CONDITION, ScanPlan(tables[0], m[tables[0]]))
    ensures Leaves(ScanPlan(tables[0], m[tables[0]])) == SetOf(tables)
  {
    ScanIsTree(tables, m, 0);
  }

  lemma OneTableIs(tables: seq<string>, m: map<string, seq<Condition>>, rest: seq<Condition>)
    requires |tables| == 1 && tables[0] in m && forall c :: c in rest ==> LeftOver(tables, c)
    requires TreeOk(tables, m, NO_CONDITION, ScanPlan(tables[0], m[tables[0]]))
    ensures TreeOk(tables, m, Cond(rest, AllScoped(tables, rest)), ScanPlan(tables[0], m[tables[0]]))
  {
    NonEmptyHasMember(rest);
    CondNothing();
    hide Classes;
  }

  /** The plan of one table: its scan with what it takes of the conditions. */
  lemma OneTablePlanned(tables: seq<string>, conds: seq<Condition>, m: map<string, seq<Condition>>,
                        rest: seq<Condition>)
    requires QueryOk(tables, conds) && Distributed(tables, conds, 1, m, rest) && |tables| == 1
    ensures tables[0] in m && Planned(ScanPlan(tables[0], m[tables[0]]), tables, Taken(conds, tables[0]))
  {
    hide Taken, Classes, Sum;
    OneTableTakes(tables, conds, m, rest);
    TakenKeptMembers(conds, tables[0]);
    hide Distributed, Takes;
    assert Leaves(ScanPlan(tables[0], m[tables[0]])) == {tables[0]} == SetOf(tables);
  }

  lemma OneTableTakes(tables: seq<string>, conds: seq<Condition>, m: map<string, seq<Condition>>, rest: seq<Condition>)
    requires QueryOk(tables, conds) && Distributed(tables, conds, 1, m, rest) && |tables| == 1
    ensures tables[0] in m && m[tables[0]] == Taken(conds, tables[0])
    ensures forall c :: c in conds && Takes(tables[0], c) && c.lhs.tab != c.rhs.tab ==> OwnCondition(c, tables[0])
  {
    hide Taken, Classes, Sum;
  }
}
