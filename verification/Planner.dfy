/** Turning a FROM list and a WHERE conjunction into a tree of scans and joins
    (src/optimizer/planner.cpp). */
module Planner {
  import opened Values
  import opened Plans

  // Conditions of one table.

  /** The test of pop_conds. A column-to-column condition inside one table is taken for whichever
      table asks first. */
  predicate Takes(tab: string, c: Condition) {
    (tab == c.lhs.tab && c.rhsIsVal) || c.lhs.tab == c.rhs.tab
  }

  function Taken(conds: seq<Condition>, tab: string): seq<Condition> {
    if conds == [] then []
    else Taken(conds[..|conds| - 1], tab) + if Takes(tab, conds[|conds| - 1]) then [conds[|conds| - 1]] else []
  }

  function Kept(conds: seq<Condition>, tab: string): seq<Condition> {
    if conds == [] then []
    else Kept(conds[..|conds| - 1], tab) + if Takes(tab, conds[|conds| - 1]) then [] else [conds[|conds| - 1]]
  }

  lemma {:induction false} TakenKeptMembers(conds: seq<Condition>, tab: string)
    ensures forall c :: c in Taken(conds, tab) <==> c in conds && Takes(tab, c)
    ensures forall c :: c in Kept(conds, tab) <==> c in conds && !Takes(tab, c)
  {
    if conds == [] {
    } else {
      var n := |conds| - 1;
      TakenKeptMembers(conds[..n], tab);
      assert conds == conds[..n] + [conds[n]];
    }
  }

  lemma TakenKeptLast(conds: seq<Condition>, tab: string)
    requires conds != []
    ensures
      var n := |conds| - 1;
      var one, none := multiset{Class(conds[n])}, multiset{};
      && Classes(Taken(conds, tab)) == Classes(Taken(conds[..n], tab)) + (if Takes(tab, conds[n]) then one else none)
      && Classes(Kept(conds, tab)) == Classes(Kept(conds[..n], tab)) + (if Takes(tab, conds[n]) then none else one)
  {
    var n := |conds| - 1;
    var c, taken, kept := conds[n], Taken(conds[..n], tab), Kept(conds[..n], tab);
    ClassesConcat(taken, [c]);
    ClassesConcat(kept, [c]);
    ClassesOne(c);
    assert taken + [] == taken && kept + [] == kept;
  }

  /** Every condition goes to exactly one side. */
  lemma {:induction false} TakenKeptSplit(conds: seq<Condition>, tab: string)
    ensures Classes(conds) == Classes(Taken(conds, tab)) + Classes(Kept(conds, tab))
  {
    if conds == [] {
    } else {
      hide Class, Takes, Taken, Kept;
      TakenKeptSplit(conds[..|conds| - 1], tab);
      TakenKeptLast(conds, tab);
    }
  }

  lemma ClassesOne(c: Condition)
    ensures Classes([c]) == multiset{Class(c)}
  {
    assert [c][..0] == [];
  }

  /** One turn of the loop of pop_conds. */
  lemma TakeNext(conds: seq<Condition>, tab: string, seen: nat)
    requires seen < |conds|
    ensures
      var c := conds[seen];
      && Taken(conds[..seen + 1], tab) == Taken(conds[..seen], tab) + (if Takes(tab, c) then [c] else [])
      && Kept(conds[..seen + 1], tab) == Kept(conds[..seen], tab) + (if Takes(tab, c) then [] else [c])
  {
    assert conds[..seen + 1][..seen] == conds[..seen];
  }

  /** pop_conds: the vector `conds` is returned as it is after the erasures. */
  method PopConds(conds: seq<Condition>, tab: string) returns (solved: seq<Condition>, rest: seq<Condition>)
    ensures solved == Taken(conds, tab) && rest == Kept(conds, tab)
  {
    hide Taken, Kept;
    solved, rest := [], conds;
    var it := 0;
    ghost var seen, kept := 0, [];
    NothingTaken(conds, tab);
    while it < |rest|
      invariant 0 <= it <= |rest| && 0 <= seen <= |conds|
      invariant solved == Taken(conds[..seen], tab) && kept == Kept(conds[..seen], tab)
      invariant rest == kept + conds[seen..] && it == |kept|
      decreases |rest| - it
    {
      TakeNext(conds, tab, seen);
      ghost var after := conds[seen + 1..];
      assert conds[seen..] == [conds[seen]] + after;
      if Takes(tab, rest[it]) {
        solved := solved + [rest[it]];
        rest := rest[..it] + rest[it + 1..];
        assert rest == kept + after;
      } else {
        kept := kept + [rest[it]];
        it := it + 1;
      }
      seen := seen + 1;
    }
    assert conds[..seen] == conds;
  }

  lemma NothingTaken(conds: seq<Condition>, tab: string)
    ensures Taken(conds[..0], tab) == [] && Kept(conds[..0], tab) == []
  {
  }

  // Pushing a condition down.

  /** push_conds on values: 1 or 2 if only the left or right column's table is below, 0 if neither,
      3 if the condition was attached. */
  function Push(c: Condition, t: Plan): (int, Plan) {
    match t
    case ScanPlan(tab, _) => (if tab == c.lhs.tab then 1 else if tab == c.rhs.tab then 2 else 0, t)
    case JoinPlan(l, r, conds) =>
      var (lr, l') := Push(c, l);
      if lr == 3 then (3, JoinPlan(l', r, conds))
      else
        var (rr, r') := Push(c, r);
        if rr == 3 then (3, JoinPlan(l', r', conds))
        else if lr == 0 || rr == 0 then (lr + rr, JoinPlan(l', r', conds))
        else (3, JoinPlan(l', r', conds + [if lr == 2 then Mirror(c) else c]))
  }

  predicate CrossTable(c: Condition) {
    !c.rhsIsVal && c.lhs.tab != c.rhs.tab
  }

  /** Add the condition at the lowest node that has both tables below it, turned so that its left
      column comes from the left subtree. */
  function AddAtLowest(c: Condition, t: Plan): Plan
    requires c.lhs.tab in Leaves(t) && c.rhs.tab in Leaves(t) && CrossTable(c)
  {
    match t
    case ScanPlan(_, _) => t
    case JoinPlan(l, r, conds) =>
      if c.lhs.tab in Leaves(l) && c.rhs.tab in Leaves(l) then JoinPlan(AddAtLowest(c, l), r, conds)
      else if c.lhs.tab in Leaves(r) && c.rhs.tab in Leaves(r) then JoinPlan(l, AddAtLowest(c, r), conds)
      else JoinPlan(l, r, conds + [if c.lhs.tab in Leaves(l) then c else Mirror(c)])
  }

  /** The answer codes, and the tree: unchanged unless both tables are below, in which case the
      condition goes to their lowest common ancestor. */
  lemma {:induction false} PushIsAddAtLowest(c: Condition, t: Plan)
    requires Distinct(t) && CrossTable(c)
    ensures
      var hasL, hasR := c.lhs.tab in Leaves(t), c.rhs.tab in Leaves(t);
      && Push(c, t).0 == (if hasL && hasR then 3 else if hasL then 1 else if hasR then 2 else 0)
      && Push(c, t).1 == (if hasL && hasR then AddAtLowest(c, t) else t)
  {
    match t
    case ScanPlan(_, _) =>
    case JoinPlan(l, r, _) =>
      PushIsAddAtLowest(c, l);
      PushIsAddAtLowest(c, r);
  }

  lemma {:induction false} AddKeepsLeaves(c: Condition, t: Plan)
    requires CrossTable(c) && c.lhs.tab in Leaves(t) && c.rhs.tab in Leaves(t)
    ensures LeafMap(AddAtLowest(c, t)) == LeafMap(t)
    ensures LeavesScoped(AddAtLowest(c, t)) == LeavesScoped(t)
    ensures Distinct(AddAtLowest(c, t)) == Distinct(t)
  {
    match t
    case ScanPlan(_, _) =>
    case JoinPlan(l, r, conds) =>
      if c.lhs.tab in Leaves(l) && c.rhs.tab in Leaves(l) {
        AddKeepsLeaves(c, l);
      } else if c.lhs.tab in Leaves(r) && c.rhs.tab in Leaves(r) {
        AddKeepsLeaves(c, r);
      }
  }

  lemma {:induction false} AddKeepsOrientation(c: Condition, t: Plan)
    requires JoinsOriented(t) && CrossTable(c) && c.lhs.tab in Leaves(t) && c.rhs.tab in Leaves(t)
    ensures JoinsOriented(AddAtLowest(c, t))
  {
    match t
    case ScanPlan(_, _) =>
    case JoinPlan(l, r, conds) =>
      if c.lhs.tab in Leaves(l) && c.rhs.tab in Leaves(l) {
        AddKeepsOrientation(c, l);
        AddKeepsLeaves(c, l);
      } else if c.lhs.tab in Leaves(r) && c.rhs.tab in Leaves(r) {
        AddKeepsOrientation(c, r);
        AddKeepsLeaves(c, r);
      }
  }

  lemma AddHere(c: Condition, left: set<string>, conds: seq<Condition>)
    requires CrossTable(c)
    ensures Classes(conds + [if c.lhs.tab in left then c else Mirror(c)]) == Classes(conds) + multiset{Class(c)}
  {
    MirrorTwice(c);
    var d := if c.lhs.tab in left then c else Mirror(c);
    ClassesConcat(conds, [d]);
    ClassesOne(d);
  }

  lemma {:induction false} AddAddsOneClass(c: Condition, t: Plan)
    requires CrossTable(c) && c.lhs.tab in Leaves(t) && c.rhs.tab in Leaves(t)
    ensures JoinClasses(AddAtLowest(c, t)) == JoinClasses(t) + multiset{Class(c)}
    ensures TreeClasses(AddAtLowest(c, t)) == TreeClasses(t) + multiset{Class(c)}
  {
    hide Classes, Class, Mirror;
    match t
    case ScanPlan(_, _) =>
    case JoinPlan(l, r, conds) =>
      if c.lhs.tab in Leaves(l) && c.rhs.tab in Leaves(l) {
        AddAddsOneClass(c, l);
      } else if c.lhs.tab in Leaves(r) && c.rhs.tab in Leaves(r) {
        AddAddsOneClass(c, r);
      } else {
        AddHere(c, Leaves(l), conds);
      }
  }

  lemma MirrorTyped(db: Database, c: Condition)
    requires Typed(db, c)
    ensures forall d :: d in Class(c) ==> Typed(db, d)
  {
  }

  /** Pushing a condition filters the rows of the tree by it. */
  lemma PushFilters(db: Database, c: Condition, t: Plan)
    requires Distinct(t) && JoinsOriented(t) && LeavesScoped(t) && CrossTable(c)
    requires c.lhs.tab in Leaves(t) && c.rhs.tab in Leaves(t)
    requires Typed(db, c) && ClassesTyped(db, TreeClasses(t))
    ensures Push(c, t).0 == 3 && NoRepeats(Rows(db, Push(c, t).1))
    ensures forall a :: a in Rows(db, Push(c, t).1) <==> a in Rows(db, t) && Holds(db, a, c)
  {
    PushIsAddAtLowest(c, t);
    AddKeepsLeaves(c, t);
    AddKeepsOrientation(c, t);
    AddAddsOneClass(c, t);
    MirrorTyped(db, c);
    hide AddAtLowest, Class, Typed, LeafMap, Push, JoinsOriented, LeavesScoped, Distinct, Rows;
    var t' := AddAtLowest(c, t);
    RowsExact(db, t);
    RowsExact(db, t');
    forall a ensures PlanHolds(db, t', a) <==> PlanHolds(db, t, a) && Holds(db, a, c) {
      PlanHoldsIffClasses(db, t, a);
      PlanHoldsIffClasses(db, t', a);
      ClassHoldsIff(db, a, c);
      assert forall x :: x in TreeClasses(t') <==> x in TreeClasses(t) || x == Class(c);
    }
  }
}
