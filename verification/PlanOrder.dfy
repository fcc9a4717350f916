/** In which order the planner joins the tables, as a function of the FROM list and the conditions, and which rows
    that order lets through (src/optimizer/planner.cpp). */
module PlanOrder {
  import opened Values
  import opened Plans
  import opened Planner
  import opened Delivery
  import opened PlanTrees

  // The order of the tables in a tree.

  /** The tables of the leaves, from left to right. */
  function LeafOrder(t: Plan): (r: seq<string>)
    ensures r != []
  {
    match t
    case ScanPlan(tab, _) => [tab]
    case JoinPlan(l, r, _) => LeafOrder(l) + LeafOrder(r)
  }

  /** The left children along the right edge of the tree, from the root down, and the scan at its end. */
  function Blocks(t: Plan): (r: seq<seq<string>>)
    ensures r != []
  {
    match t
    case ScanPlan(tab, _) => [[tab]]
    case JoinPlan(l, r, _) => [LeafOrder(l)] + Blocks(r)
  }

  function Flat(blocks: seq<seq<string>>): seq<string> {
    if blocks == [] then [] else blocks[0] + Flat(blocks[1..])
  }

  lemma FlatFirst(block: seq<string>, blocks: seq<seq<string>>)
    ensures Flat([block] + blocks) == block + Flat(blocks)
  {
    assert ([block] + blocks)[1..] == blocks;
  }

  lemma {:induction false} BlocksAreLeaves(t: Plan)
    ensures Flat(Blocks(t)) == LeafOrder(t)
    ensures forall tab :: tab in Leaves(t) <==> tab in LeafOrder(t)
  {
    match t
    case ScanPlan(tab, _) =>
      FlatFirst([tab], []);
      assert [[tab]] + [] == [[tab]];
    case JoinPlan(l, r, _) =>
      BlocksAreLeaves(l);
      BlocksAreLeaves(r);
      FlatFirst(LeafOrder(l), Blocks(r));
  }

  /** push_conds moves no table. */
  lemma {:induction false} PushKeepsOrder(c: Condition, t: Plan)
    ensures LeafOrder(Push(c, t).1) == LeafOrder(t) && Blocks(Push(c, t).1) == Blocks(t)
  {
    match t
    case ScanPlan(_, _) =>
    case JoinPlan(l, r, _) =>
      PushParts(c, t);
      PushKeepsOrder(c, l);
      PushKeepsOrder(c, r);
      hide Push;
  }

  // What the planner takes and what it leaves for the joins.

  /** Not a comparison inside one table, once a table has looked at it, and not one with a literal about these. */
  predicate Passes(tabs: seq<string>, c: Condition) {
    tabs == [] || (c.lhs.tab != c.rhs.tab && !(c.rhsIsVal && c.lhs.tab in tabs))
  }

  /** The conditions that these tables leave, in order. */
  function Beyond(tabs: seq<string>, conds: seq<Condition>): seq<Condition> {
    if conds == [] then []
    else
      Beyond(tabs, conds[..|conds| - 1])
      + if Passes(tabs, conds[|conds| - 1]) then [conds[|conds| - 1]] else []
  }

  /** The comparisons of the table with literals, in order. */
  function OnLiterals(conds: seq<Condition>, tab: string): seq<Condition> {
    if conds == [] then []
    else
      OnLiterals(conds[..|conds| - 1], tab)
      + if conds[|conds| - 1].rhsIsVal && conds[|conds| - 1].lhs.tab == tab then [conds[|conds| - 1]] else []
  }

  /** What the scan of each table takes: every table its comparisons with literals, the first one also all those of
      two columns of one table. */
  function LeafConds(tables: seq<string>, conds: seq<Condition>, i: nat): seq<Condition>
    requires i < |tables|
  {
    if i == 0 then Taken(conds, tables[0]) else OnLiterals(conds, tables[i])
  }

  lemma {:induction false} KeptSnoc(conds: seq<Condition>, c: Condition, tab: string)
    ensures Kept(conds + [c], tab) == Kept(conds, tab) + if Takes(tab, c) then [] else [c]
    ensures Taken(conds + [c], tab) == Taken(conds, tab) + if Takes(tab, c) then [c] else []
  {
    assert (conds + [c])[..|conds|] == conds;
  }

  lemma {:induction false} NothingPassed(conds: seq<Condition>)
    ensures Beyond([], conds) == conds
  {
    if conds == [] {
    } else {
      NothingPassed(conds[..|conds| - 1]);
      assert conds == conds[..|conds| - 1] + [conds[|conds| - 1]];
    }
  }

  predicate Known(conds: seq<Condition>) {
    forall c :: c in conds ==> c.lhs.tab != "" && (c.rhsIsVal <==> c.rhs.tab == "")
  }

  lemma BeyondSnoc(tabs: seq<string>, conds: seq<Condition>)
    requires conds != []
    ensures
      var n := |conds| - 1;
      Beyond(tabs, conds) == Beyond(tabs, conds[..n]) + if Passes(tabs, conds[n]) then [conds[n]] else []
    ensures forall tab :: OnLiterals(conds, tab)
                       == OnLiterals(conds[..|conds| - 1], tab)
                          + if conds[|conds| - 1].rhsIsVal && conds[|conds| - 1].lhs.tab == tab
                            then [conds[|conds| - 1]] else []
  {
  }

  lemma PassesNext(tabs: seq<string>, c: Condition, tab: string)
    ensures Passes(tabs + [tab], c) <==> Passes(tabs, c) && !Takes(tab, c)
  {
  }

  lemma TakesLiteral(tabs: seq<string>, c: Condition, tab: string)
    requires c.lhs.tab != "" && (c.rhsIsVal <==> c.rhs.tab == "") && tab !in tabs && tabs != []
    ensures Passes(tabs, c) && Takes(tab, c) <==> c.rhsIsVal && c.lhs.tab == tab
  {
  }

  /** One more table. */
  lemma {:induction false} NextTakes(tabs: seq<string>, conds: seq<Condition>, tab: string)
    requires Known(conds) && tab !in tabs
    ensures Kept(Beyond(tabs, conds), tab) == Beyond(tabs + [tab], conds)
    ensures tabs != [] ==> Taken(Beyond(tabs, conds), tab) == OnLiterals(conds, tab)
    decreases |conds|
  {
    if conds == [] {
    } else {
      var n := |conds| - 1;
      var c, before := conds[n], Beyond(tabs, conds[..n]);
      assert c in conds;
      NextTakes(tabs, conds[..n], tab);
      KeptSnoc(before, c, tab);
      BeyondSnoc(tabs, conds);
      BeyondSnoc(tabs + [tab], conds);
      PassesNext(tabs, c, tab);
      if tabs != [] {
        TakesLiteral(tabs, c, tab);
      }
      hide *;
      assert before + [] == before;
    }
  }

  // The order as a function of the FROM list and the conditions.

  /** A table of the FROM list that is not joined yet. */
  predicate IsNew(tables: seq<string>, blocks: seq<seq<string>>, tab: string) {
    tab in tables && tab !in Flat(blocks)
  }

  /** A later condition puts the tables it brings in front: both of them as one block, or the one. */
  function PlaceBlocks(tables: seq<string>, blocks: seq<seq<string>>, c: Condition): seq<seq<string>> {
    var l, r := IsNew(tables, blocks, c.lhs.tab), IsNew(tables, blocks, c.rhs.tab);
    if l && r then [[c.lhs.tab, c.rhs.tab]] + blocks
    else if l then [[c.lhs.tab]] + blocks
    else if r then [[c.rhs.tab]] + blocks
    else blocks
  }

  function PlaceAll(tables: seq<string>, blocks: seq<seq<string>>, conds: seq<Condition>): seq<seq<string>>
    decreases |conds|
  {
    if conds == [] then blocks else PlaceAll(tables, PlaceBlocks(tables, blocks, conds[0]), conds[1..])
  }

  /** The tables that no condition brought in follow in the order of the FROM list, each in front of all before. */
  function AddRest(blocks: seq<seq<string>>, tables: seq<string>): seq<seq<string>>
    decreases |tables|
  {
    if tables == [] then blocks
    else AddRest(if tables[0] in Flat(blocks) then blocks else [[tables[0]]] + blocks, tables[1..])
  }

  function BlocksStart(tables: seq<string>, crossing: seq<Condition>): seq<seq<string>>
    requires tables != []
  {
    if crossing == [] then [[tables[0]]]
    else PlaceAll(tables, [[crossing[0].lhs.tab], [crossing[0].rhs.tab]], crossing[1..])
  }

  function BlocksFor(tables: seq<string>, conds: seq<Condition>): seq<seq<string>>
    requires tables != []
  {
    if |tables| == 1 then [tables] else AddRest(BlocksStart(tables, Beyond(tables, conds)), tables)
  }

  // What the order is.

  function Reversed(tables: seq<string>): seq<string> {
    if tables == [] then [] else Reversed(tables[1..]) + [tables[0]]
  }

  /** The tables of the list that are not among these. */
  function Others(tables: seq<string>, joined: seq<string>): seq<string> {
    if tables == [] then []
    else (if tables[0] in joined then [] else [tables[0]]) + Others(tables[1..], joined)
  }

  predicate Different(tables: seq<string>) {
    forall i, j :: 0 <= i < j < |tables| ==> tables[i] != tables[j]
  }

  lemma {:induction false} OthersMore(tables: seq<string>, joined: seq<string>, tab: string)
    requires tab !in tables
    ensures Others(tables, [tab] + joined) == Others(tables, joined)
  {
    if tables == [] {
    } else {
      OthersMore(tables[1..], joined, tab);
    }
  }

  predicate EndsWith(all: seq<seq<string>>, blocks: seq<seq<string>>) {
    |all| >= |blocks| && all[|all| - |blocks|..] == blocks
  }

  lemma EndsWithMore(all: seq<seq<string>>, next: seq<seq<string>>, blocks: seq<seq<string>>)
    requires EndsWith(all, next) && EndsWith(next, blocks)
    ensures EndsWith(all, blocks)
  {
    assert all[|all| - |blocks|..] == all[|all| - |next|..][|next| - |blocks|..];
  }

  lemma InFront(block: seq<string>, blocks: seq<seq<string>>)
    ensures EndsWith([block] + blocks, blocks) && EndsWith(blocks, blocks)
  {
  }

  /** The tables left over stand in front of the blocks, each by itself. */
  lemma {:induction false} RestSingle(blocks: seq<seq<string>>, tables: seq<string>)
    ensures
      var all := AddRest(blocks, tables);
      EndsWith(all, blocks) && forall i :: 0 <= i < |all| - |blocks| ==> |all[i]| == 1
    decreases |tables|
  {
    if tables == [] {
    } else if tables[0] in Flat(blocks) {
      RestSingle(blocks, tables[1..]);
    } else {
      var next := [[tables[0]]] + blocks;
      RestSingle(next, tables[1..]);
      InFront([tables[0]], blocks);
      var all := AddRest(next, tables[1..]);
      EndsWithMore(all, next, blocks);
      assert all[|all| - |next|] == all[|all| - |next|..][0];
    }
  }

  lemma DifferentRest(tables: seq<string>)
    requires tables != [] && Different(tables)
    ensures Different(tables[1..]) && tables[0] !in tables[1..]
  {
  }

  /** The last of the FROM list comes first. */
  lemma {:induction false} RestInFront(blocks: seq<seq<string>>, tables: seq<string>)
    requires Different(tables)
    ensures Flat(AddRest(blocks, tables)) == Reversed(Others(tables, Flat(blocks))) + Flat(blocks)
    decreases |tables|
  {
    hide Flat, Different;
    if tables == [] {
      assert [] + Flat(blocks) == Flat(blocks);
    } else {
      var tab, rest := tables[0], tables[1..];
      var others := Others(rest, Flat(blocks));
      DifferentRest(tables);
      if tab in Flat(blocks) {
        RestInFront(blocks, rest);
        assert [] + others == others;
      } else {
        RestInFront([[tab]] + blocks, rest);
        FlatFirst([tab], blocks);
        OthersMore(rest, Flat(blocks), tab);
        assert ([tab] + others)[1..] == others;
        assert Reversed(others) + ([tab] + Flat(blocks)) == Reversed(others) + [tab] + Flat(blocks);
      }
    }
  }

  lemma FlatOne(tab: string)
    ensures Flat([[tab]]) == [tab]
  {
    FlatFirst([tab], []);
    assert [[tab]] + [] == [[tab]];
  }

  /** Without conditions between tables the leaves are the FROM list backwards, each table a block by itself. */
  lemma NoCrossingReversed(tables: seq<string>, conds: seq<Condition>)
    requires tables != [] && Different(tables) && Beyond(tables, conds) == []
    ensures Flat(BlocksFor(tables, conds)) == Reversed(tables)
    ensures forall i :: 0 <= i < |BlocksFor(tables, conds)| ==> |BlocksFor(tables, conds)[i]| == 1
  {
    hide Beyond, Flat, AddRest, Different;
    var first := [[tables[0]]];
    FlatOne(tables[0]);
    DifferentRest(tables);
    if |tables| == 1 {
      assert tables == [tables[0]] && tables[1..] == [];
      assert [tables] == first;
    } else {
      RestInFront(first, tables);
      RestSingle(first, tables);
      OthersAll(tables[1..], [tables[0]]);
      OthersFirst(tables);
      var all := AddRest(first, tables);
      assert all[|all| - 1] == all[|all| - 1..][0];
    }
  }

  lemma OthersFirst(tables: seq<string>)
    requires tables != []
    ensures Others(tables, [tables[0]]) == Others(tables[1..], [tables[0]])
  {
  }

  lemma {:induction false} OthersAll(tables: seq<string>, joined: seq<string>)
    requires forall tab :: tab in tables ==> tab !in joined
    ensures Others(tables, joined) == tables
  {
    if tables == [] {
    } else {
      OthersAll(tables[1..], joined);
    }
  }

  lemma PlacedEnds(tables: seq<string>, blocks: seq<seq<string>>, c: Condition)
    ensures EndsWith(PlaceBlocks(tables, blocks, c), blocks)
  {
    InFront([c.lhs.tab, c.rhs.tab], blocks);
    InFront([c.lhs.tab], blocks);
    InFront([c.rhs.tab], blocks);
    hide EndsWith, IsNew;
  }

  lemma {:induction false} PlacedInFront(tables: seq<string>, blocks: seq<seq<string>>, conds: seq<Condition>)
    ensures EndsWith(PlaceAll(tables, blocks, conds), blocks)
    decreases |conds|
  {
    if conds == [] {
      InFront([], blocks);
    } else {
      hide EndsWith, PlaceBlocks;
      var next := PlaceBlocks(tables, blocks, conds[0]);
      PlacedEnds(tables, blocks, conds[0]);
      PlacedInFront(tables, next, conds[1..]);
      EndsWithMore(PlaceAll(tables, next, conds[1..]), next, blocks);
    }
  }

  /** The two tables of the first condition between tables stand innermost, in its order; what later conditions
      bring in stands before them, and before that the tables that are left, the last of the FROM list first. */
  lemma FirstCrossingInnermost(tables: seq<string>, conds: seq<Condition>)
    requires |tables| > 1 && Different(tables) && Beyond(tables, conds) != []
    ensures
      var c, all := Beyond(tables, conds)[0], BlocksFor(tables, conds);
      var start := BlocksStart(tables, Beyond(tables, conds));
      && EndsWith(all, start) && EndsWith(start, [[c.lhs.tab], [c.rhs.tab]])
      && Flat(all) == Reversed(Others(tables, Flat(start))) + Flat(start)
  {
    var cs := Beyond(tables, conds);
    PlacedInFront(tables, [[cs[0].lhs.tab], [cs[0].rhs.tab]], cs[1..]);
    RestInFront(BlocksStart(tables, cs), tables);
    RestSingle(BlocksStart(tables, cs), tables);
  }

  // Which rows come through.

  /** The left children along the right edge. */
  function Lefts(t: Plan): seq<Plan> {
    match t
    case ScanPlan(_, _) => []
    case JoinPlan(l, r, _) => [l] + Lefts(r)
  }

  lemma {:induction false} LeftsAreBlocks(t: Plan)
    ensures |Blocks(t)| == |Lefts(t)| + 1
    ensures forall i :: 0 <= i < |Lefts(t)| ==> LeafOrder(Lefts(t)[i]) == Blocks(t)[i]
  {
    match t
    case ScanPlan(_, _) =>
    case JoinPlan(l, r, _) => LeftsAreBlocks(r);
  }

  /** The row takes the first row of the plan's. */
  ghost predicate TakesFirst(db: Database, l: Plan, a: Row) {
    Rows(db, l) != [] && Restrict(a, Leaves(l)) == Rows(db, l)[0]
  }

  lemma {:induction false} LeftsBelow(t: Plan)
    ensures forall l :: l in Lefts(t) ==> Leaves(l) <= Leaves(t)
  {
    match t
    case ScanPlan(_, _) =>
    case JoinPlan(l, r, _) => LeftsBelow(r);
  }

  lemma RestrictTwice(a: Row, s: set<string>, t: set<string>)
    requires s <= t
    ensures Restrict(Restrict(a, t), s) == Restrict(a, s)
  {
  }

  lemma FirstRowsNext(db: Database, t: Plan, a: Row)
    requires t.JoinPlan? && t.right.JoinPlan?
    ensures FirstRows(db, t, a) <==> TakesFirst(db, t.left, a) && FirstRows(db, t.right, Restrict(a, Leaves(t.right)))
    ensures Lefts(t) == [t.left] + Lefts(t.right) && |Lefts(t.right)| >= 1
  {
    hide Rows, Restrict;
  }

  lemma SameFirst(db: Database, r: Plan, a: Row, i: nat)
    requires i < |Lefts(r)|
    ensures TakesFirst(db, Lefts(r)[i], Restrict(a, Leaves(r))) <==> TakesFirst(db, Lefts(r)[i], a)
  {
    LeftsBelow(r);
    assert Lefts(r)[i] in Lefts(r);
    RestrictTwice(a, Leaves(Lefts(r)[i]), Leaves(r));
    hide Rows, Restrict;
  }

  /** A row comes through if and only if it takes the first row of every left child but the last. */
  lemma {:induction false} FirstRowsAre(db: Database, t: Plan, a: Row)
    ensures FirstRows(db, t, a) <==> forall i :: 0 <= i < |Lefts(t)| - 1 ==> TakesFirst(db, Lefts(t)[i], a)
  {
    if t.JoinPlan? && t.right.JoinPlan? {
      var r, b := t.right, Restrict(a, Leaves(t.right));
      FirstRowsAre(db, r, b);
      FirstRowsNext(db, t, a);
      forall i | 0 <= i < |Lefts(r)| ensures TakesFirst(db, Lefts(r)[i], b) <==> TakesFirst(db, Lefts(t)[i + 1], a) {
        SameFirst(db, r, a, i);
      }
      hide *;
      var ls, rs := Lefts(t), Lefts(r);
      assert ls[0] == t.left;
      if TakesFirst(db, t.left, a) && forall i :: 0 <= i < |rs| - 1 ==> TakesFirst(db, rs[i], b) {
        forall i | 0 <= i < |ls| - 1 ensures TakesFirst(db, ls[i], a) {
          assert i > 0 ==> TakesFirst(db, rs[i - 1], b);
        }
      }
      if forall i :: 0 <= i < |ls| - 1 ==> TakesFirst(db, ls[i], a) {
        forall i | 0 <= i < |rs| - 1 ensures TakesFirst(db, rs[i], b) {
          assert TakesFirst(db, ls[i + 1], a);
        }
      }
    } else if t.JoinPlan? {
      assert Lefts(t.right) == [];
    }
  }

  // What the scans of make_one_rel take.

  /** After the first `n` tables took their conditions. */
  ghost predicate TookFirst(tables: seq<string>, conds: seq<Condition>, n: nat, m: map<string, seq<Condition>>,
                            rest: seq<Condition>)
    requires n <= |tables|
  {
    && rest == Beyond(tables[..n], conds)
    && forall i :: 0 <= i < n ==> tables[i] in m && m[tables[i]] == LeafConds(tables, conds, i)
  }

  lemma TookNothing(tables: seq<string>, conds: seq<Condition>)
    ensures TookFirst(tables, conds, 0, map[], conds)
  {
    assert tables[..0] == [];
    NothingPassed(conds);
  }

  lemma TookNext(tables: seq<string>, conds: seq<Condition>, n: nat, m: map<string, seq<Condition>>,
                 rest: seq<Condition>)
    requires QueryOk(tables, conds) && n < |tables| && TookFirst(tables, conds, n, m, rest)
    ensures TookFirst(tables, conds, n + 1, m[tables[n] := Taken(rest, tables[n])], Kept(rest, tables[n]))
  {
    var tab, tabs := tables[n], tables[..n];
    assert tables[..n + 1] == tabs + [tab];
    assert tab !in tabs;
    NextTakes(tabs, conds, tab);
    if n == 0 {
      assert tabs == [];
      NothingPassed(conds);
    }
    hide Taken, Kept, Beyond, OnLiterals;
    assert forall i :: 0 <= i < n ==> tables[i] != tab;
  }

  /** Each leaf has what its table took. */
  ghost predicate LeavesTook(tables: seq<string>, conds: seq<Condition>, t: Plan) {
    && LeafMap(t).Keys == SetOf(tables)
    && forall i :: 0 <= i < |tables| ==> tables[i] in LeafMap(t) && LeafMap(t)[tables[i]] == LeafConds(tables, conds, i)
  }

  lemma TookAll(tables: seq<string>, conds: seq<Condition>, m: map<string, seq<Condition>>, rest: seq<Condition>,
                done: Attached, t: Plan)
    requires QueryOk(tables, conds) && TookFirst(tables, conds, |tables|, m, rest)
    requires TreeOk(tables, m, done, t) && Leaves(t) == SetOf(tables)
    ensures rest == Beyond(tables, conds) && LeavesTook(tables, conds, t)
  {
    assert tables[..|tables|] == tables;
    hide Beyond, LeafConds;
    forall i | 0 <= i < |tables| ensures tables[i] in LeafMap(t) {
      assert tables[i] in SetOf(tables);
    }
  }

  lemma BlocksForIs(tables: seq<string>, conds: seq<Condition>, t: Plan)
    requires tables != []
    ensures |tables| > 1 ==> BlocksFor(tables, conds) == AddRest(BlocksStart(tables, Beyond(tables, conds)), tables)
    ensures |tables| == 1 && t.ScanPlan? && t.tab == tables[0] ==> BlocksFor(tables, conds) == Blocks(t)
  {
    if |tables| == 1 {
      assert tables == [tables[0]];
    }
    hide AddRest, BlocksStart, Beyond;
  }

  lemma {:induction false} SinglesFlat(blocks: seq<seq<string>>)
    requires forall i :: 0 <= i < |blocks| ==> |blocks[i]| == 1
    ensures |Flat(blocks)| == |blocks| && forall i :: 0 <= i < |blocks| ==> blocks[i] == [Flat(blocks)[i]]
  {
    if blocks == [] {
    } else {
      SinglesFlat(blocks[1..]);
      forall i | 0 <= i < |blocks| ensures blocks[i] == [Flat(blocks)[i]] {
        if i > 0 {
          assert blocks[i] == blocks[1..][i - 1];
        }
      }
    }
  }

  lemma {:induction false} ReversedAt(tables: seq<string>, k: nat)
    requires k < |tables|
    ensures |Reversed(tables)| == |tables| && Reversed(tables)[|tables| - 1 - k] == tables[k]
  {
    if |tables| > 1 {
      ReversedAt(tables[1..], if k == 0 then 0 else k - 1);
    }
  }

  /** A left child's leaves carry what the whole tree's do. */
  lemma {:induction false} LeftLeaves(t: Plan, k: nat)
    requires Distinct(t) && k < |Lefts(t)|
    ensures
      var left := LeafMap(Lefts(t)[k]);
      forall tab :: tab in left ==> tab in LeafMap(t) && LeafMap(t)[tab] == left[tab]
  {
    match t
    case ScanPlan(_, _) =>
    case JoinPlan(l, r, _) =>
      if k > 0 {
        LeftLeaves(r, k - 1);
      }
  }

  lemma OneLeaf(t: Plan)
    requires |LeafOrder(t)| == 1
    ensures t.ScanPlan? && t.tab == LeafOrder(t)[0]
  {
  }

  lemma BackwardsBlock(tables: seq<string>, conds: seq<Condition>, t: Plan, k: nat)
    requires tables != [] && Different(tables) && Beyond(tables, conds) == []
    requires Blocks(t) == BlocksFor(tables, conds) && k < |tables|
    ensures |Blocks(t)| == |tables| && Blocks(t)[|tables| - 1 - k] == [tables[k]]
  {
    NoCrossingReversed(tables, conds);
    SinglesFlat(Blocks(t));
    ReversedAt(tables, k);
  }

  /** The left child for the table at place `k` is its scan. */
  lemma ScanAt(tables: seq<string>, conds: seq<Condition>, t: Plan, k: nat)
    requires tables != [] && Different(tables) && Beyond(tables, conds) == [] && Distinct(t)
    requires Blocks(t) == BlocksFor(tables, conds) && LeavesTook(tables, conds, t) && 0 < k < |tables|
    ensures |Lefts(t)| == |tables| - 1
    ensures Lefts(t)[|tables| - 1 - k] == ScanPlan(tables[k], LeafConds(tables, conds, k))
  {
    var i := |tables| - 1 - k;
    BackwardsBlock(tables, conds, t, k);
    LeftsAreBlocks(t);
    OneLeaf(Lefts(t)[i]);
    LeftLeaves(t, i);
    hide Blocks, BlocksFor, Beyond, LeafConds, Distinct, Different, Lefts, LeafOrder;
    var left := Lefts(t)[i];
    assert tables[k] in LeafMap(left);
  }

  /** The row takes the first row of the table at place `k` that passes the table's own conditions. */
  ghost predicate TakesFirstOf(db: Database, tables: seq<string>, conds: seq<Condition>, k: nat, a: Row)
    requires k < |tables|
  {
    TakesFirst(db, ScanPlan(tables[k], LeafConds(tables, conds, k)), a)
  }

  lemma LeftTakesFirst(db: Database, tables: seq<string>, conds: seq<Condition>, t: Plan, a: Row, k: nat)
    requires tables != [] && Different(tables) && Beyond(tables, conds) == [] && Distinct(t)
    requires Blocks(t) == BlocksFor(tables, conds) && LeavesTook(tables, conds, t) && 0 < k < |tables|
    ensures |Lefts(t)| == |tables| - 1
    ensures TakesFirst(db, Lefts(t)[|tables| - 1 - k], a) <==> TakesFirstOf(db, tables, conds, k, a)
  {
    ScanAt(tables, conds, t, k);
    hide Lefts, TakesFirst, LeafConds;
  }

  /** Without conditions between tables: the rows that come through take, of every table but the first two of the
      FROM list, the first row that passes the table's own conditions. */
  lemma FirstTwoVary(db: Database, tables: seq<string>, conds: seq<Condition>, t: Plan, a: Row)
    requires tables != [] && Different(tables) && Beyond(tables, conds) == [] && Distinct(t)
    requires Blocks(t) == BlocksFor(tables, conds) && LeavesTook(tables, conds, t)
    ensures FirstRows(db, t, a) <==> forall k :: 2 <= k < |tables| ==> TakesFirstOf(db, tables, conds, k, a)
  {
    FirstRowsAre(db, t, a);
    if |tables| == 1 {
      BackwardsBlock(tables, conds, t, 0);
      LeftsAreBlocks(t);
    } else {
      hide *;
      LeftTakesFirst(db, tables, conds, t, a, 1);
      var n, ls := |tables| - 1, Lefts(t);
      if FirstRows(db, t, a) {
        forall k | 2 <= k < |tables| ensures TakesFirstOf(db, tables, conds, k, a) {
          LeftTakesFirst(db, tables, conds, t, a, k);
          assert TakesFirst(db, ls[n - k], a);
        }
      }
      if forall k :: 2 <= k < |tables| ==> TakesFirstOf(db, tables, conds, k, a) {
        forall i | 0 <= i < |ls| - 1 ensures TakesFirst(db, ls[i], a) {
          LeftTakesFirst(db, tables, conds, t, a, n - i);
          assert TakesFirstOf(db, tables, conds, n - i, a);
        }
      }
    }
  }
}
