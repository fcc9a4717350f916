/** make_one_rel on mutable plan nodes (src/optimizer/planner.cpp, src/optimizer/plan.h). */
module QueryPlanner {
  import opened Values
  import opened Plans
  import opened Planner
  import opened Delivery
  import opened PlanTrees
  import opened PlanOrder

  /** A ScanPlan (no children) or a JoinPlan. */
  class PlanNode {
    const tab: string
    const left: PlanNode?
    const right: PlanNode?
    var conds: seq<Condition>
    ghost const repr: set<PlanNode>

    /** The nodes below form a tree. */
    ghost predicate Valid()
      decreases repr
    {
      && this in repr && (left == null <==> right == null)
      && (left == null ==> repr == {this})
      && (left != null && right != null ==>
           && repr == {this} + left.repr + right.repr
           && this !in left.repr && this !in right.repr && left.repr !! right.repr
           && left.repr < repr && right.repr < repr
           && left.Valid() && right.Valid())
    }

    ghost function Tree(): Plan
      requires Valid()
      reads repr
      decreases repr
    {
      if left == null then ScanPlan(tab, conds) else JoinPlan(left.Tree(), right.Tree(), conds)
    }

    constructor Scan(tab: string, conds: seq<Condition>)
      ensures Valid() && left == null && repr == {this} && this.tab == tab && this.conds == conds
    {
      this.tab, this.conds, left, right, repr := tab, conds, null, null, {this};
    }

    constructor Join(left: PlanNode, right: PlanNode, conds: seq<Condition>)
      requires left.Valid() && right.Valid() && left.repr !! right.repr
      ensures Valid() && this.left == left && this.right == right
      ensures repr == {this} + left.repr + right.repr
      ensures this.conds == conds
      ensures Tree() == JoinPlan(left.Tree(), right.Tree(), conds)
    {
      this.tab, this.left, this.right, this.conds := "", left, right, conds;
      repr := {this} + left.repr + right.repr;
    }
  }

  /** push_conds: attach the condition inside the tree, in place. */
  method PushConds(c: Condition, plan: PlanNode) returns (res: int)
    requires plan.Valid()
    modifies plan.repr
    ensures (res, plan.Tree()) == Push(c, old(plan.Tree()))
    ensures forall n :: n in plan.repr && n.left == null ==> n.conds == old(n.conds)
    decreases plan.repr
  {
    hide Mirror;
    if plan.left == null {
      return if plan.tab == c.lhs.tab then 1 else if plan.tab == c.rhs.tab then 2 else 0;
    }
    var leftRes := PushConds(c, plan.left);
    if leftRes == 3 {
      return 3;
    }
    var rightRes := PushConds(c, plan.right);
    if rightRes == 3 {
      return 3;
    }
    if leftRes == 0 || rightRes == 0 {
      return leftRes + rightRes;
    }
    var cond := c;
    if leftRes == 2 {
      cond := Mirror(cond);
    }
    plan.conds := plan.conds + [cond];
    return 3;
  }

  /** The scan nodes, one per table. */
  ghost predicate ScansOk(tables: seq<string>, scans: seq<PlanNode>) {
    && |scans| == |tables|
    && (forall i :: 0 <= i < |scans| ==> scans[i].Valid() && scans[i].left == null && scans[i].tab == tables[i])
    && (forall i, j :: 0 <= i < j < |scans| ==> scans[i] != scans[j])
  }

  /** Every scan carries what its table took, and those of other tables are not in the tree. */
  ghost predicate Waiting(tables: seq<string>, m: map<string, seq<Condition>>, scans: seq<PlanNode>, node: PlanNode)
    requires ScansOk(tables, scans) && node.Valid()
    reads scans, node.repr
  {
    && (forall i :: 0 <= i < |scans| ==> tables[i] in m && scans[i].conds == m[tables[i]])
    && (forall i :: 0 <= i < |scans| && tables[i] !in Leaves(node.Tree()) ==> scans[i] !in node.repr)
  }

  /** pop_scan: find the scan of a table, mark it used and remember the table as joined. Null if there is none. */
  method PopScan(scantbl: array<int>, table: string, joined: seq<string>, scans: seq<PlanNode>,
                 ghost tables: seq<string>)
    returns (joined': seq<string>, scan: PlanNode?, ghost k: nat)
    requires ScansOk(tables, scans) && scantbl.Length == |scans|
    modifies scantbl
    ensures scan != null <==> table in tables
    ensures scan != null ==>
      && k < |tables| && scan == scans[k] && tables[k] == table
      && scantbl[..] == old(scantbl[..])[k := 1] && joined' == joined + [table]
    ensures scan == null ==> scantbl[..] == old(scantbl[..]) && joined' == joined
  {
    for i := 0 to |scans|
      invariant scantbl[..] == old(scantbl[..]) && forall j :: 0 <= j < i ==> tables[j] != table
    {
      if scans[i].tab == table {
        scantbl[i] := 1;
        return joined + [scans[i].tab], scans[i], i;
      }
    }
    return joined, null, 0;
  }

  /** Everything make_one_rel relies on between two conditions. */
  ghost predicate Built(tables: seq<string>, m: map<string, seq<Condition>>, done: Attached,
                        scans: seq<PlanNode>, scantbl: seq<int>, joined: seq<string>, node: PlanNode)
    requires ScansOk(tables, scans) && node.Valid()
    reads scans, node.repr
  {
    && TreeOk(tables, m, done, node.Tree())
    && Marks(tables, scantbl, joined, Leaves(node.Tree()))
    && Waiting(tables, m, scans, node)
  }

  /** Join a waiting scan to the left of the tree. */
  method JoinScan(scan: PlanNode, cs: seq<Condition>, node: PlanNode, ghost ok: bool,
                  ghost k: nat, ghost scans: seq<PlanNode>, ghost tables: seq<string>,
                  ghost m: map<string, seq<Condition>>, ghost done: Attached)
    returns (r: PlanNode)
    requires ScansOk(tables, scans) && node.Valid() && Waiting(tables, m, scans, node)
    requires TreeOk(tables, m, done, node.Tree())
    requires forall i, j :: 0 <= i < j < |tables| ==> tables[i] != tables[j]
    requires k < |tables| && tables[k] !in Leaves(node.Tree()) && scan == scans[k]
    requires ok ==> forall c :: c in cs ==> Crosses(c, {tables[k]}, Leaves(node.Tree()))
    ensures r.Valid() && fresh(r) && r.repr == {r, scan} + node.repr && r.left == scan && r.right == node
    ensures TreeOk(tables, m, Plus(done, Cond(cs, ok)), r.Tree())
    ensures Leaves(r.Tree()) == Leaves(node.Tree()) + {tables[k]}
    ensures Waiting(tables, m, scans, r)
    ensures Blocks(r.Tree()) == [[tables[k]]] + Blocks(node.Tree())
    ensures LeafOrder(r.Tree()) == [tables[k]] + LeafOrder(node.Tree())
  {
    hide TreeOk, LeafMap, Plus, Cond;
    ScanIsTree(tables, m, k);
    PlusNothing(done);
    JoinIsTree(tables, m, NO_CONDITION, ScanPlan(tables[k], m[tables[k]]), done, node.Tree(), cs, ok);
    r := new PlanNode.Join(scan, node, cs);
  }

  /** Join two waiting scans on a condition. The first condition starts the tree this way. */
  method JoinScans(c: Condition, left: PlanNode, right: PlanNode,
                   ghost kl: nat, ghost kr: nat, ghost scans: seq<PlanNode>, ghost tables: seq<string>,
                   ghost m: map<string, seq<Condition>>) returns (r: PlanNode)
    requires ScansOk(tables, scans) && kl < |tables| && kr < |tables| && left == scans[kl] && right == scans[kr]
    requires forall i, j :: 0 <= i < j < |tables| ==> tables[i] != tables[j]
    requires forall i :: 0 <= i < |scans| ==> tables[i] in m && scans[i].conds == m[tables[i]]
    requires CrossTable(c) && c.lhs.tab == tables[kl] && c.rhs.tab == tables[kr]
    ensures r.Valid() && fresh(r) && r.repr == {r, left, right} && r.left != null && ScansOnRight(r.Tree())
    ensures TreeOk(tables, m, Cond([c], true), r.Tree()) && Leaves(r.Tree()) == {tables[kl], tables[kr]}
    ensures Waiting(tables, m, scans, r)
    ensures Blocks(r.Tree()) == [[c.lhs.tab], [c.rhs.tab]] && LeafOrder(r.Tree()) == [c.lhs.tab, c.rhs.tab]
  {
    hide TreeOk, LeafMap, Classes, Class, Plus, Cond;
    ScanIsTree(tables, m, kr);
    PlusNothing(Cond([c], true));
    r := JoinScan(left, [c], right, true, kl, scans, tables, m, NO_CONDITION);
  }

  /** Both tables of the condition are new: join their scans first, then join that to the tree. */
  method JoinBoth(c: Condition, left: PlanNode, right: PlanNode, node: PlanNode,
                  ghost kl: nat, ghost kr: nat, ghost scans: seq<PlanNode>, ghost tables: seq<string>,
                  ghost m: map<string, seq<Condition>>, ghost done: Attached) returns (r: PlanNode)
    requires ScansOk(tables, scans) && kl < |tables| && kr < |tables| && left == scans[kl] && right == scans[kr]
    requires forall i, j :: 0 <= i < j < |tables| ==> tables[i] != tables[j]
    requires node.Valid() && Waiting(tables, m, scans, node) && TreeOk(tables, m, done, node.Tree())
    requires node.left != null
    requires CrossTable(c) && c.lhs.tab == tables[kl] && c.rhs.tab == tables[kr]
    requires c.lhs.tab !in Leaves(node.Tree()) && c.rhs.tab !in Leaves(node.Tree())
    ensures r.Valid() && fresh(r.repr - node.repr - {left, right}) && r.left != null
    ensures TreeOk(tables, m, Plus(done, Cond([c], true)), r.Tree())
    ensures Leaves(r.Tree()) == Leaves(node.Tree()) + {c.lhs.tab} + {c.rhs.tab}
    ensures Waiting(tables, m, scans, r)
    ensures Blocks(r.Tree()) == [[c.lhs.tab, c.rhs.tab]] + Blocks(node.Tree())
  {
    hide TreeOk, LeafMap, Classes, Class, Plus, Cond, node.Tree, Leaves, ScansOnRight, Blocks, LeafOrder;
    var temp := JoinScans(c, left, right, kl, kr, scans, tables, m);
    r := JoinTrees(temp, node, scans, tables, m, Cond([c], true), done);
  }

  /** Join two trees without a condition. */
  method JoinTrees(left: PlanNode, right: PlanNode, ghost scans: seq<PlanNode>, ghost tables: seq<string>,
                   ghost m: map<string, seq<Condition>>, ghost d1: Attached, ghost d2: Attached)
    returns (r: PlanNode)
    requires ScansOk(tables, scans) && left.Valid() && right.Valid() && left.repr !! right.repr && right.left != null
    requires Waiting(tables, m, scans, left) && Waiting(tables, m, scans, right)
    requires TreeOk(tables, m, d1, left.Tree()) && TreeOk(tables, m, d2, right.Tree()) && ScansOnRight(left.Tree())
    requires Leaves(left.Tree()) !! Leaves(right.Tree())
    ensures r.Valid() && fresh(r) && r.repr == {r} + left.repr + right.repr && r.left != null
    ensures TreeOk(tables, m, Plus(d2, d1), r.Tree())
    ensures Leaves(r.Tree()) == Leaves(left.Tree()) + Leaves(right.Tree())
    ensures Waiting(tables, m, scans, r)
    ensures Blocks(r.Tree()) == [LeafOrder(left.Tree())] + Blocks(right.Tree())
  {
    IsJoin(right);
    hide TreeOk, LeafMap, Plus, Cond, left.Tree, Leaves, ScansOnRight;
    PlusCommutes(d1, d2);
    PlusNothing(Plus(d1, d2));
    JoinIsTree(tables, m, d1, left.Tree(), d2, right.Tree(), [], true);
    r := new PlanNode.Join(left, right, []);
    JoinedWaiting(tables, m, scans, left, right, r);
  }

  lemma IsJoin(node: PlanNode)
    requires node.Valid() && node.left != null
    ensures node.Tree().JoinPlan?
  {
  }

  lemma JoinedWaiting(tables: seq<string>, m: map<string, seq<Condition>>, scans: seq<PlanNode>,
                      left: PlanNode, right: PlanNode, node: PlanNode)
    requires ScansOk(tables, scans) && left.Valid() && right.Valid() && node.Valid()
    requires Waiting(tables, m, scans, left) && Waiting(tables, m, scans, right)
    requires node.repr == {node} + left.repr + right.repr && forall i :: 0 <= i < |scans| ==> scans[i] != node
    requires Leaves(node.Tree()) == Leaves(left.Tree()) + Leaves(right.Tree())
    ensures Waiting(tables, m, scans, node)
  {
    hide Leaves, node.Tree;
  }

  /** The two look-ups in `joined_tables` and the scans popped for tables that are not in it. A table of the
      condition that the FROM list does not have gets no scan. */
  method PopBoth(c: Condition, scans: seq<PlanNode>, scantbl: array<int>, joined: seq<string>,
                 ghost tables: seq<string>, ghost leaves: set<string>)
    returns (joined': seq<string>, left: PlanNode?, right: PlanNode?, isNeedReverse: bool, ghost kl: nat, ghost kr: nat)
    requires ScansOk(tables, scans) && Marks(tables, scantbl[..], joined, leaves) && c.lhs.tab != c.rhs.tab
    requires forall i, j :: 0 <= i < j < |tables| ==> tables[i] != tables[j]
    modifies scantbl
    ensures left != null <==> c.lhs.tab !in joined && c.lhs.tab in tables
    ensures right != null <==> c.rhs.tab !in joined && c.rhs.tab in tables
    ensures isNeedReverse <==> c.rhs.tab !in joined
    ensures left != null ==> kl < |tables| && left == scans[kl] && tables[kl] == c.lhs.tab && c.lhs.tab !in leaves
    ensures right != null ==> kr < |tables| && right == scans[kr] && tables[kr] == c.rhs.tab && c.rhs.tab !in leaves
    ensures Marks(tables, scantbl[..], joined', leaves + Popped(left, c.lhs.tab) + Popped(right, c.rhs.tab))
  {
    joined', left, right, isNeedReverse := joined, null, null, false;
    kl, kr := 0, 0;
    if c.lhs.tab !in joined {
      joined', left, kl := PopScan(scantbl, c.lhs.tab, joined, scans, tables);
      if left != null {
        MarkOne(tables, old(scantbl[..]), joined, leaves, kl);
      }
    }
    ghost var scantbl1, joined1, leaves1 := scantbl[..], joined', leaves + Popped(left, c.lhs.tab);
    assert Marks(tables, scantbl1, joined1, leaves1);
    if c.rhs.tab !in joined' {
      joined', right, kr := PopScan(scantbl, c.rhs.tab, joined', scans, tables);
      isNeedReverse := true;
      if right != null {
        MarkOne(tables, scantbl1, joined1, leaves1, kr);
      }
    }
  }

  ghost function Popped(scan: PlanNode?, tab: string): set<string> {
    if scan == null then {} else {tab}
  }

  lemma NewTables(tables: seq<string>, t: Plan, c: Condition)
    ensures forall tab :: IsNew(tables, Blocks(t), tab) <==> tab in tables && tab !in Leaves(t)
  {
    BlocksAreLeaves(t);
    hide Blocks, Flat, LeafOrder;
  }

  /** One turn of the loop over the conditions after the first. Null stands for a tree with a null child. A
      condition out of scope gives such a tree, or is dropped, or hangs at a join that cannot read it. */
  method PlaceCondition(c: Condition, scans: seq<PlanNode>, scantbl: array<int>, joined: seq<string>, node: PlanNode,
                        ghost tables: seq<string>, ghost m: map<string, seq<Condition>>, ghost done: Attached)
    returns (joined': seq<string>, r: PlanNode?)
    requires ScansOk(tables, scans) && node.Valid() && Built(tables, m, done, scans, scantbl[..], joined, node)
    requires forall i, j :: 0 <= i < j < |tables| ==> tables[i] != tables[j]
    requires LeftOver(tables, c) && node.left != null
    modifies scantbl, node.repr
    ensures r == null ==> !Scoped(tables, c)
    ensures r != null ==>
      && r.Valid() && fresh(r.repr - node.repr - (set n | n in scans)) && r.left != null
      && Built(tables, m, Plus(done, Cond([c], Scoped(tables, c))), scans, scantbl[..], joined', r)
      && Blocks(r.Tree()) == PlaceBlocks(tables, old(Blocks(node.Tree())), c)
  {
    hide TreeOk, LeafMap, Plus, Cond, Marks, node.Tree, Leaves, Push, Blocks, LeafOrder, Flat;
    NewTables(tables, node.Tree(), c);
    MarksOf(tables, scantbl[..], joined, Leaves(node.Tree()));
    var left: PlanNode?, right: PlanNode?, isNeedReverse;
    ghost var kl, kr;
    joined', left, right, isNeedReverse, kl, kr := PopBoth(c, scans, scantbl, joined, tables, Leaves(node.Tree()));
    if left != null && right != null {
      r := JoinBoth(c, left, right, node, kl, kr, scans, tables, m, done);
    } else if left != null || right != null {
      if isNeedReverse && right == null {
        return joined', null;
      }
      var scan, cond := if isNeedReverse then right else left, if isNeedReverse then Mirror(c) else c;
      ghost var k := if isNeedReverse then kr else kl;
      CondMirrored(c, Scoped(tables, c));
      r := JoinScan(scan, [cond], node, Scoped(tables, c), k, scans, tables, m, done);
      NoneAdded(Leaves(node.Tree()), c.lhs.tab, c.rhs.tab);
    } else {
      NoneAdded(Leaves(node.Tree()), c.lhs.tab, c.rhs.tab);
      PlaceInside(c, scans, scantbl[..], joined', node, tables, m, done);
      r := node;
    }
  }

  /** push_conds, for a condition none of whose tables got a scan now. */
  method PlaceInside(c: Condition, scans: seq<PlanNode>, ghost scantbl: seq<int>, ghost joined: seq<string>,
                     node: PlanNode, ghost tables: seq<string>, ghost m: map<string, seq<Condition>>,
                     ghost done: Attached)
    requires ScansOk(tables, scans) && node.Valid() && Built(tables, m, done, scans, scantbl, joined, node)
    requires LeftOver(tables, c)
    requires Scoped(tables, c) ==> c.lhs.tab in joined && c.rhs.tab in joined
    modifies node.repr
    ensures Built(tables, m, Plus(done, Cond([c], Scoped(tables, c))), scans, scantbl, joined, node)
    ensures Blocks(node.Tree()) == old(Blocks(node.Tree()))
  {
    hide TreeOk, LeafMap, Plus, Cond, Push, Blocks;
    PushKeepsOrder(c, node.Tree());
    PushedIsTree(tables, m, done, node.Tree(), c, Scoped(tables, c));
    var res := PushConds(c, node);
  }

  /** One scan per table, each with the conditions its table takes. */
  method MakeScans(tables: seq<string>, conds: seq<Condition>)
    returns (scans: seq<PlanNode>, rest: seq<Condition>, ghost m: map<string, seq<Condition>>)
    requires QueryOk(tables, conds)
    ensures ScansOk(tables, scans) && Distributed(tables, conds, |tables|, m, rest)
    ensures TookFirst(tables, conds, |tables|, m, rest)
    ensures forall i :: 0 <= i < |scans| ==> fresh(scans[i]) && tables[i] in m && scans[i].conds == m[tables[i]]
  {
    hide Distributed, QueryOk, TookFirst;
    scans, rest, m := [], conds, map[];
    NothingDistributed(tables, conds);
    TookNothing(tables, conds);
    for i := 0 to |tables|
      invariant |scans| == i && Distributed(tables, conds, i, m, rest) && TookFirst(tables, conds, i, m, rest)
      invariant forall k :: 0 <= k < i ==>
        scans[k].Valid() && scans[k].left == null && scans[k].tab == tables[k] && fresh(scans[k])
        && tables[k] in m && scans[k].conds == m[tables[k]]
      invariant forall j, k :: 0 <= j < k < i ==> scans[j] != scans[k]
    {
      DistributeNext(tables, conds, i, m, rest);
      TookNext(tables, conds, i, m, rest);
      DistinctTables(tables, conds);
      var solved;
      solved, rest := PopConds(rest, tables[i]);
      var scan := new PlanNode.Scan(tables[i], solved);
      m := m[tables[i] := solved];
      scans := scans + [scan];
    }
  }

  /** The loop over the conditions after the first. */
  method JoinConditions(conds: seq<Condition>, scans: seq<PlanNode>, scantbl: array<int>, joined: seq<string>,
                        node: PlanNode, ghost tables: seq<string>, ghost m: map<string, seq<Condition>>,
                        ghost done: Attached)
    returns (r: PlanNode?, ghost joined': seq<string>)
    requires ScansOk(tables, scans) && node.Valid() && Built(tables, m, done, scans, scantbl[..], joined, node)
    requires forall i, j :: 0 <= i < j < |tables| ==> tables[i] != tables[j]
    requires forall c :: c in conds ==> LeftOver(tables, c)
    requires node.left != null
    modifies scantbl, node.repr, scans
    ensures r == null ==> !AllScoped(tables, conds)
    ensures r != null ==>
      && r.Valid() && fresh(r.repr - node.repr - (set n | n in scans))
      && Built(tables, m, Plus(done, Cond(conds, AllScoped(tables, conds))), scans, scantbl[..], joined', r)
      && Blocks(r.Tree()) == PlaceAll(tables, old(Blocks(node.Tree())), conds)
    decreases |conds|
  {
    hide TreeOk, LeafMap, Plus, Cond, Built, ScansOk, LeftOver, AllScoped, Scoped, Blocks, PlaceBlocks;
    var rest, joinedTables := conds, joined;
    var n: PlanNode := node;
    ghost var d, all := done, Plus(done, Cond(conds, AllScoped(tables, conds)));
    while rest != []
      invariant n.Valid() && fresh(n.repr - node.repr - (set n | n in scans)) && n.left != null
      invariant ScansOk(tables, scans) && Built(tables, m, d, scans, scantbl[..], joinedTables, n)
      invariant Plus(d, Cond(rest, AllScoped(tables, rest))) == all
      invariant forall c :: c in rest ==> LeftOver(tables, c)
      invariant AllScoped(tables, conds) ==> AllScoped(tables, rest)
      invariant PlaceAll(tables, Blocks(n.Tree()), rest) == PlaceAll(tables, old(Blocks(node.Tree())), conds)
      decreases |rest|
    {
      var c := rest[0];
      joinedTables, r := PlaceCondition(c, scans, scantbl, joinedTables, n, tables, m, d);
      FirstScoped(tables, rest, d);
      if r == null {
        joined' := joinedTables;
        return;
      }
      n := r;
      d := Plus(d, Cond([c], Scoped(tables, c)));
      rest := rest[1..];
    }
    NoneScoped(tables);
    PlusNothing(d);
    r, joined' := n, joinedTables;
  }

  /** The branch for queries with join conditions. */
  method StartTree(tables: seq<string>, conds: seq<Condition>, scans: seq<PlanNode>, scantbl: array<int>,
                   ghost m: map<string, seq<Condition>>) returns (r: PlanNode?)
    requires ScansOk(tables, scans) && conds != [] && tables != [] && "" !in tables
    requires forall i, j :: 0 <= i < j < |tables| ==> tables[i] != tables[j]
    requires forall i :: 0 <= i < |scans| ==> tables[i] in m && scans[i].conds == m[tables[i]]
    requires scantbl.Length == |tables| && forall i :: 0 <= i < |tables| ==> scantbl[i] == -1
    requires forall c :: c in conds ==> LeftOver(tables, c)
    modifies scantbl, scans
    ensures r == null ==> !AllScoped(tables, conds)
    ensures r != null ==>
      && r.Valid() && fresh(r.repr - (set n | n in scans))
      && TreeOk(tables, m, Cond(conds, AllScoped(tables, conds)), r.Tree()) && Waiting(tables, m, scans, r)
      && Blocks(r.Tree()) == BlocksStart(tables, conds)
      && forall i :: 0 <= i < |tables| ==> scantbl[i] == if tables[i] in Leaves(r.Tree()) then 1 else -1
  {
    hide TreeOk, LeafMap, Plus, Cond, AllScoped, Blocks, PlaceAll;
    var joined := seq(|tables|, _ => "");
    var c := conds[0];
    var left: PlanNode?, right: PlanNode?;
    ghost var kl, kr;
    FirstScoped(tables, conds, NO_CONDITION);
    MarkNone(tables, scantbl[..], joined);
    joined, left, kl := PopScan(scantbl, c.lhs.tab, joined, scans, tables);
    if left == null {
      return null;
    }
    MarkOne(tables, old(scantbl[..]), seq(|tables|, _ => ""), {}, kl);
    ghost var scantbl1, joined1 := scantbl[..], joined;
    joined, right, kr := PopScan(scantbl, c.rhs.tab, joined, scans, tables);
    if right == null {
      return null;
    }
    MarkOne(tables, scantbl1, joined1, {} + {c.lhs.tab}, kr);
    assert LeftOver(tables, c);
    var first := JoinScans(c, left, right, kl, kr, scans, tables, m);
    assert Leaves(first.Tree()) == {} + {c.lhs.tab} + {c.rhs.tab};
    PlusNothing(Cond([c], true));
    PlusNothing(Cond(conds, AllScoped(tables, conds)));
    ghost var joined2;
    r, joined2 := JoinConditions(conds[1..], scans, scantbl, joined, first, tables, m, Cond([c], true));
  }

  /** The loop that joins the tables no condition mentioned. */
  method JoinRest(scans: seq<PlanNode>, scantbl: array<int>, node: PlanNode,
                  ghost tables: seq<string>, ghost m: map<string, seq<Condition>>, ghost done: Attached)
    returns (r: PlanNode)
    requires ScansOk(tables, scans) && node.Valid() && TreeOk(tables, m, done, node.Tree()) &&
             Waiting(tables, m, scans, node)
    requires forall i, j :: 0 <= i < j < |tables| ==> tables[i] != tables[j]
    requires scantbl.Length == |tables|
    requires forall i :: 0 <= i < |tables| ==> scantbl[i] == if tables[i] in Leaves(node.Tree()) then 1 else -1
    ensures r.Valid() && fresh(r.repr - node.repr - (set n | n in scans))
    ensures TreeOk(tables, m, done, r.Tree()) && Leaves(r.Tree()) == Leaves(node.Tree()) + SetOf(tables)
    ensures Blocks(r.Tree()) == AddRest(Blocks(node.Tree()), tables)
  {
    hide TreeOk, LeafMap, Plus, Cond, Blocks, Flat, LeafOrder;
    r := node;
    ghost var leaves := Leaves(node.Tree());
    PlusNothing(done);
    for i := 0 to |scans|
      invariant r.Valid() && fresh(r.repr - node.repr - (set n | n in scans))
      invariant TreeOk(tables, m, done, r.Tree()) && Waiting(tables, m, scans, r)
      invariant Leaves(r.Tree()) == leaves + SetOf(tables[..i])
      invariant AddRest(Blocks(r.Tree()), tables[i..]) == AddRest(Blocks(node.Tree()), tables)
    {
      NextTable(tables, i);
      BlocksAreLeaves(r.Tree());
      assert tables[i..][0] == tables[i] && tables[i..][1..] == tables[i + 1..];
      if scantbl[i] == -1 {
        r := JoinScan(scans[i], [], r, true, i, scans, tables, m, done);
      }
    }
    assert tables[..|tables|] == tables;
  }

  /** The joins, over scans that took their conditions. Null if a child is. */
  method JoinTables(tables: seq<string>, conds: seq<Condition>, scans: seq<PlanNode>,
                    ghost m: map<string, seq<Condition>>)
    returns (plan: PlanNode?)
    requires ScansOk(tables, scans) && |tables| > 0 && "" !in tables
    requires forall i, j :: 0 <= i < j < |tables| ==> tables[i] != tables[j]
    requires forall i :: 0 <= i < |scans| ==> tables[i] in m && scans[i].conds == m[tables[i]]
    requires forall c :: c in conds ==> LeftOver(tables, c)
    modifies scans
    ensures plan == null ==> !AllScoped(tables, conds)
    ensures plan != null ==>
      && plan.Valid() && fresh(plan.repr - (set n | n in scans))
      && TreeOk(tables, m, Cond(conds, AllScoped(tables, conds)), plan.Tree()) && Leaves(plan.Tree()) == SetOf(tables)
      && Blocks(plan.Tree()) == AddRest(BlocksStart(tables, conds), tables)
  {
    hide TreeOk, Cond, LeftOver, AllScoped, AddRest, PlaceAll;
    var scantbl := new int[|tables|](_ => -1);
    var tree;
    if |conds| >= 1 {
      plan := StartTree(tables, conds, scans, scantbl, m);
      if plan == null {
        return;
      }
      tree := plan;
    } else {
      tree := scans[0];
      scantbl[0] := 1;
      ScanIsTree(tables, m, 0);
      NoneScoped(tables);
      CondNothing();
    }
    LeavesAmong(tables, m, Cond(conds, AllScoped(tables, conds)), tree.Tree());
    plan := JoinRest(scans, scantbl, tree, tables, m, Cond(conds, AllScoped(tables, conds)));
  }

  lemma ScansDiffer(tables: seq<string>, scans: seq<PlanNode>)
    requires ScansOk(tables, scans)
    ensures |scans| == |tables|
    ensures forall i :: 0 <= i < |scans| ==> scans[i].Valid() && scans[i].left == null && scans[i].tab == tables[i]
  {
  }

  lemma LeafTree(node: PlanNode)
    requires node.Valid() && node.left == null
    ensures node.repr == {node} && node.Tree() == ScanPlan(node.tab, node.conds)
  {
  }

  /** make_one_rel. It makes a plan for the query, with every table a leaf once and every condition attached once
      up to mirroring, if and only if every condition is in scope. If some condition is not, the tree has a null
      child, which is null here, or lacks the condition, or has it where it cannot be read. With one table the
      plan is one for the conditions that the table takes, and the others are dropped. From three tables on,
      some join has a join as its right child. */
  method MakeOneRel(tables: seq<string>, conds: seq<Condition>) returns (plan: PlanNode?)
    requires QueryOk(tables, conds)
    ensures plan == null ==> |tables| > 1 && !AllInScope(tables, conds)
    ensures plan != null ==>
      && plan.Valid() && fresh(plan.repr) && Leaves(plan.Tree()) == SetOf(tables)
      && (PlanFor(plan.Tree(), SetOf(tables), conds) <==> AllInScope(tables, conds))
      && (|tables| == 1 || AllInScope(tables, conds) ==> Planned(plan.Tree(), tables, Attaching(tables, conds)))
      && Blocks(plan.Tree()) == BlocksFor(tables, conds) && LeavesTook(tables, conds, plan.Tree())
  {
    hide *;
    DistinctTables(tables, conds);
    var scans, rest;
    ghost var m;
    scans, rest, m := MakeScans(tables, conds);
    AllDistributed(tables, conds, m, rest);
    ScansDiffer(tables, scans);
    ScopedIs(tables, rest);
    if |tables| == 1 {
      plan := scans[0];
      LeafTree(plan);
      OneTable(tables, m);
      OneTableIs(tables, m, rest);
      OneTablePlanned(tables, conds, m, rest);
    } else {
      plan := JoinTables(tables, rest, scans, m);
      if plan == null {
        return;
      }
    }
    CondIs(rest, AllScoped(tables, rest));
    TookAll(tables, conds, m, rest, Cond(rest, AllScoped(tables, rest)), plan.Tree());
    BlocksForIs(tables, conds, plan.Tree());
    PlanComplete(tables, conds, m, rest, Cond(rest, AllScoped(tables, rest)), plan.Tree());
    if |tables| == 1 || AllInScope(tables, conds) {
      PlanToRun(plan.Tree(), tables, conds);
    }
  }
}
