/** Repairing the separator keys above a node of the index (src/index/ix_index_handle.cpp,
    maintain_parent; src/index/ix_index_handle.h, find_child). */
module BTree {
  import opened Values

  const IX_NO_PAGE: int := -1

  type Key = seq<bv8>

  /** A page of the index; `children` are the page numbers of the rids. */
  datatype Node = Node(parent: int, isLeaf: bool, keys: seq<Key>, children: seq<int>)

  type Tree = map<int, Node>

  // Trees.

  predicate NodeOk(n: Node, keyLen: nat) {
    && |n.keys| == |n.children|
    && (n.parent != IX_NO_PAGE ==> 0 < |n.keys|)
    && forall i :: 0 <= i < |n.keys| ==> |n.keys[i]| == keyLen
  }

  /** An inner node's children are distinct pages that name it as their parent. */
  ghost predicate ChildrenOk(t: Tree, p: int)
    requires p in t
  {
    t[p].isLeaf
    || (&& (forall i :: 0 <= i < |t[p].children| ==> t[p].children[i] in t && t[t[p].children[i]].parent == p)
        && (forall i, j :: 0 <= i < j < |t[p].children| ==> t[p].children[i] != t[p].children[j]))
  }

  /** A node's parent is an inner node that lists it, closer to the root. */
  ghost predicate ParentOk(t: Tree, height: map<int, nat>, p: int)
    requires p in t && t.Keys <= height.Keys
  {
    var parent := t[p].parent;
    parent == IX_NO_PAGE
    || (parent in t && !t[parent].isLeaf && p in t[parent].children && height[p] < height[parent])
  }

  ghost predicate WellFormed(t: Tree, keyLen: nat, height: map<int, nat>, top: nat) {
    && IX_NO_PAGE !in t && t.Keys <= height.Keys
    && forall p :: p in t ==> NodeOk(t[p], keyLen) && ChildrenOk(t, p) && ParentOk(t, height, p) && height[p] <= top
  }

  /** Two trees that differ in keys only, and there only in inner nodes. */
  ghost predicate SameButInnerKeys(a: Tree, b: Tree) {
    && a.Keys == b.Keys
    && forall p :: p in a ==>
      && a[p].parent == b[p].parent && a[p].isLeaf == b[p].isLeaf && a[p].children == b[p].children
      && |a[p].keys| == |b[p].keys| && (a[p].isLeaf ==> a[p].keys == b[p].keys)
  }

  /** The entry for child number `i` of inner node `p` is the child's first key. */
  ghost predicate EntryRight(t: Tree, p: int, i: nat)
    requires p in t && i < |t[p].keys| == |t[p].children|
  {
    var c := t[p].children[i];
    c in t && t[c].keys != [] && t[p].keys[i] == t[c].keys[0]
  }

  /** Every entry is right, except that those for `but` need not be. */
  ghost predicate RightExcept(t: Tree, but: int) {
    forall p, i ::
      (p in t && !t[p].isLeaf && 0 <= i < |t[p].keys| && |t[p].keys| == |t[p].children| && t[p].children[i] != but)
      ==> EntryRight(t, p, i)
  }

  ghost predicate AllRight(t: Tree) {
    RightExcept(t, IX_NO_PAGE)
  }

  /** Entry `i` of page `q` is the one for `p` or for an ancestor of `p`. */
  ghost predicate OnPath(t: Tree, keyLen: nat, height: map<int, nat>, top: nat, p: int, q: int, i: int)
    requires WellFormed(t, keyLen, height, top) && p in t
    decreases top - height[p]
  {
    var parent := t[p].parent;
    assert ParentOk(t, height, p);
    && parent != IX_NO_PAGE
    && ((q == parent && 0 <= i < |t[q].children| && t[q].children[i] == p)
        || OnPath(t, keyLen, height, top, parent, q, i))
  }

  /** Only entries for `p` and its ancestors differ. */
  ghost predicate ChangedOnPath(t: Tree, t': Tree, keyLen: nat, height: map<int, nat>, top: nat, p: int)
    requires WellFormed(t, keyLen, height, top) && p in t && SameButInnerKeys(t, t')
  {
    forall q, i :: q in t && 0 <= i < |t[q].keys| && t'[q].keys[i] != t[q].keys[i]
      ==> OnPath(t, keyLen, height, top, p, q, i)
  }

  lemma ParentFacts(t: Tree, keyLen: nat, height: map<int, nat>, top: nat, p: int)
    requires WellFormed(t, keyLen, height, top) && p in t && t[p].parent != IX_NO_PAGE
    ensures
      var parent := t[p].parent;
      && parent in t && t.Keys <= height.Keys && height[p] < height[parent] <= top
      && !t[parent].isLeaf && p in t[parent].children && |t[parent].keys| == |t[parent].children|
      && t[p].keys != [] && |t[p].keys[0]| == keyLen
      && forall i :: 0 <= i < |t[parent].keys| ==> |t[parent].keys[i]| == keyLen
  {
    assert NodeOk(t[p], keyLen) && NodeOk(t[t[p].parent], keyLen) && ParentOk(t, height, p);
  }

  lemma InTree(t: Tree, keyLen: nat, height: map<int, nat>, top: nat, p: int)
    requires WellFormed(t, keyLen, height, top) && p in t
    ensures p in height
  {
  }

  // The consistent tree over given leaves is unique.

  lemma {:induction false} FirstKeysAgree(a: Tree, b: Tree, keyLen: nat, height: map<int, nat>, top: nat, p: int)
    requires WellFormed(a, keyLen, height, top) && WellFormed(b, keyLen, height, top)
    requires SameButInnerKeys(a, b) && AllRight(a) && AllRight(b) && p in a
    ensures a[p].keys == b[p].keys
    decreases height[p]
  {
    if a[p].isLeaf {
    } else {
      forall i | 0 <= i < |a[p].keys| ensures a[p].keys[i] == b[p].keys[i] {
        var c := a[p].children[i];
        assert ChildrenOk(a, p) && ParentOk(a, height, c);
        FirstKeysAgree(a, b, keyLen, height, top, c);
        assert EntryRight(a, p, i) && EntryRight(b, p, i);
      }
    }
  }

  /** Shape and leaves determine a tree whose entries are all right. */
  lemma RightTreeUnique(a: Tree, b: Tree, keyLen: nat, height: map<int, nat>, top: nat)
    requires WellFormed(a, keyLen, height, top) && WellFormed(b, keyLen, height, top)
    requires SameButInnerKeys(a, b) && AllRight(a) && AllRight(b)
    ensures a == b
  {
    forall p | p in a ensures a[p] == b[p] {
      FirstKeysAgree(a, b, keyLen, height, top, p);
    }
  }

  // One step up.

  /** Overwrite one key of an inner node. */
  function WithKey(t: Tree, p: int, i: nat, key: Key): Tree
    requires p in t && i < |t[p].keys|
  {
    t[p := t[p].(keys := t[p].keys[i := key])]
  }

  lemma WithKeyKeepsShape(t: Tree, keyLen: nat, height: map<int, nat>, top: nat, p: int, i: nat, key: Key)
    requires WellFormed(t, keyLen, height, top) && p in t && !t[p].isLeaf && i < |t[p].keys| && |key| == keyLen
    ensures WellFormed(WithKey(t, p, i, key), keyLen, height, top)
    ensures SameButInnerKeys(t, WithKey(t, p, i, key))
  {
    var t' := WithKey(t, p, i, key);
    forall q | q in t'
      ensures NodeOk(t'[q], keyLen) && ChildrenOk(t', q) && ParentOk(t', height, q)
    {
      assert NodeOk(t[q], keyLen) && ChildrenOk(t, q) && ParentOk(t, height, q);
    }
  }

  /** Repairing the entry for `c` can only spoil the entry for its parent. */
  lemma RepairMovesUp(t: Tree, keyLen: nat, height: map<int, nat>, top: nat, c: int, i: nat)
    requires WellFormed(t, keyLen, height, top) && RightExcept(t, c) && c in t
    requires t[c].parent != IX_NO_PAGE
    requires t[c].parent in t && i < |t[t[c].parent].keys| == |t[t[c].parent].children|
    requires t[t[c].parent].children[i] == c
    ensures RightExcept(WithKey(t, t[c].parent, i, t[c].keys[0]), t[c].parent)
  {
    var p := t[c].parent;
    var t' := WithKey(t, p, i, t[c].keys[0]);
    assert ParentOk(t, height, c);
    forall q, j | q in t' && !t'[q].isLeaf && 0 <= j < |t'[q].keys| && |t'[q].keys| == |t'[q].children|
        && t'[q].children[j] != p
      ensures EntryRight(t', q, j)
    {
      assert ChildrenOk(t, q);
      if t[q].children[j] != c {
        assert EntryRight(t, q, j);
      } else {
        assert q == p && ChildrenOk(t, p);
      }
    }
  }

  /** When the entry for `c` is right, or `c` is a root, no entry is wrong any more. */
  lemma NothingLeft(t: Tree, keyLen: nat, height: map<int, nat>, top: nat, c: int, i: nat)
    requires WellFormed(t, keyLen, height, top) && RightExcept(t, c) && c in t
    requires t[c].parent == IX_NO_PAGE
          || (t[c].parent in t && i < |t[t[c].parent].keys| == |t[t[c].parent].children|
              && t[t[c].parent].children[i] == c && EntryRight(t, t[c].parent, i))
    ensures AllRight(t)
  {
    forall q, j | q in t && !t[q].isLeaf && 0 <= j < |t[q].keys| && |t[q].keys| == |t[q].children|
      ensures EntryRight(t, q, j)
    {
      assert ChildrenOk(t, q);
    }
  }

  lemma {:induction false} MemCmpZeroIffEqual(a: Key, b: Key)
    requires |a| == |b|
    ensures MemCmp(a, b, |a|) == 0 <==> a == b
  {
    if a == [] {
    } else {
      MemCmpZeroIffEqual(a[1..], b[1..]);
      assert a == [a[0]] + a[1..] && b == [b[0]] + b[1..];
    }
  }

  // The index.

  class IxIndexHandle {
    const keyLen: nat
    var nodes: Tree
    /** Distance from the leaves, and a bound on it. */
    ghost var height: map<int, nat>
    ghost var top: nat

    ghost predicate Valid()
      reads this
    {
      WellFormed(nodes, keyLen, height, top)
    }

    /** find_child. */
    method FindChild(parent: int, child: int) returns (rank: nat)
      requires parent in nodes && child in nodes[parent].children
      ensures rank < |nodes[parent].children| && nodes[parent].children[rank] == child
    {
      rank := 0;
      while rank < |nodes[parent].children|
        invariant rank <= |nodes[parent].children| && child !in nodes[parent].children[..rank]
      {
        if nodes[parent].children[rank] == child {
          break;
        }
        rank := rank + 1;
      }
    }

    /** After the first key of `node` changed: every entry is right again, and only entries above `node` changed. */
    method MaintainParent(node: int)
      requires Valid() && node in nodes && RightExcept(nodes, node)
      modifies this`nodes
      ensures Valid() && AllRight(nodes) && SameButInnerKeys(old(nodes), nodes)
      ensures ChangedOnPath(old(nodes), nodes, keyLen, height, top, node)
    {
      ghost var was := nodes;
      hide WellFormed, RightExcept, NodeOk, ChildrenOk;
      var curr := node;
      InTree(nodes, keyLen, height, top, curr);
      while nodes[curr].parent != IX_NO_PAGE
        invariant Valid() && curr in nodes && RightExcept(nodes, curr) && SameButInnerKeys(was, nodes)
        invariant ChangedOnPath(was, nodes, keyLen, height, top, node)
        invariant forall q, i :: OnPath(was, keyLen, height, top, curr, q, i) ==>
                  OnPath(was, keyLen, height, top, node, q, i)
        invariant curr in height
        decreases top - height[curr]
      {
        var parent := nodes[curr].parent;
        ParentFacts(nodes, keyLen, height, top, curr);
        var rank := FindChild(parent, curr);
        var childFirstKey := nodes[curr].keys[0];
        MemCmpZeroIffEqual(nodes[parent].keys[rank], childFirstKey);
        if MemCmp(nodes[parent].keys[rank], childFirstKey, keyLen) == 0 {
          NothingLeft(nodes, keyLen, height, top, curr, rank);
          return;
        }
        WithKeyKeepsShape(nodes, keyLen, height, top, parent, rank, childFirstKey);
        RepairMovesUp(nodes, keyLen, height, top, curr, rank);
        nodes := WithKey(nodes, parent, rank, childFirstKey);
        curr := parent;
      }
      NothingLeft(nodes, keyLen, height, top, curr, 0);
    }
  }
}
