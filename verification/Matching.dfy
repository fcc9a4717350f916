/** Maximum bipartite matching by augmenting paths
    (deps/googletest/googlemock/src/gmock-matchers.cc). */
module Matching {

  const UNUSED: int := -1

  datatype MatchMatrix = MatchMatrix(lhsSize: nat, rhsSize: nat, edges: set<(int, int)>) {
    predicate HasEdge(l: int, r: int) {
      0 <= l < lhsSize && 0 <= r < rhsSize && (l, r) in edges
    }
  }

  /** A set of edges no two of which share an endpoint. */
  ghost predicate IsMatching(g: MatchMatrix, m: set<(int, int)>) {
    && (forall p :: p in m ==> g.HasEdge(p.0, p.1))
    && (forall p, q :: p in m && q in m && p != q ==> p.0 != q.0 && p.1 != q.1)
  }

  /** The two vectors are mutually referent, except that `right[hole]` may be stale. */
  ghost predicate Linked(g: MatchMatrix, left: seq<int>, right: seq<int>, hole: int) {
    && |left| == g.lhsSize && |right| == g.rhsSize
    && (forall l :: 0 <= l < |left| && left[l] != UNUSED ==>
         g.HasEdge(l, left[l]) && right[left[l]] == l)
    && (forall r :: 0 <= r < |right| && r != hole && right[r] != UNUSED ==>
         0 <= right[r] < |left| && left[right[r]] == r)
  }

  ghost predicate NeighboursIn(g: MatchMatrix, l: int, t: set<int>) {
    forall r :: g.HasEdge(l, r) ==> r in t
  }

  /** A set of right nodes that is fully matched and that its partners cannot leave. */
  ghost predicate Closed(g: MatchMatrix, right: seq<int>, t: set<int>) {
    forall r :: r in t ==>
      0 <= r < |right| && right[r] != UNUSED && NeighboursIn(g, right[r], t)
  }

  /** No search from `l` can succeed any more: all its neighbours lie in `t`. */
  ghost predicate Stuck(g: MatchMatrix, left: seq<int>, n: int, t: set<int>) {
    forall l :: 0 <= l < n <= |left| && left[l] == UNUSED ==> NeighboursIn(g, l, t)
  }

  ghost function Marked(seen: seq<bool>): set<int> {
    set r | 0 <= r < |seen| && seen[r]
  }

  ghost function Unmarked(seen: seq<bool>): set<int> {
    set r | 0 <= r < |seen| && !seen[r]
  }

  ghost function Pairs(left: seq<int>): set<(int, int)> {
    set l | 0 <= l < |left| && left[l] != UNUSED :: (l, left[l])
  }

  /** The list holds the matched pairs, each once, by left node. */
  ghost predicate Collected(result: seq<(int, int)>, left: seq<int>) {
    && (forall i, j :: 0 <= i < j < |result| ==> result[i].0 < result[j].0)
    && (forall p :: p in result ==> p.0 < |left|)
    && (set p | p in result) == Pairs(left)
    && |result| == |Pairs(left)|
  }

  lemma CollectNext(result: seq<(int, int)>, left: seq<int>)
    requires left != [] && Collected(result, left[..|left| - 1])
    ensures
      var n := |left| - 1;
      Collected(if left[n] == UNUSED then result else result + [(n, left[n])], left)
  {
    hide Pairs;
    var n := |left| - 1;
    PairsNext(left);
    if left[n] != UNUSED {
      ElementsNext(result, (n, left[n]));
    }
  }

  lemma ElementsNext(result: seq<(int, int)>, pair: (int, int))
    ensures (set p | p in result + [pair]) == (set p | p in result) + {pair}
    ensures pair in (set p | p in result) <==> pair in result
  {
  }

  lemma PairsNext(left: seq<int>)
    requires left != []
    ensures
      var n := |left| - 1;
      Pairs(left) == if left[n] == UNUSED then Pairs(left[..n]) else Pairs(left[..n]) + {(n, left[n])}
  {
  }

  /** What a search that found no free right node leaves behind. */
  ghost predicate DeadEnd(g: MatchMatrix, right: seq<int>, ilhs: int, seen0: seq<bool>, seen1: seq<bool>) {
    && |seen0| == |seen1| == |right|
    && NeighboursIn(g, ilhs, Marked(seen1))
    && (forall r :: 0 <= r < |seen1| && seen1[r] && !seen0[r] ==>
         right[r] != UNUSED && NeighboursIn(g, right[r], Marked(seen1)))
  }

  /** What a successful search does: it re-routes only through right nodes not seen before. */
  ghost predicate Augmented(g: MatchMatrix, left0: seq<int>, right0: seq<int>, seen0: seq<bool>,
                            ilhs: int, left1: seq<int>, right1: seq<int>) {
    && |left0| == |left1| && |right0| == |right1| == |seen0| && 0 <= ilhs < |left0|
    && Linked(g, left1, right1, left0[ilhs])
    && left1[ilhs] != UNUSED && 0 <= left1[ilhs] < |seen0| && !seen0[left1[ilhs]]
    && (forall r :: 0 <= r < |right0| && seen0[r] ==> right1[r] == right0[r])
    && (forall l :: 0 <= l < |left0| && l != ilhs ==> (left1[l] == UNUSED <==> left0[l] == UNUSED))
    && (forall l :: 0 <= l < |left0| && l != ilhs && 0 <= left0[l] < |seen0| && seen0[left0[l]] ==>
         left1[l] == left0[l])
  }

  lemma InjectionBound<A, B>(a: set<A>, b: set<B>, f: A -> B)
    requires forall x :: x in a ==> f(x) in b
    requires forall x, y :: x in a && y in a && x != y ==> f(x) != f(y)
    ensures |a| <= |b|
  {
    if a != {} {
      var x :| x in a;
      InjectionBound(a - {x}, b - {f(x)}, f);
    }
  }

  /** A closed set `t` that holds every neighbour of every unmatched left node certifies that the
      matching recorded in `left` is maximum: each edge of a competitor is charged either to the
      pair at its right end (inside `t`) or to the pair at its left end (outside). */
  lemma CertifiedMaximum(g: MatchMatrix, left: seq<int>, right: seq<int>, t: set<int>, m: set<(int, int)>)
    requires Linked(g, left, right, UNUSED)
    requires Closed(g, right, t) && Stuck(g, left, |left|, t)
    requires IsMatching(g, m)
    ensures IsMatching(g, Pairs(left)) && |m| <= |Pairs(left)|
  {
    var charge := (p: (int, int)) =>
      if p.1 in t then (if 0 <= p.1 < |right| then right[p.1] else UNUSED, p.1)
      else (p.0, if 0 <= p.0 < |left| then left[p.0] else UNUSED);
    forall p | p in m
      ensures charge(p) in Pairs(left)
      ensures charge(p).1 in t <==> p.1 in t
    {
      assert g.HasEdge(p.0, p.1);
      if p.1 !in t && left[p.0] in t {
        assert false;
      }
    }
    InjectionBound(m, Pairs(left), charge);
  }

  /** A failed search from `ilhs` extends the certificate by the right nodes it marked. */
  lemma AfterFailure(g: MatchMatrix, left: seq<int>, right: seq<int>, ilhs: int, seen: seq<bool>, t: set<int>)
    requires Linked(g, left, right, UNUSED) && 0 <= ilhs < |left|
    requires Closed(g, right, t) && Stuck(g, left, ilhs, t)
    requires DeadEnd(g, right, ilhs, seq(|right|, _ => false), seen)
    ensures Closed(g, right, t + Marked(seen)) && Stuck(g, left, ilhs + 1, t + Marked(seen))
  {
    forall r | r in Marked(seen)
      ensures right[r] != UNUSED && NeighboursIn(g, right[r], t + Marked(seen))
    {
      assert NeighboursIn(g, right[r], Marked(seen));
    }
  }

  /** A successful search from `ilhs` keeps the certificate. */
  lemma AfterSuccess(g: MatchMatrix, left0: seq<int>, right0: seq<int>, ilhs: int,
                     left1: seq<int>, right1: seq<int>, t: set<int>)
    requires 0 <= ilhs < |left0| && left0[ilhs] == UNUSED
    requires Closed(g, right0, t) && Stuck(g, left0, ilhs, t)
    requires Augmented(g, left0, right0, seq(|right0|, _ => false), ilhs, left1, right1)
    requires forall r :: r in t ==> 0 <= r < |right1| && right1[r] == right0[r]
    ensures Linked(g, left1, right1, UNUSED)
    ensures Closed(g, right1, t) && Stuck(g, left1, ilhs + 1, t)
  {
  }

  /** Re-routing `ilhs` to a right node that is free, or that the search below has freed. */
  ghost predicate Freed(g: MatchMatrix, left0: seq<int>, right0: seq<int>, seen: seq<bool>, irhs: int,
                        left1: seq<int>, right1: seq<int>) {
    && |right0| == |seen| && 0 <= irhs < |seen| && seen[irhs]
    && if right0[irhs] == UNUSED then left1 == left0 && right1 == right0
       else Augmented(g, left0, right0, seen, right0[irhs], left1, right1)
  }

  lemma Rerouted(g: MatchMatrix, left0: seq<int>, right0: seq<int>, seen0: seq<bool>, seen: seq<bool>,
                 ilhs: int, irhs: int, left1: seq<int>, right1: seq<int>)
    requires Linked(g, left0, right0, UNUSED) && 0 <= ilhs < |left0| && |left1| == |left0| && |right1| == |right0|
    requires |seen0| == |seen| == |right0| && g.HasEdge(ilhs, irhs) && !seen0[irhs]
    requires left0[ilhs] == UNUSED || seen0[left0[ilhs]]
    requires forall r :: 0 <= r < |seen0| && seen0[r] ==> seen[r]
    requires Freed(g, left0, right0, seen, irhs, left1, right1)
    ensures Augmented(g, left0, right0, seen0, ilhs, left1[ilhs := irhs], right1[irhs := ilhs])
  {
  }

  class MaxBipartiteMatchState {
    const graph: MatchMatrix
    const left: array<int>
    const right: array<int>

    ghost predicate Valid()
      reads left, right
    {
      left != right && Linked(graph, left[..], right[..], UNUSED)
    }

    constructor (graph: MatchMatrix)
      ensures this.graph == graph && Valid() && fresh(left) && fresh(right)
      ensures forall l :: 0 <= l < left.Length ==> left[l] == UNUSED
    {
      this.graph := graph;
      left := new int[graph.lhsSize](_ => UNUSED);
      right := new int[graph.rhsSize](_ => UNUSED);
    }

    /** Depth-first search for an augmenting path from `ilhs`. The ghost set `t` is any closed set:
        the search never succeeds through it and leaves it alone. */
    method TryAugment(ilhs: int, seen: array<bool>, ghost t: set<int>) returns (found: bool)
      requires Valid() && seen.Length == graph.rhsSize
      requires 0 <= ilhs < graph.lhsSize
      requires left[ilhs] == UNUSED || seen[left[ilhs]]
      requires Closed(graph, right[..], t)
      modifies left, right, seen
      ensures forall r :: 0 <= r < seen.Length && old(seen[r]) ==> seen[r]
      ensures !found ==> left[..] == old(left[..]) && right[..] == old(right[..])
      ensures !found ==> DeadEnd(graph, right[..], ilhs, old(seen[..]), seen[..])
      ensures found ==> Augmented(graph, old(left[..]), old(right[..]), old(seen[..]), ilhs, left[..], right[..])
      ensures found ==> !NeighboursIn(graph, ilhs, t)
      ensures found ==> forall r :: r in t ==> 0 <= r < right.Length && right[r] == old(right[r])
      decreases Unmarked(seen[..])
    {
      ghost var left0, right0, seen0 := left[..], right[..], seen[..];
      for irhs := 0 to graph.rhsSize
        invariant left[..] == left0 && right[..] == right0
        invariant forall r :: 0 <= r < seen.Length && seen0[r] ==> seen[r]
        invariant forall r :: 0 <= r < irhs && graph.HasEdge(ilhs, r) ==> seen[r]
        invariant forall r :: 0 <= r < seen.Length && seen[r] && !seen0[r] ==>
                    right0[r] != UNUSED && NeighboursIn(graph, right0[r], Marked(seen[..]))
      {
        if seen[irhs] { continue; }
        if !graph.HasEdge(ilhs, irhs) { continue; }
        ghost var before := seen[..];
        seen[irhs] := true;
        ghost var seen1 := seen[..];
        assert Unmarked(seen1) < Unmarked(seen0) by {
          assert irhs in Unmarked(seen0) && irhs !in Unmarked(seen1);
        }
        var open := right[irhs] == UNUSED;
        if !open {
          open := TryAugment(right[irhs], seen, t);
        }
        if open {
          Rerouted(graph, left0, right0, seen0, seen1, ilhs, irhs, left[..], right[..]);
          left[ilhs] := irhs;
          right[irhs] := ilhs;
          hide Augmented;
          return true;
        }
      }
      return false;
    }

    /** The matched pairs, in order of their left node. */
    method Compute() returns (result: seq<(int, int)>)
      requires Valid()
      requires forall l :: 0 <= l < left.Length ==> left[l] == UNUSED
      modifies left, right
      ensures Valid()
      ensures forall i, j :: 0 <= i < j < |result| ==> result[i].0 < result[j].0
      ensures IsMatching(graph, set p | p in result)
      ensures forall m :: IsMatching(graph, m) ==> |m| <= |result|
    {
      ghost var t: set<int> := {};
      for ilhs := 0 to graph.lhsSize
        invariant Valid()
        invariant forall l :: ilhs <= l < left.Length ==> left[l] == UNUSED
        invariant Closed(graph, right[..], t) && Stuck(graph, left[..], ilhs, t)
      {
        assert left[ilhs] == UNUSED;
        var seen := new bool[graph.rhsSize](_ => false);
        ghost var left0, right0 := left[..], right[..];
        var found := TryAugment(ilhs, seen, t);
        if found {
          AfterSuccess(graph, left0, right0, ilhs, left[..], right[..], t);
        } else {
          AfterFailure(graph, left0, right0, ilhs, seen[..], t);
          t := t + Marked(seen[..]);
        }
      }
      result := CollectPairs();
      forall m | IsMatching(graph, m) ensures |m| <= |result| {
        CertifiedMaximum(graph, left[..], right[..], t, m);
      }
      CertifiedMaximum(graph, left[..], right[..], t, {});
    }

    method CollectPairs() returns (result: seq<(int, int)>)
      requires Valid()
      ensures Collected(result, left[..])
    {
      result := [];
      for ilhs := 0 to left.Length
        invariant Collected(result, left[..ilhs])
      {
        assert left[..ilhs + 1][..ilhs] == left[..ilhs];
        CollectNext(result, left[..ilhs + 1]);
        hide Collected;
        var irhs := left[ilhs];
        if irhs == UNUSED {
          continue;
        }
        result := result + [(ilhs, irhs)];
      }
      assert left[..left.Length] == left[..];
    }
  }

  method FindMaxBipartiteMatching(g: MatchMatrix) returns (result: seq<(int, int)>)
    ensures forall i, j :: 0 <= i < j < |result| ==> result[i].0 < result[j].0
    ensures IsMatching(g, set p | p in result)
    ensures forall m :: IsMatching(g, m) ==> |m| <= |result|
  {
    var state := new MaxBipartiteMatchState(g);
    result := state.Compute();
  }
}
