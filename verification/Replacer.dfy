/** The LRU replacer: a list of evictable frames plus a hash from frame to list position
    (src/replacer/lru_replacer.cpp). */
module Replacer {
  import opened Wrappers

  type FrameId = nat

  ghost predicate NoDuplicates<T>(s: seq<T>) {
    forall i, j :: 0 <= i < j < |s| ==> s[i] != s[j]
  }

  // Specification: the evictable frames, most recently released first.

  function Without(lru: seq<FrameId>, frame: FrameId): (r: seq<FrameId>)
    ensures forall f :: f in r <==> f in lru && f != frame
  {
    if lru == [] then []
    else if lru[0] == frame then Without(lru[1..], frame)
    else [lru[0]] + Without(lru[1..], frame)
  }

  function Released(lru: seq<FrameId>, frame: FrameId, maxSize: nat): seq<FrameId> {
    if frame in lru || |lru| >= maxSize then lru else [frame] + lru
  }

  lemma {:induction false} WithoutAbsent(lru: seq<FrameId>, frame: FrameId)
    requires frame !in lru
    ensures Without(lru, frame) == lru
  {
    if lru == [] {
    } else {
      WithoutAbsent(lru[1..], frame);
    }
  }

  /** Removing a frame keeps the relative order of the others. */
  lemma {:induction false} WithoutSplit(a: seq<FrameId>, frame: FrameId, b: seq<FrameId>)
    requires frame !in a && frame !in b
    ensures Without(a + [frame] + b, frame) == a + b
  {
    if a == [] {
      assert ([frame] + b)[1..] == b;
      assert a + [frame] + b == [frame] + b;
      WithoutAbsent(b, frame);
    } else {
      assert (a + [frame] + b)[1..] == a[1..] + [frame] + b;
      WithoutSplit(a[1..], frame, b);
    }
  }

  lemma WithoutKeepsDistinct(lru: seq<FrameId>, frame: FrameId)
    requires NoDuplicates(lru)
    ensures NoDuplicates(Without(lru, frame))
  {
    if frame in lru {
      var k :| 0 <= k < |lru| && lru[k] == frame;
      assert lru == lru[..k] + [frame] + lru[k + 1..];
      WithoutSplit(lru[..k], frame, lru[k + 1..]);
    } else {
      WithoutAbsent(lru, frame);
    }
  }

  /** Pigeonhole: distinct frames below `n` are at most `n`. */
  lemma {:induction false} DistinctBelow(lru: seq<FrameId>, n: nat)
    requires NoDuplicates(lru) && forall f :: f in lru ==> f < n
    ensures |lru| <= n
  {
    if lru != [] {
      assert lru[0] in lru;
    }
    if n == 0 {
    } else if n - 1 in lru {
      var k :| 0 <= k < |lru| && lru[k] == n - 1;
      var rest := lru[..k] + lru[k + 1..];
      forall f | f in rest ensures f < n - 1 {
        assert f in lru;
        assert f != n - 1;
      }
      DistinctBelow(rest, n - 1);
    } else {
      DistinctBelow(lru, n - 1);
    }
  }

  lemma RemoveAt<T>(s: seq<T>, k: nat)
    requires NoDuplicates(s) && k < |s|
    ensures NoDuplicates(s[..k] + s[k + 1..])
    ensures s[k] !in s[..k] && s[k] !in s[k + 1..]
    ensures s == s[..k] + [s[k]] + s[k + 1..]
  {
  }

  /** A cell of the doubly linked list; `id` stands for the iterator that keeps denoting it. */
  datatype Cell = Cell(id: nat, frame: FrameId)

  ghost function FramesOf(list: seq<Cell>): (r: seq<FrameId>)
    ensures |r| == |list|
  {
    seq(|list|, i requires 0 <= i < |list| => list[i].frame)
  }

  ghost function IdsOf(list: seq<Cell>): (r: seq<nat>)
    ensures |r| == |list|
  {
    seq(|list|, i requires 0 <= i < |list| => list[i].id)
  }

  /** List and hash hold the same duplicate-free set, and each hash entry denotes its frame's cell. */
  ghost predicate Agree(list: seq<Cell>, hash: map<FrameId, nat>, nextId: nat) {
    && NoDuplicates(FramesOf(list)) && NoDuplicates(IdsOf(list))
    && (forall c :: c in list ==> c.id < nextId && c.frame in hash && hash[c.frame] == c.id)
    && (forall f :: f in hash ==> Cell(hash[f], f) in list)
  }

  lemma AgreeMembership(list: seq<Cell>, hash: map<FrameId, nat>, nextId: nat, frame: FrameId)
    requires Agree(list, hash, nextId)
    ensures frame in hash <==> frame in FramesOf(list)
  {
    if frame in hash {
      var i :| 0 <= i < |list| && list[i] == Cell(hash[frame], frame);
      assert FramesOf(list)[i] == frame;
    }
    if frame in FramesOf(list) {
      var i :| 0 <= i < |list| && FramesOf(list)[i] == frame;
      assert list[i] in list;
    }
  }

  lemma EraseCell(list: seq<Cell>, hash: map<FrameId, nat>, nextId: nat, k: nat)
    requires Agree(list, hash, nextId) && k < |list|
    ensures Agree(list[..k] + list[k + 1..], hash - {list[k].frame}, nextId)
    ensures FramesOf(list[..k] + list[k + 1..]) == Without(FramesOf(list), list[k].frame)
  {
    var rest, frame := list[..k] + list[k + 1..], list[k].frame;
    var frames, ids := FramesOf(list), IdsOf(list);
    assert FramesOf(rest) == frames[..k] + frames[k + 1..];
    assert IdsOf(rest) == ids[..k] + ids[k + 1..];
    RemoveAt(frames, k);
    RemoveAt(ids, k);
    WithoutSplit(frames[..k], frame, frames[k + 1..]);
    assert list == list[..k] + [list[k]] + list[k + 1..];
    forall c | c in rest ensures c in list && c.frame != frame {
      var i :| 0 <= i < |rest| && rest[i] == c;
      assert FramesOf(rest)[i] == c.frame;
    }
  }

  class LruReplacer {
    const maxSize: nat
    var list: seq<Cell>
    var hash: map<FrameId, nat>
    var nextId: nat

    ghost predicate Valid()
      reads this
    {
      Agree(list, hash, nextId)
    }

    ghost function Frames(): seq<FrameId>
      reads this
    {
      FramesOf(list)
    }

    constructor (numPages: nat)
      ensures Valid() && Frames() == [] && maxSize == numPages
    {
      maxSize, list, hash, nextId := numPages, [], map[], 0;
    }

    method Victim() returns (victim: Option<FrameId>)
      requires Valid()
      modifies this
      ensures Valid()
      ensures victim.None? <==> old(Frames()) == []
      ensures victim.None? ==> Frames() == old(Frames())
      ensures victim.Some? ==> old(Frames()) == Frames() + [victim.value]
    {
      if list == [] {
        return None;
      }
      var last := list[|list| - 1].frame;
      EraseCell(list, hash, nextId, |list| - 1);
      assert list[..|list| - 1] + list[|list|..] == list[..|list| - 1];
      assert FramesOf(list) == FramesOf(list[..|list| - 1]) + [last];
      list := list[..|list| - 1];
      hash := hash - {last};
      return Some(last);
    }

    method Pin(frame: FrameId)
      requires Valid()
      modifies this
      ensures Valid() && Frames() == Without(old(Frames()), frame)
    {
      AgreeMembership(list, hash, nextId, frame);
      if frame in hash {
        var k := Find(hash[frame]);
        assert list[k] in list && Cell(hash[frame], frame) in list;
        assert list[k].frame == frame by {
          var i :| 0 <= i < |list| && list[i] == Cell(hash[frame], frame);
          assert IdsOf(list)[i] == IdsOf(list)[k];
        }
        EraseCell(list, hash, nextId, k);
        list := list[..k] + list[k + 1..];
        hash := hash - {frame};
      } else {
        WithoutAbsent(Frames(), frame);
      }
    }

    /** Dereference an iterator: the position of the cell it denotes. */
    method Find(id: nat) returns (k: nat)
      requires exists c :: c in list && c.id == id
      ensures k < |list| && list[k].id == id
    {
      k := 0;
      while list[k].id != id
        invariant k < |list|
        invariant exists i :: k <= i < |list| && list[i].id == id
        decreases |list| - k
      {
        k := k + 1;
      }
    }

    method Unpin(frame: FrameId)
      requires Valid()
      modifies this
      ensures Valid() && Frames() == Released(old(Frames()), frame, maxSize)
    {
      AgreeMembership(list, hash, nextId, frame);
      if frame in hash {
        return;
      }
      if |list| >= maxSize {
        return;
      }
      ghost var before := list;
      list := [Cell(nextId, frame)] + list;
      hash := hash[frame := nextId];
      nextId := nextId + 1;
      assert FramesOf(list) == [frame] + FramesOf(before) && IdsOf(list) == [nextId - 1] + IdsOf(before);
      forall i | 0 <= i < |before| ensures IdsOf(before)[i] < nextId - 1 {
        assert before[i] in before;
      }
    }

    method Size() returns (n: nat)
      ensures n == |Frames()|
    {
      n := |list|;
    }
  }
}
