/** Moving the selected columns of a row into a narrower record (src/execution/executor_projection.h). */
module Projection {
  import opened Wrappers
  import opened Values

  /** What the constructor computes: source positions, relocated columns, record length. */
  datatype Layout = Layout(selIdxs: seq<nat>, cols: seq<ColMeta>, len: nat)

  /** Columns lie back to back and fill `len` bytes. */
  predicate Packed(cols: seq<ColMeta>, len: nat) {
    if cols == [] then len == 0
    else
      var last := cols[|cols| - 1];
      last.offset + last.len == len && Packed(cols[..|cols| - 1], last.offset)
  }

  /** The i-th column of the layout is the i-th selected one, moved. */
  predicate Moved(prev: seq<ColMeta>, sel: seq<TabCol>, l: Layout, i: nat)
    requires i < |sel| && |l.selIdxs| == |l.cols| == |sel|
  {
    && l.selIdxs[i] < |prev| && GetCol(prev, sel[i]) == Some(prev[l.selIdxs[i]])
    && l.cols[i] == prev[l.selIdxs[i]].(offset := l.cols[i].offset)
  }

  predicate LaidOut(prev: seq<ColMeta>, sel: seq<TabCol>, l: Layout) {
    && |l.selIdxs| == |l.cols| == |sel| && Packed(l.cols, l.len)
    && forall i :: 0 <= i < |sel| ==> Moved(prev, sel, l, i)
  }

  lemma {:induction false} PackedApart(cols: seq<ColMeta>, len: nat, i: nat, j: nat)
    requires Packed(cols, len) && i < |cols| && j < |cols|
    ensures cols[i].offset + cols[i].len <= len
    ensures i < j ==> cols[i].offset + cols[i].len <= cols[j].offset
  {
    var n := |cols| - 1;
    if i == n {
    } else {
      PackedApart(cols[..n], cols[n].offset, i, if j < n then j else i);
    }
  }

  /** The first `n` selected columns hold what they held in the source record. */
  ghost predicate Copied(prev: seq<ColMeta>, sel: seq<TabCol>, l: Layout, prevRec: seq<bv8>, rec: seq<bv8>, n: nat)
    requires LaidOut(prev, sel, l) && AllFit(prev, |prevRec|) && |rec| == l.len && n <= |sel|
  {
    forall i :: 0 <= i < n ==>
      && Moved(prev, sel, l, i) && l.cols[i].offset + l.cols[i].len <= |rec|
      && Field(rec, l.cols[i]) == Field(prevRec, prev[l.selIdxs[i]])
  }

  /** A column is found under its own name in both records, and reads the same bytes. */
  lemma SelectedColumnReads(prev: seq<ColMeta>, sel: seq<TabCol>, l: Layout, prevRec: seq<bv8>, rec: seq<bv8>,
                            target: TabCol)
    requires LaidOut(prev, sel, l) && AllFit(prev, |prevRec|) && |rec| == l.len &&
             Copied(prev, sel, l, prevRec, rec, |sel|)
    requires target in sel
    ensures GetCol(prev, target).Some? && GetCol(l.cols, target).Some?
    ensures
      var p, c := GetCol(prev, target).value, GetCol(l.cols, target).value;
      && p.colType == c.colType && p.len == c.len && Fits(p, |prevRec|) && Fits(c, |rec|)
      && Field(rec, c) == Field(prevRec, p)
  {
    var i :| 0 <= i < |sel| && sel[i] == target;
    assert Moved(prev, sel, l, i) && l.cols[i] in l.cols;
    GetColNone(l.cols, target);
    var c := GetCol(l.cols, target).value;
    var k :| 0 <= k < |l.cols| && l.cols[k] == c;
    assert Moved(prev, sel, l, k) && sel[k] == target;
    PackedApart(l.cols, l.len, k, k);
  }

  /** A condition over selected columns means the same before and after the projection. */
  lemma ProjectionKeepsConditions(
    prev: seq<ColMeta>, sel: seq<TabCol>, l: Layout, prevRec: seq<bv8>, rec: seq<bv8>, c: Condition)
    requires LaidOut(prev, sel, l) && AllFit(prev, |prevRec|) && |rec| == l.len &&
             Copied(prev, sel, l, prevRec, rec, |sel|)
    requires Resolves(c, prev, |prevRec|) && c.lhs in sel && (!c.rhsIsVal ==> c.rhs in sel)
    ensures Resolves(c, l.cols, |rec|) && EvalCond(rec, c, l.cols) == EvalCond(prevRec, c, prev)
  {
    forall i | 0 <= i < |l.cols| ensures Fits(l.cols[i], |rec|) {
      assert Moved(prev, sel, l, i) && prev[l.selIdxs[i]] in prev;
      PackedApart(l.cols, l.len, i, i);
    }
    SelectedColumnReads(prev, sel, l, prevRec, rec, c.lhs);
    var p, q := GetCol(prev, c.lhs).value, GetCol(l.cols, c.lhs).value;
    FieldPrefix(prevRec, p);
    FieldPrefix(rec, q);
    if c.rhsIsVal {
      var raw := Raw(c.val, p.len).value;
      ComparePrefix(prevRec[p.offset..], raw, rec[q.offset..], raw, p.colType, p.len);
    } else {
      SelectedColumnReads(prev, sel, l, prevRec, rec, c.rhs);
      var p2, q2 := GetCol(prev, c.rhs).value, GetCol(l.cols, c.rhs).value;
      FieldPrefix(prevRec, p2);
      FieldPrefix(rec, q2);
      ComparePrefix(prevRec[p.offset..], prevRec[p2.offset..], rec[q.offset..], rec[q2.offset..], p.colType, p.len);
    }
  }

  // The executor.

  /** AbstractExecutor::get_col on positions: the end if there is no such column. */
  method FindCol(cols: seq<ColMeta>, target: TabCol) returns (pos: nat)
    ensures pos <= |cols| && GetCol(cols, target) == if pos < |cols| then Some(cols[pos]) else None
  {
    pos := 0;
    while pos < |cols|
      invariant pos <= |cols| && GetCol(cols, target) == GetCol(cols[pos..], target)
    {
      if cols[pos].tab == target.tab && cols[pos].name == target.col {
        return;
      }
      assert cols[pos..][1..] == cols[pos + 1..];
      pos := pos + 1;
    }
  }

  /** The loop of the constructor; a missing column is an error. */
  method LayOut(prev: seq<ColMeta>, sel: seq<TabCol>) returns (r: Result<Layout, TabCol>)
    ensures r.Ok? <==> forall tc :: tc in sel ==> GetCol(prev, tc).Some?
    ensures r.Ok? ==> LaidOut(prev, sel, r.value)
    ensures r.Err? ==> r.error in sel && GetCol(prev, r.error).None?
  {
    var l := Layout([], [], 0);
    var i := 0;
    while i < |sel|
      invariant i <= |sel| && LaidOut(prev, sel[..i], l)
      invariant forall tc :: tc in sel[..i] ==> GetCol(prev, tc).Some?
    {
      var pos := FindCol(prev, sel[i]);
      if pos == |prev| {
        return Err(sel[i]);
      }
      var col := prev[pos].(offset := l.len);
      ghost var was := l;
      l := Layout(l.selIdxs + [pos], l.cols + [col], l.len + col.len);
      i := i + 1;
      assert l.cols[..|l.cols| - 1] == was.cols;
      forall k | 0 <= k < i ensures Moved(prev, sel[..i], l, k) {
        if k < i - 1 {
          assert Moved(prev, sel[..i - 1], was, k);
        }
      }
    }
    assert sel[..i] == sel;
    return Ok(l);
  }

  class ProjectionExecutor {
    const prevCols: seq<ColMeta>
    const layout: Layout
    ghost const sel: seq<TabCol>

    ghost predicate Valid() {
      LaidOut(prevCols, sel, layout)
    }

    constructor (prevCols: seq<ColMeta>, ghost sel: seq<TabCol>, layout: Layout)
      requires LaidOut(prevCols, sel, layout)
      ensures Valid() && this.prevCols == prevCols && this.sel == sel && this.layout == layout
    {
      this.prevCols, this.sel, this.layout := prevCols, sel, layout;
    }

    /** Copy each selected column of the child's current row. */
    method Next(prevRec: seq<bv8>) returns (rec: seq<bv8>)
      requires Valid() && AllFit(prevCols, |prevRec|)
      ensures |rec| == layout.len && Copied(prevCols, sel, layout, prevRec, rec, |sel|)
    {
      rec := seq(layout.len, _ => 0);
      var i := 0;
      while i < |layout.selIdxs|
        invariant i <= |layout.selIdxs| == |sel| && |rec| == layout.len &&
                  Copied(prevCols, sel, layout, prevRec, rec, i)
      {
        assert Moved(prevCols, sel, layout, i);
        var prevCol, projCol := prevCols[layout.selIdxs[i]], layout.cols[i];
        assert prevCol in prevCols;
        PackedApart(layout.cols, layout.len, i, i);
        ghost var was := rec;
        rec := Patch(rec, projCol.offset, prevRec[prevCol.offset..prevCol.offset + projCol.len]);
        forall k | 0 <= k < i ensures Field(rec, layout.cols[k]) == Field(was, layout.cols[k]) {
          PackedApart(layout.cols, layout.len, k, i);
        }
        i := i + 1;
      }
    }
  }
}
