/** The columns and bytes of joined records, and what a condition reads in them
    (src/execution/executor_nestedloop_join.h). */
module Join {
  import opened Wrappers
  import opened Values
  import opened Plans
  import opened Delivery

  // Columns of the joined record.

  function Shifted(cols: seq<ColMeta>, shift: nat): (r: seq<ColMeta>)
    ensures |r| == |cols|
  {
    if cols == [] then [] else [cols[0].(offset := cols[0].offset + shift)] + Shifted(cols[1..], shift)
  }

  lemma {:induction false} ShiftedAt(cols: seq<ColMeta>, shift: nat, i: nat)
    requires i < |cols|
    ensures Shifted(cols, shift)[i] == cols[i].(offset := cols[i].offset + shift)
  {
    if i == 0 {
    } else {
      ShiftedAt(cols[1..], shift, i - 1);
    }
  }

  function JoinCols(left: seq<ColMeta>, leftLen: nat, right: seq<ColMeta>): seq<ColMeta> {
    left + Shifted(right, leftLen)
  }

  /** The split look-up: the column's own offset says which child record holds it. */
  function Operand(l: seq<bv8>, r: seq<bv8>, col: ColMeta): seq<bv8>
    requires if col.offset < |l| then col.offset <= |l| else col.offset - |l| <= |r|
  {
    if col.offset < |l| then l[col.offset..] else r[col.offset - |l|..]
  }

  /** A column lies wholly in the left record or wholly in the right one. */
  predicate FitsSide(col: ColMeta, leftLen: nat, rightLen: nat) {
    && (col.colType == TypeString || col.len == 4)
    && if col.offset < leftLen then col.offset + col.len <= leftLen else col.offset + col.len <= leftLen + rightLen
  }

  predicate AllFitSide(cols: seq<ColMeta>, leftLen: nat, rightLen: nat) {
    forall col :: col in cols ==> FitsSide(col, leftLen, rightLen)
  }

  lemma SideFits(cols: seq<ColMeta>, leftLen: nat, rightLen: nat)
    requires AllFitSide(cols, leftLen, rightLen)
    ensures AllFit(cols, leftLen + rightLen)
  {
  }

  /** The constructor's columns fit, each on its own side, if the children's columns fit their records. */
  lemma JoinColsFitSide(left: seq<ColMeta>, leftLen: nat, right: seq<ColMeta>, rightLen: nat)
    requires AllFit(left, leftLen) && AllFit(right, rightLen)
    ensures AllFitSide(JoinCols(left, leftLen, right), leftLen, rightLen)
  {
    var shifted := Shifted(right, leftLen);
    forall col | col in shifted ensures FitsSide(col, leftLen, rightLen) {
      var i :| 0 <= i < |shifted| && shifted[i] == col;
      ShiftedAt(right, leftLen, i);
      assert right[i] in right;
    }
  }

  /** NestedLoopJoinExecutor::eval_cond on columns that are there. */
  function JoinEvalCond(l: seq<bv8>, r: seq<bv8>, c: Condition, cols: seq<ColMeta>): bool
    requires AllFitSide(cols, |l|, |r|) && Present(c, cols) && Comparable(c, cols)
  {
    var lcol := GetCol(cols, c.lhs).value;
    var rhs := if c.rhsIsVal then Raw(c.val, lcol.len).value else Operand(l, r, GetCol(cols, c.rhs).value);
    OpHolds(c.op, IxCompare(Operand(l, r, lcol), rhs, lcol.colType, lcol.len))
  }

  /** NestedLoopJoinExecutor::eval_conds. */
  function JoinJudge(l: seq<bv8>, r: seq<bv8>, conds: seq<Condition>, cols: seq<ColMeta>): Option<bool>
    requires AllFitSide(cols, |l|, |r|) && AllComparable(conds, cols)
  {
    if conds == [] then Some(true)
    else if !Present(conds[0], cols) then None
    else if !JoinEvalCond(l, r, conds[0], cols) then Some(false)
    else JoinJudge(l, r, conds[1..], cols)
  }

  lemma OperandPrefix(l: seq<bv8>, r: seq<bv8>, col: ColMeta)
    requires FitsSide(col, |l|, |r|)
    ensures Operand(l, r, col)[..col.len] == (l + r)[col.offset..][..col.len]
  {
  }

  /** Looking each column up in its own child record gives the same answer as reading the joined
      record that Next builds at the shifted offsets. */
  lemma SplitLookupAgrees(l: seq<bv8>, r: seq<bv8>, c: Condition, cols: seq<ColMeta>)
    requires AllFitSide(cols, |l|, |r|) && Present(c, cols) && Comparable(c, cols)
    ensures AllFit(cols, |l + r|) && JoinEvalCond(l, r, c, cols) == EvalCond(l + r, c, cols)
  {
    SideFits(cols, |l|, |r|);
    var lcol := GetCol(cols, c.lhs).value;
    OperandPrefix(l, r, lcol);
    if c.rhsIsVal {
      var raw := Raw(c.val, lcol.len).value;
      ComparePrefix(Operand(l, r, lcol), raw, (l + r)[lcol.offset..], raw, lcol.colType, lcol.len);
    } else {
      var rcol := GetCol(cols, c.rhs).value;
      OperandPrefix(l, r, rcol);
      ComparePrefix(Operand(l, r, lcol), Operand(l, r, rcol),
                    (l + r)[lcol.offset..], (l + r)[rcol.offset..], lcol.colType, lcol.len);
    }
  }

  lemma {:induction false} SplitJudgeAgrees(l: seq<bv8>, r: seq<bv8>, conds: seq<Condition>, cols: seq<ColMeta>)
    requires AllFitSide(cols, |l|, |r|) && AllComparable(conds, cols)
    ensures AllFit(cols, |l + r|) && JoinJudge(l, r, conds, cols) == Judge(l + r, conds, cols)
  {
    SideFits(cols, |l|, |r|);
    if conds == [] {
    } else {
      if Present(conds[0], cols) {
        SplitLookupAgrees(l, r, conds[0], cols);
      }
      SplitJudgeAgrees(l, r, conds[1..], cols);
      hide JoinEvalCond, EvalCond, AllFit, AllFitSide, Present;
    }
  }

  // The record of a row.

  function LenOf(db: Database, t: Plan): nat
    requires Served(db, t)
  {
    match t
    case ScanPlan(tab, _) => TupleLen(db.cols[tab])
    case JoinPlan(l, r, _) => LenOf(db, l) + LenOf(db, r)
  }

  function ColsOf(db: Database, t: Plan): seq<ColMeta>
    requires Served(db, t)
  {
    match t
    case ScanPlan(tab, _) => db.cols[tab]
    case JoinPlan(l, r, _) => JoinCols(ColsOf(db, l), LenOf(db, l), ColsOf(db, r))
  }

  ghost predicate HasRow(db: Database, t: Plan, a: Row) {
    forall tab :: tab in Leaves(t) ==> tab in a && tab in db.rows && a[tab] < |db.rows[tab]|
  }

  lemma PartsHaveRow(db: Database, t: Plan, a: Row)
    requires t.JoinPlan? && HasRow(db, t, a)
    ensures HasRow(db, t.left, a) && HasRow(db, t.right, a)
  {
    assert Leaves(t) == Leaves(t.left) + Leaves(t.right);
  }

  /** The bytes of a row: those of its tables' records, in leaf order. */
  ghost function BytesOf(db: Database, t: Plan, a: Row): (r: seq<bv8>)
    requires Served(db, t) && HasRow(db, t, a)
    ensures |r| == LenOf(db, t)
  {
    match t
    case ScanPlan(tab, _) =>
      assert tab in Leaves(t);
      db.rows[tab][a[tab]]
    case JoinPlan(l, r, _) =>
      PartsHaveRow(db, t, a);
      BytesOf(db, l, a) + BytesOf(db, r, a)
  }

  lemma {:induction false} BytesLocal(db: Database, t: Plan, a: Row, b: Row)
    requires Served(db, t) && HasRow(db, t, a) && HasRow(db, t, b)
    requires forall tab :: tab in Leaves(t) ==> a[tab] == b[tab]
    ensures BytesOf(db, t, a) == BytesOf(db, t, b)
  {
    match t
    case ScanPlan(tab, _) => assert tab in Leaves(t);
    case JoinPlan(l, r, _) =>
      PartsHaveRow(db, t, a);
      PartsHaveRow(db, t, b);
      assert Leaves(t) == Leaves(l) + Leaves(r);
      BytesLocal(db, l, a, b);
      BytesLocal(db, r, a, b);
  }

  /** A joined row's record is the left record followed by the right one. */
  lemma JoinedBytes(db: Database, t: Plan, l: Row, r: Row)
    requires t.JoinPlan? && Distinct(t) && Served(db, t)
    requires InProduct(db, Leaves(t.left), l) && InProduct(db, Leaves(t.right), r)
    ensures HasRow(db, t, l + r) && HasRow(db, t.left, l) && HasRow(db, t.right, r)
    ensures BytesOf(db, t, l + r) == BytesOf(db, t.left, l) + BytesOf(db, t.right, r)
  {
    assert Leaves(t) == Leaves(t.left) + Leaves(t.right);
    PartsHaveRow(db, t, l + r);
    BytesLocal(db, t.left, l + r, l);
    BytesLocal(db, t.right, l + r, r);
  }

  // Looking up a column.

  lemma GetColCons(first: ColMeta, rest: seq<ColMeta>, name: TabCol)
    ensures GetCol([first] + rest, name)
         == if first.tab == name.tab && first.name == name.col then Some(first) else GetCol(rest, name)
  {
    assert ([first] + rest)[1..] == rest;
  }

  lemma {:induction false} GetColConcat(a: seq<ColMeta>, b: seq<ColMeta>, name: TabCol)
    ensures GetCol(a + b, name) == if GetCol(a, name).Some? then GetCol(a, name) else GetCol(b, name)
  {
    if a == [] {
      assert a + b == b;
    } else {
      assert a == [a[0]] + a[1..] && a + b == [a[0]] + (a[1..] + b);
      GetColCons(a[0], a[1..], name);
      GetColCons(a[0], a[1..] + b, name);
      hide GetCol;
      GetColConcat(a[1..], b, name);
    }
  }

  /** A column of the shifted list is the column of the list, moved. */
  lemma {:induction false} GetColShifted(cols: seq<ColMeta>, shift: nat, name: TabCol)
    ensures GetCol(Shifted(cols, shift), name).Some? <==> GetCol(cols, name).Some?
    ensures GetCol(cols, name).Some? ==>
              var col := GetCol(cols, name).value;
              GetCol(Shifted(cols, shift), name) == Some(col.(offset := col.offset + shift))
  {
    if cols == [] {
    } else {
      var first, rest := cols[0].(offset := cols[0].offset + shift), Shifted(cols[1..], shift);
      assert cols == [cols[0]] + cols[1..] && Shifted(cols, shift) == [first] + rest;
      GetColCons(cols[0], cols[1..], name);
      GetColCons(first, rest, name);
      hide GetCol, Shifted;
      GetColShifted(cols[1..], shift, name);
    }
  }

  lemma {:induction false} ColsFit(db: Database, t: Plan)
    requires Served(db, t)
    ensures AllFit(ColsOf(db, t), LenOf(db, t))
  {
    match t
    case ScanPlan(_, _) =>
    case JoinPlan(l, r, _) =>
      ColsFit(db, l);
      ColsFit(db, r);
      JoinColsFitSide(ColsOf(db, l), LenOf(db, l), ColsOf(db, r), LenOf(db, r));
      SideFits(ColsOf(db, t), LenOf(db, l), LenOf(db, r));
  }

  /** A name is a column of the tree if and only if its table is a leaf and has that column. */
  lemma {:induction false} ColumnPresent(db: Database, t: Plan, name: TabCol)
    requires Served(db, t)
    ensures GetCol(ColsOf(db, t), name).Some? <==> name.tab in Leaves(t) && Found(db, name)
    ensures GetCol(ColsOf(db, t), name).Some? ==>
              var col := GetCol(ColsOf(db, t), name).value;
              col.colType == ColumnOf(db, name).colType && col.len == ColumnOf(db, name).len
  {
    match t
    case ScanPlan(tab, _) =>
      assert Leaves(t) == {tab};
    case JoinPlan(l, r, _) =>
      ColumnPresent(db, l, name);
      ColumnPresent(db, r, name);
      GetColConcat(ColsOf(db, l), Shifted(ColsOf(db, r), LenOf(db, l)), name);
      GetColShifted(ColsOf(db, r), LenOf(db, l), name);
      assert Leaves(t) == Leaves(l) + Leaves(r);
  }

  /** The record shows, under the name, the bytes of column `own` of record `ownRec`. */
  ghost predicate Shows(rec: seq<bv8>, cols: seq<ColMeta>, name: TabCol, own: ColMeta, ownRec: seq<bv8>) {
    && GetCol(cols, name).Some?
    && var col := GetCol(cols, name).value;
       && Fits(col, |rec|) && Fits(own, |ownRec|) && col.len == own.len && Field(rec, col) == Field(ownRec, own)
  }

  lemma LeftShows(l: seq<bv8>, r: seq<bv8>, left: seq<ColMeta>, right: seq<ColMeta>,
                  name: TabCol, own: ColMeta, ownRec: seq<bv8>)
    requires Shows(l, left, name, own, ownRec)
    ensures Shows(l + r, JoinCols(left, |l|, right), name, own, ownRec)
  {
    GetColConcat(left, Shifted(right, |l|), name);
    hide GetCol, Shifted;
  }

  lemma SliceRight(l: seq<bv8>, r: seq<bv8>, from: nat, to: nat)
    requires from <= to <= |r|
    ensures (l + r)[|l| + from..|l| + to] == r[from..to]
  {
  }

  lemma RightField(l: seq<bv8>, r: seq<bv8>, col: ColMeta, moved: ColMeta)
    requires Fits(col, |r|) && moved == col.(offset := col.offset + |l|)
    ensures Fits(moved, |l + r|) && Field(l + r, moved) == Field(r, col)
  {
    SliceRight(l, r, col.offset, col.offset + col.len);
  }

  lemma RightShows(l: seq<bv8>, r: seq<bv8>, left: seq<ColMeta>, right: seq<ColMeta>,
                   name: TabCol, own: ColMeta, ownRec: seq<bv8>)
    requires GetCol(left, name).None? && Shows(r, right, name, own, ownRec)
    ensures Shows(l + r, JoinCols(left, |l|, right), name, own, ownRec)
  {
    GetColConcat(left, Shifted(right, |l|), name);
    GetColShifted(right, |l|, name);
    hide GetCol, Shifted, Field;
    var col := GetCol(right, name).value;
    RightField(l, r, col, col.(offset := col.offset + |l|));
  }

  /** The bytes at a column of the tree are those of the table's own column. */
  lemma {:induction false} ColumnReads(db: Database, t: Plan, a: Row, name: TabCol)
    requires Distinct(t) && Served(db, t) && HasRow(db, t, a) && name.tab in Leaves(t) && Found(db, name)
    ensures TableOk(db, name.tab)
    ensures Shows(BytesOf(db, t, a), ColsOf(db, t), name, ColumnOf(db, name), db.rows[name.tab][a[name.tab]])
  {
    LeavesServed(db, t);
    match t
    case ScanPlan(tab, _) =>
      assert Leaves(t) == {tab};
      assert db.rows[tab][a[tab]] in db.rows[tab];
    case JoinPlan(l, r, _) =>
      PartsHaveRow(db, t, a);
      ColumnPresent(db, l, name);
      assert Leaves(t) == Leaves(l) + Leaves(r);
      hide TableOk, Found, Shows, HasRow, Leaves, Field;
      var own, rec := ColumnOf(db, name), db.rows[name.tab][a[name.tab]];
      var lb, rb, lc, rc := BytesOf(db, l, a), BytesOf(db, r, a), ColsOf(db, l), ColsOf(db, r);
      if name.tab in Leaves(l) {
        ColumnReads(db, l, a, name);
        LeftShows(lb, rb, lc, rc, name, own, rec);
      } else {
        ColumnReads(db, r, a, name);
        RightShows(lb, rb, lc, rc, name, own, rec);
      }
  }

  // Conditions on bytes are conditions on rows.

  lemma CheckedIsComparable(db: Database, t: Plan, c: Condition)
    requires Served(db, t) && Checked(db, c)
    ensures Comparable(c, ColsOf(db, t))
  {
    ColumnPresent(db, t, c.lhs);
    if !c.rhsIsVal {
      ColumnPresent(db, t, c.rhs);
    }
  }

  /** A condition's columns are in the tree's columns if and only if its operands are in the row. */
  lemma PresentIffReadable(db: Database, t: Plan, a: Row, c: Condition)
    requires Served(db, t) && InProduct(db, Leaves(t), a) && Checked(db, c)
    ensures Present(c, ColsOf(db, t)) <==> Readable(db, a, c)
    ensures Readable(db, a, c) <==> c.lhs.tab in Leaves(t) && (c.rhsIsVal || c.rhs.tab in Leaves(t))
  {
    LeavesServed(db, t);
    ReadableIff(db, a, c);
    ColumnPresent(db, t, c.lhs);
    if !c.rhsIsVal {
      ColumnPresent(db, t, c.rhs);
    }
    hide ColsOf, Readable, InProduct, Leaves, TableOk;
  }

  /** A condition reads in a row's record what it reads in the row. */
  lemma CondAgrees(db: Database, t: Plan, a: Row, c: Condition)
    requires Distinct(t) && Served(db, t) && InProduct(db, Leaves(t), a) && Checked(db, c)
    ensures HasRow(db, t, a) && AllFit(ColsOf(db, t), |BytesOf(db, t, a)|) && Comparable(c, ColsOf(db, t))
    ensures Present(c, ColsOf(db, t)) <==> Readable(db, a, c)
    ensures Readable(db, a, c) ==> EvalCond(BytesOf(db, t, a), c, ColsOf(db, t)) == Holds(db, a, c)
  {
    ColsFit(db, t);
    CheckedIsComparable(db, t, c);
    PresentIffReadable(db, t, a, c);
    assert HasRow(db, t, a);
    hide Readable, Holds, Present, Comparable, EvalCond, BytesOf, ColsOf, Served, Checked, Leaves, HasRow, AllFit;
    if Readable(db, a, c) {
      ReadableEvaluates(db, t, a, c);
    }
  }

  lemma ReadableEvaluates(db: Database, t: Plan, a: Row, c: Condition)
    requires Distinct(t) && Served(db, t) && HasRow(db, t, a) && Checked(db, c)
    requires c.lhs.tab in Leaves(t) && (c.rhsIsVal || c.rhs.tab in Leaves(t))
    requires Present(c, ColsOf(db, t)) && Comparable(c, ColsOf(db, t)) && AllFit(ColsOf(db, t), LenOf(db, t))
    ensures EvalCond(BytesOf(db, t, a), c, ColsOf(db, t)) == Holds(db, a, c)
  {
    var bytes, cols := BytesOf(db, t, a), ColsOf(db, t);
    var l, lown := GetCol(cols, c.lhs).value, ColumnOf(db, c.lhs);
    ColumnPresent(db, t, c.lhs);
    ColumnReads(db, t, a, c.lhs);
    CellFound(db, a, c.lhs);
    var lrec := db.rows[c.lhs.tab][a[c.lhs.tab]];
    FieldPrefix(bytes, l);
    FieldPrefix(lrec, lown);
    hide BytesOf, ColsOf, LenOf, Served, TableOk, HasRow, Field, AllFit;
    if c.rhsIsVal {
      var raw := Raw(c.val, l.len).value;
      ComparePrefix(bytes[l.offset..], raw, lrec[lown.offset..], raw, l.colType, l.len);
    } else {
      var r, rown := GetCol(cols, c.rhs).value, ColumnOf(db, c.rhs);
      ColumnPresent(db, t, c.rhs);
      ColumnReads(db, t, a, c.rhs);
      CellFound(db, a, c.rhs);
      var rrec := db.rows[c.rhs.tab][a[c.rhs.tab]];
      FieldPrefix(bytes, r);
      FieldPrefix(rrec, rown);
      ComparePrefix(bytes[l.offset..], bytes[r.offset..], lrec[lown.offset..], rrec[rown.offset..], l.colType, l.len);
    }
  }

  /** The executors' verdict on a record is the verdict on the row. */
  lemma {:induction false} JudgeAgrees(db: Database, t: Plan, a: Row, conds: seq<Condition>)
    requires Distinct(t) && Served(db, t) && InProduct(db, Leaves(t), a) && AllChecked(db, conds)
    ensures HasRow(db, t, a) && AllFit(ColsOf(db, t), |BytesOf(db, t, a)|) && AllComparable(conds, ColsOf(db, t))
    ensures Judge(BytesOf(db, t, a), conds, ColsOf(db, t)) == RowJudge(db, a, conds)
  {
    ColsFit(db, t);
    forall c | c in conds ensures Comparable(c, ColsOf(db, t)) {
      CheckedIsComparable(db, t, c);
    }
    if conds == [] {
    } else {
      CondAgrees(db, t, a, conds[0]);
      JudgeAgrees(db, t, a, conds[1..]);
      hide Readable, Holds, Present, Comparable, EvalCond, BytesOf, ColsOf, Served;
    }
  }
}
