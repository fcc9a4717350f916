/** The executors of a plan: table scans and nested-loop joins over any children
    (src/execution/executor_nestedloop_join.h, src/execution/executor_seq_scan.h,
    src/execution/executor_abstract.h). */
module Executors {
  import opened Wrappers
  import opened Values
  import opened HeapFile
  import opened Scan
  import opened Plans
  import opened Delivery
  import opened Join

  // A table's records as rows.

  ghost function RecordAt(h: HeapFile, i: nat): Record
    requires PagesOk(h) && i < |AllRids(h)|
  {
    ScanVisitsEachOnce(h);
    assert AllRids(h)[i] in AllRids(h);
    Contents(h)[AllRids(h)[i]]
  }

  /** The file holds the table: row number `i` is the i-th stored record in scan order. */
  ghost predicate TableFile(db: Database, tab: string, h: HeapFile) {
    && PagesOk(h) && TableOk(db, tab) && h.recordSize == TupleLen(db.cols[tab])
    && |db.rows[tab]| == |AllRids(h)|
    && forall i :: 0 <= i < |AllRids(h)| ==> db.rows[tab][i] == RecordAt(h, i)
  }

  /** The rows stand for the rids. */
  ghost predicate SameRows(h: HeapFile, tab: string, rids: seq<Rid>, rows: seq<Row>)
    requires PagesOk(h)
  {
    && |rids| == |rows|
    && forall k :: 0 <= k < |rows| ==>
         rows[k].Keys == {tab} && rows[k][tab] < |AllRids(h)| && AllRids(h)[rows[k][tab]] == rids[k]
  }

  lemma LeafScannable(db: Database, tab: string, h: HeapFile, conds: seq<Condition>)
    requires TableFile(db, tab, h) && AllChecked(db, conds)
    ensures Scannable(h, conds, db.cols[tab])
  {
    forall c | c in conds ensures Comparable(c, db.cols[tab]) {
      CheckedIsComparable(db, ScanPlan(tab, conds), c);
    }
  }

  /** The scan's verdict on a stored record is the verdict on its row. */
  lemma LeafVerdict(db: Database, tab: string, h: HeapFile, conds: seq<Condition>, i: nat)
    requires TableFile(db, tab, h) && AllChecked(db, conds) && i < |AllRids(h)|
    requires Scannable(h, conds, db.cols[tab])
    ensures Verdict(h, AllRids(h)[i], conds, db.cols[tab]) == RowJudge(db, map[tab := i], conds)
  {
    var t, a, rid := ScanPlan(tab, conds), map[tab := i], AllRids(h)[i];
    ScanVisitsEachOnce(h);
    ContentsAt(h);
    assert rid in AllRids(h);
    StoredRecord(h, rid);
    assert db.rows[tab][i] == Contents(h)[rid];
    JudgeAgrees(db, t, a, conds);
    hide Contents, PagesOk, AllRids, Judge, RowJudge, Scannable, TableOk;
  }

  /** From record `i` on, the scan of the file delivers what the leaf of a plan does. */
  ghost predicate Tracks(db: Database, tab: string, h: HeapFile, conds: seq<Condition>, i: nat)
    requires TableFile(db, tab, h) && Scannable(h, conds, db.cols[tab]) && i <= |AllRids(h)|
  {
    var s := Sift(h, AllRids(h)[i..], conds, db.cols[tab]);
    var y := ScanYield(db, tab, conds, i, |AllRids(h)|);
    s.thrown == y.thrown && SameRows(h, tab, s.rids, y.rows)
  }

  lemma SameAfterPass(h: HeapFile, tab: string, verdict: Option<bool>, i: nat, s: Sifted, y: Outcome)
    requires PagesOk(h) && i < |AllRids(h)| && s.thrown == y.thrown && SameRows(h, tab, s.rids, y.rows)
    ensures
      var s', y' := PassRid(verdict, AllRids(h)[i], s), Pass(verdict, map[tab := i], y);
      s'.thrown == y'.thrown && SameRows(h, tab, s'.rids, y'.rows)
  {
    hide PagesOk, AllRids;
  }

  lemma TracksStep(db: Database, tab: string, h: HeapFile, conds: seq<Condition>, i: nat)
    requires TableFile(db, tab, h) && AllChecked(db, conds) && i < |AllRids(h)| && Scannable(h, conds, db.cols[tab])
    requires Tracks(db, tab, h, conds, i + 1)
    ensures Tracks(db, tab, h, conds, i)
  {
    LeafVerdict(db, tab, h, conds, i);
    var rids, cols, verdict := AllRids(h), db.cols[tab], RowJudge(db, map[tab := i], conds);
    var s, y := Sift(h, rids[i + 1..], conds, cols), ScanYield(db, tab, conds, i + 1, |rids|);
    hide Scannable, PagesOk, AllRids, Verdict, RowJudge, TableFile, AllChecked, SameRows, Pass, PassRid;
    assert rids[i..][1..] == rids[i + 1..];
    assert Sift(h, rids[i..], conds, cols) == PassRid(verdict, rids[i], s);
    assert ScanYield(db, tab, conds, i, |rids|) == Pass(verdict, map[tab := i], y);
    SameAfterPass(h, tab, verdict, i, s, y);
  }

  lemma {:induction false} LeafTracks(db: Database, tab: string, h: HeapFile, conds: seq<Condition>, i: nat)
    requires TableFile(db, tab, h) && AllChecked(db, conds) && i <= |AllRids(h)| && Scannable(h, conds, db.cols[tab])
    ensures Tracks(db, tab, h, conds, i)
    decreases |AllRids(h)| - i
  {
    assert PagesOk(h);
    hide TableFile, AllChecked, Scannable, AllRids, PagesOk;
    if i == |AllRids(h)| {
    } else {
      hide Tracks;
      LeafTracks(db, tab, h, conds, i + 1);
      TracksStep(db, tab, h, conds, i);
    }
  }

  lemma LeafYield(db: Database, tab: string, h: HeapFile, conds: seq<Condition>)
    requires TableFile(db, tab, h) && AllChecked(db, conds)
    ensures Scannable(h, conds, db.cols[tab])
    ensures
      var s := Sift(h, AllRids(h), conds, db.cols[tab]);
      var y := Yield(db, ScanPlan(tab, conds), false);
      s.thrown == y.thrown && SameRows(h, tab, s.rids, y.rows)
  {
    LeafScannable(db, tab, h, conds);
    LeafTracks(db, tab, h, conds, 0);
    assert AllRids(h)[0..] == AllRids(h);
  }

  // What the cursor of a join does to what is ahead.

  lemma PairNone(db: Database, l: Row, ro: Outcome, conds: seq<Condition>)
    requires ro.rows == []
    ensures Pair(db, l, ro, conds) == ro
  {
  }

  lemma PairSkip(db: Database, l: Row, ro: Outcome, conds: seq<Condition>)
    requires ro.rows != [] && RowJudge(db, l + ro.rows[0], conds) == Some(false)
    ensures Pair(db, l, ro, conds) == Pair(db, l, ro.(rows := ro.rows[1..]), conds)
  {
  }

  lemma NestNone(db: Database, lo: Outcome, ro: Outcome, again: Outcome, conds: seq<Condition>)
    requires lo.rows == []
    ensures Nest(db, lo, ro, again, conds) == lo
  {
  }

  /** The join depends on the right child only through the pairs of the current left row. */
  lemma NestSame(db: Database, lo: Outcome, ro: Outcome, ro': Outcome, again: Outcome, conds: seq<Condition>)
    requires lo.rows != [] && Pair(db, lo.rows[0], ro, conds) == Pair(db, lo.rows[0], ro', conds)
    ensures Nest(db, lo, ro, again, conds) == Nest(db, lo, ro', again, conds)
  {
  }

  lemma NestThrows(db: Database, lo: Outcome, ro: Outcome, again: Outcome, conds: seq<Condition>)
    requires lo.rows != [] && Pair(db, lo.rows[0], ro, conds) == Outcome([], true)
    ensures Nest(db, lo, ro, again, conds) == Outcome([], true)
  {
  }

  lemma NestEnded(db: Database, lo: Outcome, ro: Outcome, again: Outcome, conds: seq<Condition>)
    requires lo.rows != [] && Pair(db, lo.rows[0], ro, conds) == NOTHING
    ensures Nest(db, lo, ro, again, conds) == Nest(db, lo.(rows := lo.rows[1..]), again, again, conds)
  {
    var rest := Nest(db, lo.(rows := lo.rows[1..]), again, again, conds);
    assert [] + rest.rows == rest.rows;
  }

  lemma AppendFirst(a: Row, p: Outcome, rest: Outcome)
    ensures
      var n := Append(p.(rows := [a] + p.rows), rest);
      n.rows != [] && n.rows[0] == a && Append(p, rest) == Outcome(n.rows[1..], n.thrown)
  {
    assert ([a] + p.rows) + rest.rows == [a] + (p.rows + rest.rows);
  }

  /** A matching pair is the first row ahead. */
  lemma NestFirst(db: Database, lo: Outcome, ro: Outcome, again: Outcome, conds: seq<Condition>)
    requires lo.rows != [] && ro.rows != [] && RowJudge(db, lo.rows[0] + ro.rows[0], conds) == Some(true)
    ensures
      var n, rest := Nest(db, lo, ro, again, conds), Nest(db, lo, ro.(rows := ro.rows[1..]), again, conds);
      && n.rows != [] && n.rows[0] == lo.rows[0] + ro.rows[0]
      && rest == Outcome(n.rows[1..], n.thrown)
  {
    var later := Nest(db, lo.(rows := lo.rows[1..]), again, again, conds);
    var q := Pair(db, lo.rows[0], ro.(rows := ro.rows[1..]), conds);
    assert Nest(db, lo, ro, again, conds) == Append(Pair(db, lo.rows[0], ro, conds), later);
    assert Pair(db, lo.rows[0], ro, conds) == q.(rows := [lo.rows[0] + ro.rows[0]] + q.rows);
    assert Nest(db, lo, ro.(rows := ro.rows[1..]), again, conds) == Append(q, later);
    hide Nest, Pair, Append, RowJudge;
    AppendFirst(lo.rows[0] + ro.rows[0], q, later);
  }

  lemma SameRowsTail(h: HeapFile, tab: string, rids: seq<Rid>, rows: seq<Row>)
    requires PagesOk(h) && SameRows(h, tab, rids, rows) && rows != []
    ensures rids != [] && SameRows(h, tab, rids[1..], rows[1..])
  {
    hide PagesOk, AllRids;
  }

  lemma WithinTail(db: Database, rows: seq<Row>, tabs: set<string>)
    requires Within(db, rows, tabs) && rows != []
    ensures Within(db, rows[1..], tabs)
  {
    hide InProduct;
  }

  /** nextTuple of a scan, in terms of rows. */
  method StepLeaf(scan: SeqScanExecutor, ghost tab: string, ghost rows: seq<Row>) returns (ok: bool)
    requires scan.Valid() && SameRows(scan.file.Abs(), tab, scan.Pending().rids, rows) && rows != []
    modifies scan, scan.scan
    ensures scan.scan == old(scan.scan)
    ensures ok <==> rows[1..] != [] || !old(scan.Pending().thrown)
    ensures ok ==> scan.Valid() && scan.Pending().thrown == old(scan.Pending().thrown)
    ensures ok ==> SameRows(scan.file.Abs(), tab, scan.Pending().rids, rows[1..])
  {
    ValidScan(scan);
    SameRowsTail(scan.file.Abs(), tab, scan.Pending().rids, rows);
    hide *;
    SameRowsLength(scan.file.Abs(), tab, scan.Pending().rids[1..], rows[1..]);
    ok := scan.NextTuple();
  }

  lemma ValidScan(scan: SeqScanExecutor)
    requires scan.Valid()
    ensures PagesOk(scan.file.Abs()) && scan.scan != null
  {
  }

  lemma SameRowsLength(h: HeapFile, tab: string, rids: seq<Rid>, rows: seq<Row>)
    requires PagesOk(h) && SameRows(h, tab, rids, rows)
    ensures |rids| == |rows|
  {
  }

  class Executor {
    ghost const db: Database
    ghost const plan: Plan
    ghost const files: set<object>
    const conds: seq<Condition>
    const cols: seq<ColMeta>
    const len: nat
    const scan: SeqScanExecutor?
    const left: Executor?
    const right: Executor?
    var isend: bool
    /** Whether beginTuple has been called, what is still to come, and the objects this executor may change. */
    ghost var begun: bool
    ghost var ahead: Outcome
    ghost var repr: set<object>

    /** What a scan is made of. */
    ghost predicate Leaf()
      reads this, repr, files
    {
      && this in repr && files !! repr
      && plan.ScanPlan? && Served(db, plan)
      && conds == plan.conds && cols == ColsOf(db, plan) && len == LenOf(db, plan)
      && scan != null && scan in repr && scan.file in files
      && scan.conds == conds && scan.cols == cols
      && (scan.scan != null ==> scan.scan in repr)
      && TableFile(db, plan.tab, scan.file.Abs())
      && !isend
    }

    /** What a join is made of. */
    ghost predicate Parts()
      reads this, repr
    {
      && this in repr && files !! repr
      && plan.JoinPlan? && Distinct(plan) && JoinsOriented(plan) && Served(db, plan)
      && conds == plan.conds && cols == ColsOf(db, plan) && len == LenOf(db, plan)
      && scan == null && left != null && right != null
      && left in repr && right in repr && left in left.repr && right in right.repr
      && left.repr <= repr && right.repr <= repr
      && this !in left.repr && this !in right.repr && left.repr !! right.repr
      && left.files <= files && right.files <= files
      && left.db == right.db == db && left.plan == plan.left && right.plan == plan.right
    }

    /** The executor is built for its plan and can be used. */
    ghost predicate Wired()
      reads this, repr, files
      decreases plan
    {
      if plan.ScanPlan? then Leaf()
      else
        && Parts() && left.Wired() && right.Wired()
        && (!begun ==> !isend && !left.begun && !right.begun)
        && (isend ==> Rested() && !Yield(db, plan, false).thrown)
    }

    /** A join in the middle of a step. */
    ghost predicate Joint()
      reads this, repr, files
    {
      Parts() && left.Wired() && right.Wired()
    }

    /** A scan can be started at any time, a join if it is new or has ended. */
    ghost predicate CanBegin()
      reads this
    {
      plan.ScanPlan? || !begun || isend
    }

    /** A scan, or a join that has ended: beginTuple may be called again. */
    ghost predicate Done()
      reads this
    {
      plan.ScanPlan? || isend
    }

    /** What beginTuple makes this executor deliver. */
    ghost function Fresh(): Outcome
      reads this
    {
      if isend then NOTHING else Yield(db, plan, false)
    }

    /** The children of a join that has ended: the right one may never have been opened. */
    ghost predicate Rested()
      requires left != null && right != null
      reads this, left, right
    {
      left.Done() && right.CanBegin() && (right.Done() || left.Fresh().rows == [])
    }

    /** What the right child delivers when it is started over. */
    ghost function Restart(): Outcome
      requires plan.JoinPlan?
    {
      Again(plan.right, Yield(db, plan.right, false), false)
    }

    /** The cursor stands on the first row ahead, or at the end. */
    ghost predicate Positioned()
      reads this, repr, files
      decreases plan
    {
      && Wired() && begun && Within(db, ahead.rows, Leaves(plan))
      && if plan.ScanPlan? then
           && scan.Valid() && ahead.thrown == scan.Pending().thrown
           && SameRows(scan.file.Abs(), plan.tab, scan.Pending().rids, ahead.rows)
         else if isend then ahead == NOTHING
         else
           && left.Positioned() && right.Positioned()
           && left.ahead.rows != [] && right.ahead.rows != []
           && RowJudge(db, left.ahead.rows[0] + right.ahead.rows[0], conds) == Some(true)
           && ahead == Nest(db, left.ahead, right.ahead, Restart(), conds)
           && ahead.thrown == Yield(db, plan, false).thrown
    }

    /** The children stand on a matching pair. */
    ghost predicate OnMatch()
      requires Joint()
      reads this, repr, files
    {
      && left.Positioned() && right.Positioned()
      && left.ahead.rows != [] && right.ahead.rows != []
      && RowJudge(db, left.ahead.rows[0] + right.ahead.rows[0], conds) == Some(true)
    }

    constructor Scan(ghost db: Database, tab: string, conds: seq<Condition>, file: RmFileHandle, cols: seq<ColMeta>)
      requires TableFile(db, tab, file.Abs()) && AllChecked(db, conds) && cols == db.cols[tab]
      ensures Wired() && !begun && !isend && fresh(repr)
      ensures this.db == db && plan == ScanPlan(tab, conds) && files == {file}
    {
      this.db, plan, files := db, ScanPlan(tab, conds), {file};
      this.conds, this.cols, len := conds, cols, TupleLen(cols);
      var s := new SeqScanExecutor(file, conds, cols);
      scan, left, right := s, null, null;
      isend, begun, ahead, repr := false, false, NOTHING, {this, s};
    }

    constructor Join(left: Executor, right: Executor, conds: seq<Condition>)
      requires left.Wired() && right.Wired() && !left.begun && !right.begun && left.db == right.db
      requires left.repr !! right.repr && left.files !! right.repr && right.files !! left.repr
      requires
        var t := JoinPlan(left.plan, right.plan, conds);
        Distinct(t) && JoinsOriented(t) && Served(left.db, t)
      ensures Wired() && !begun && !isend && fresh(repr - left.repr - right.repr)
      ensures db == left.db && plan == JoinPlan(left.plan, right.plan, conds) && files == left.files + right.files
    {
      hide left.Wired, left.Leaf, Distinct, JoinsOriented, Served;
      left.Shape();
      right.Shape();
      db, plan, files := left.db, JoinPlan(left.plan, right.plan, conds), left.files + right.files;
      this.conds, cols, len := conds, JoinCols(left.cols, left.len, right.cols), left.len + right.len;
      scan, this.left, this.right := null, left, right;
      isend, begun, ahead, repr := false, false, NOTHING, {this} + left.repr + right.repr;
      new;
      Assemble();
    }

    lemma Assemble()
      requires Parts() && left.Wired() && right.Wired() && !begun && !isend && !left.begun && !right.begun
      ensures Wired()
    {
      hide left.Leaf, Yield, Served, Distinct, JoinsOriented, ColsOf, LenOf;
    }

    /** A wired executor's columns and length are its plan's. */
    lemma Shape()
      requires Wired()
      ensures this in repr && files !! repr && Distinct(plan) && JoinsOriented(plan) && Served(db, plan)
      ensures conds == plan.conds && cols == ColsOf(db, plan) && len == LenOf(db, plan)
    {
    }

    /** A join that has not ended stands on a match, which is the first row ahead. */
    lemma MatchAhead()
      requires Positioned()
      ensures plan.JoinPlan? && !isend ==>
                && Joint() && OnMatch() && ahead.rows != []
                && ahead.rows[0] == left.ahead.rows[0] + right.ahead.rows[0]
    {
      if plan.JoinPlan? && !isend {
        NestFirst(db, left.ahead, right.ahead, Restart(), conds);
      }
    }

    /** At its end an executor can be started again. */
    lemma EndCanBegin()
      requires Positioned() && ahead.rows == []
      ensures CanBegin() && !ahead.thrown
    {
      MatchAhead();
    }

    method IsEnd() returns (end: bool)
      requires Positioned()
      ensures end <==> ahead.rows == []
    {
      MatchAhead();
      if scan != null {
        end := scan.IsEnd();
      } else {
        end := isend;
      }
    }

    /** The record at the cursor: a stored record, or the left bytes followed by the right bytes. */
    method Next() returns (rec: Record)
      requires Positioned() && ahead.rows != []
      ensures Served(db, plan) && HasRow(db, plan, ahead.rows[0]) && rec == BytesOf(db, plan, ahead.rows[0])
      decreases plan
    {
      if scan != null {
        LeafRecord();
        rec := scan.Next();
      } else {
        MatchAhead();
        rec := Pasted();
      }
    }

    /** Next of a join: both current records in one buffer. */
    method Pasted() returns (rec: Record)
      requires Joint() && OnMatch()
      ensures
        var a := left.ahead.rows[0] + right.ahead.rows[0];
        HasRow(db, plan, a) && rec == BytesOf(db, plan, a)
      decreases plan, 0
    {
      hide *;
      JoinRecord();
      ChildrenSmaller();
      var l := left.Next();
      var r := right.Next();
      rec := l + r;
    }

    lemma ChildrenSmaller()
      requires Joint()
      ensures left != null && right != null && plan.JoinPlan? && left.plan == plan.left && right.plan == plan.right
    {
      hide left.Wired, Leaves, Served;
    }

    lemma LeafRecord()
      requires Positioned() && ahead.rows != [] && plan.ScanPlan?
      ensures
        var h, rids := scan.file.Abs(), scan.Pending().rids;
        && HasRow(db, plan, ahead.rows[0]) && rids != [] && rids[0] in Contents(h)
        && BytesOf(db, plan, ahead.rows[0]) == Contents(h)[rids[0]]
    {
      var h, a := scan.file.Abs(), ahead.rows[0];
      assert a in ahead.rows;
      var i := a[plan.tab];
      assert db.rows[plan.tab][i] == RecordAt(h, i);
      ScanVisitsEachOnce(h);
      assert AllRids(h)[i] in AllRids(h);
    }

    lemma JoinRecord()
      requires Joint() && OnMatch()
      ensures left != null && left.Positioned() && left.ahead.rows != [] && Served(left.db, left.plan)
      ensures right != null && right.Positioned() && right.ahead.rows != [] && Served(right.db, right.plan)
      ensures
        var l, r := left.ahead.rows[0], right.ahead.rows[0];
        && HasRow(left.db, left.plan, l) && HasRow(right.db, right.plan, r)
        && Served(db, plan) && HasRow(db, plan, l + r)
        && BytesOf(db, plan, l + r) == BytesOf(left.db, left.plan, l) + BytesOf(right.db, right.plan, r)
    {
      hide left.Wired, left.Leaf;
      var l, r := left.ahead.rows[0], right.ahead.rows[0];
      assert l in left.ahead.rows && r in right.ahead.rows;
      JoinedBytes(db, plan, l, r);
    }

    /** eval_conds on the two current records; the conditions of an oriented plan do not throw. */
    method Test() returns (found: bool)
      requires Joint() && left.Positioned() && right.Positioned() && left.ahead.rows != [] && right.ahead.rows != []
      ensures RowJudge(db, left.ahead.rows[0] + right.ahead.rows[0], conds) == Some(found)
      decreases plan, 0
    {
      hide *;
      TestReady();
      var l := left.Next();
      var r := right.Next();
      var verdict := JoinJudge(l, r, conds, cols);
      found := verdict.value;
    }

    lemma TestReady()
      requires Joint() && left.Positioned() && right.Positioned() && left.ahead.rows != [] && right.ahead.rows != []
      ensures plan.JoinPlan? && left != null && right != null && left.plan == plan.left && right.plan == plan.right
      ensures left.ahead.rows != [] && right.ahead.rows != [] && left.Positioned() && right.Positioned()
      ensures Served(left.db, left.plan) && HasRow(left.db, left.plan, left.ahead.rows[0])
      ensures Served(right.db, right.plan) && HasRow(right.db, right.plan, right.ahead.rows[0])
      ensures
        var a := left.ahead.rows[0] + right.ahead.rows[0];
        var l, r := BytesOf(left.db, left.plan, left.ahead.rows[0]), BytesOf(right.db, right.plan, right.ahead.rows[0]);
        && AllFitSide(cols, |l|, |r|) && AllComparable(conds, cols)
        && RowJudge(db, a, conds) != None && JoinJudge(l, r, conds, cols) == RowJudge(db, a, conds)
    {
      hide left.Wired, left.Leaf;
      var l, r := left.ahead.rows[0], right.ahead.rows[0];
      assert l in left.ahead.rows && r in right.ahead.rows;
      assert InProduct(db, Leaves(plan.left), l) && InProduct(db, Leaves(plan.right), r);
      hide left.Positioned, left.Parts;
      PairVerdict(db, plan, l, r);
    }

    /** At its end an executor can be started again, and then delivers what a right child delivers. */
    lemma EndRestarts()
      requires Positioned() && ahead.rows == []
      ensures Done() && Fresh() == Again(plan, Yield(db, plan, false), false)
      ensures !ahead.thrown && ahead == NOTHING
    {
      MatchAhead();
      hide left.Positioned, Yield;
    }

    /** Move the right child one row on. */
    method StepRight() returns (ok: bool)
      requires Joint() && left.Positioned() && right.Positioned() && right.ahead.rows != []
      modifies this`repr, right.repr
      ensures fresh(repr - old(repr)) && fresh(right.repr - old(right.repr))
      ensures
        var o := old(right.ahead).(rows := old(right.ahead).rows[1..]);
        && (ok <==> o.rows != [] || !o.thrown)
        && (ok ==> Joint() && left.Positioned() && left.ahead == old(left.ahead))
        && (ok ==> right.Positioned() && right.ahead == o)
      ensures left.repr == old(left.repr)
      ensures (old(left.isend) ==> left.isend) && (old(right.isend) ==> right.isend)
      decreases plan, 0
    {
      hide left.Wired, left.Leaf, left.Positioned, Distinct, JoinsOriented, Served, ColsOf, LenOf, Leaves;
      ok := right.NextTuple();
      repr := repr + right.repr;
      if ok {
        right.Stays();
      }
    }

    /** Advance the right child to a match for the current left row. */
    method SkipRight() returns (ok: bool, found: bool)
      requires Joint() && left.Positioned() && left.ahead.rows != [] && right.Positioned()
      modifies this`repr, right.repr
      ensures fresh(repr - old(repr)) && fresh(right.repr - old(right.repr))
      ensures
        var p := old(Pair(db, left.ahead.rows[0], right.ahead, conds));
        && (ok ==> Joint() && left.Positioned() && left.ahead == old(left.ahead) && right.Positioned())
        && (ok && found ==> OnMatch() && Pair(db, left.ahead.rows[0], right.ahead, conds) == p)
        && (ok && !found ==> right.ahead.rows == [] && p == NOTHING)
        && (!ok ==> p == Outcome([], true))
      ensures left.repr == old(left.repr)
      ensures (old(left.isend) ==> left.isend) && (old(right.isend) ==> right.isend)
      decreases plan, 1
    {
      hide *;
      ChildrenSmaller();
      ghost var lo, l := left.ahead, left.ahead.rows[0];
      ghost var p := Pair(db, l, right.ahead, conds);
      found := false;
      var end := right.IsEnd();
      while !end
        invariant Joint() && left.Positioned() && left.ahead == lo && right.Positioned()
        invariant left.repr == old(left.repr)
        invariant (old(left.isend) ==> left.isend) && (old(right.isend) ==> right.isend)
        invariant fresh(repr - old(repr)) && fresh(right.repr - old(right.repr))
        invariant end <==> right.ahead.rows == []
        invariant Pair(db, l, right.ahead, conds) == p
        decreases |right.ahead.rows|
      {
        found := Test();
        if found {
          Matched();
          return true, true;
        }
        PairSkip(db, l, right.ahead, conds);
        ghost var rest := right.ahead.(rows := right.ahead.rows[1..]);
        ok := StepRight();
        if !ok {
          PairNone(db, l, rest, conds);
          return;
        }
        end := right.IsEnd();
      }
      right.EndRestarts();
      PairNone(db, l, right.ahead, conds);
      return true, false;
    }

    lemma Matched()
      requires Joint() && left.Positioned() && right.Positioned() && left.ahead.rows != [] && right.ahead.rows != []
      requires RowJudge(db, left.ahead.rows[0] + right.ahead.rows[0], conds) == Some(true)
      ensures OnMatch()
    {
      hide left.Wired, left.Positioned, RowJudge;
    }

    /** A positioned executor is wired. */
    lemma Stays()
      requires Positioned()
      ensures Wired() && begun && this in repr && files !! repr
    {
      Shape();
    }

    /** From the current left row on, find the next matching pair. */
    method Hunt() returns (ok: bool)
      requires Joint() && left.Positioned()
      requires left.ahead.rows != [] && right.Positioned()
      modifies this`repr, left.repr, right.repr
      ensures fresh(repr - old(repr))
      ensures fresh(left.repr - old(left.repr)) && fresh(right.repr - old(right.repr))
      ensures
        var o := old(Nest(db, left.ahead, right.ahead, Restart(), conds));
        && (ok <==> o.rows != [] || !o.thrown)
        && (ok ==> Joint() && left.Positioned())
        && (ok && o.rows != [] ==> OnMatch() && Nest(db, left.ahead, right.ahead, Restart(), conds) == o)
        && (ok ==> (o.rows == [] <==> left.ahead.rows == []))
        && (ok && o.rows == [] ==> left.Done() && right.Done())
      ensures (old(left.isend) ==> left.isend) && (old(right.isend) ==> right.isend)
      decreases plan, 2
    {
      hide *;
      ChildrenSmaller();
      ghost var again := Restart();
      ghost var o := Nest(db, left.ahead, right.ahead, again, conds);
      var end := left.IsEnd();
      while !end
        invariant Joint() && left.Positioned() && (end <==> left.ahead.rows == [])
        invariant if !end then right.Positioned() else right.Done()
        invariant (old(left.isend) ==> left.isend) && (old(right.isend) ==> right.isend)
        invariant fresh(repr - old(repr))
        invariant fresh(left.repr - old(left.repr)) && fresh(right.repr - old(right.repr))
        invariant Nest(db, left.ahead, right.ahead, again, conds) == o
        decreases |left.ahead.rows|
      {
        ghost var lo, ro := left.ahead, right.ahead;
        var found;
        ok, found := SkipRight();
        if !ok {
          NestThrows(db, lo, ro, again, conds);
          return;
        }
        if found {
          NestSame(db, lo, right.ahead, ro, again, conds);
          FoundAhead(again);
          return;
        }
        NestEnded(db, lo, ro, again, conds);
        ok, end := StepLeft();
        if !ok {
          return;
        }
      }
      left.EndRestarts();
      NestNone(db, left.ahead, right.ahead, again, conds);
      ok := true;
    }

    lemma FoundAhead(again: Outcome)
      requires Joint() && OnMatch()
      ensures Nest(db, left.ahead, right.ahead, again, conds).rows != []
    {
      hide left.Wired, left.Positioned, Nest;
      NestFirst(db, left.ahead, right.ahead, again, conds);
    }

    /** The right child is used up: move the left child on, and start the right child over. */
    method StepLeft() returns (ok: bool, end: bool)
      requires Joint() && left.Positioned() && left.ahead.rows != [] && right.Positioned() && right.ahead.rows == []
      modifies this`repr, left.repr, right.repr
      ensures fresh(repr - old(repr))
      ensures fresh(left.repr - old(left.repr)) && fresh(right.repr - old(right.repr))
      ensures
        var lo := old(left.ahead).(rows := old(left.ahead).rows[1..]);
        var o := Nest(db, lo, Restart(), Restart(), conds);
        && (!ok ==> o == Outcome([], true))
        && (ok ==> Joint() && left.Positioned() && left.ahead == lo && (end <==> lo.rows == []))
        && (ok ==> if !end then right.Positioned() && right.ahead == Restart() else right.Done())
        && (ok ==> Nest(db, left.ahead, right.ahead, Restart(), conds) == o)
      ensures (old(left.isend) ==> left.isend) && (old(right.isend) ==> right.isend)
      decreases plan, 1
    {
      hide *;
      ChildrenSmaller();
      ghost var lo := left.ahead.(rows := left.ahead.rows[1..]);
      ghost var again := Restart();
      end := true;
      UsedUp();
      ok := AdvanceLeft();
      if !ok {
        NestNone(db, lo, again, again, conds);
        return;
      }
      end := left.IsEnd();
      if !end {
        ok := BeginRight();
        if !ok {
          RestartThrows(lo);
        }
      } else {
        NestNone(db, lo, again, again, conds);
        NestNone(db, lo, right.ahead, again, conds);
      }
    }

    lemma RestartThrows(lo: Outcome)
      requires plan.JoinPlan? && lo.rows != [] && Restart() == Outcome([], true)
      ensures Nest(db, lo, Restart(), Restart(), conds) == Outcome([], true)
    {
      PairNone(db, lo.rows[0], Restart(), conds);
      NestThrows(db, lo, Restart(), Restart(), conds);
    }

    /** A right child that is used up delivers on a restart what the plan says. */
    lemma UsedUp()
      requires Joint() && right.Positioned() && right.ahead.rows == []
      ensures right.Done() && right.Fresh() == Restart()
    {
      hide left.Wired, left.Positioned, left.Fresh, Yield;
      right.EndRestarts();
    }

    /** Move the left child one row on, while the right child waits. */
    method AdvanceLeft() returns (ok: bool)
      requires Joint() && left.Positioned() && left.ahead.rows != [] && right.Done()
      modifies this`repr, left.repr
      ensures fresh(repr - old(repr)) && fresh(left.repr - old(left.repr)) && right.repr == old(right.repr)
      ensures
        var o := old(left.ahead).(rows := old(left.ahead).rows[1..]);
        && (ok <==> o.rows != [] || !o.thrown)
        && (ok ==> Joint() && left.Positioned() && left.ahead == o)
        && (ok ==> right.Done() && right.CanBegin() && right.Fresh() == old(right.Fresh()))
      ensures (old(left.isend) ==> left.isend) && (old(right.isend) ==> right.isend)
      decreases plan, 0
    {
      hide left.Wired, left.Leaf, left.Positioned, left.Fresh, Distinct, JoinsOriented, Served, ColsOf, LenOf, Leaves;
      ok := left.NextTuple();
      repr := repr + left.repr;
      if ok {
        left.Stays();
      }
    }

    /** Start the right child over for a new left row. */
    method BeginRight() returns (ok: bool)
      requires Joint() && left.Positioned() && right.CanBegin()
      modifies this`repr, right.repr
      ensures fresh(repr - old(repr)) && fresh(right.repr - old(right.repr)) && left.repr == old(left.repr)
      ensures
        var o := old(right.Fresh());
        && (ok <==> o.rows != [] || !o.thrown)
        && (ok ==> Joint() && left.Positioned() && left.ahead == old(left.ahead))
        && (ok ==> right.Positioned() && right.ahead == o)
      ensures (old(left.isend) ==> left.isend) && (old(right.isend) ==> right.isend)
      decreases plan, 0
    {
      hide left.Wired, left.Leaf, left.Positioned, left.Fresh, Distinct, JoinsOriented, Served, ColsOf, LenOf, Leaves;
      ok := right.BeginTuple();
      repr := repr + right.repr;
      if ok {
        right.Stays();
      }
    }


    method NextTuple() returns (ok: bool)
      requires Positioned() && ahead.rows != []
      modifies repr
      ensures fresh(repr - old(repr))
      ensures
        var o := old(ahead).(rows := old(ahead).rows[1..]);
        && (ok <==> o.rows != [] || !o.thrown)
        && (ok ==> Positioned() && ahead == o)
      ensures old(isend) ==> isend
      decreases plan, 4
    {
      Kind();
      if scan != null {
        ok := NextScan();
      } else {
        ok := NextJoin();
      }
    }

    /** Start from the first row. A join that has ended stays at its end. */
    method BeginTuple() returns (ok: bool)
      requires Wired() && CanBegin()
      modifies repr
      ensures fresh(repr - old(repr))
      ensures
        var o := old(Fresh());
        && (ok <==> o.rows != [] || !o.thrown)
        && (ok ==> Positioned() && ahead == o)
      ensures old(isend) ==> isend
      decreases plan, 4
    {
      Kind();
      if scan != null {
        ok := BeginScan();
      } else {
        ok := BeginJoin();
      }
    }

    lemma Kind()
      requires Wired()
      ensures scan != null <==> plan.ScanPlan?
      ensures scan != null ==> Leaf() && !isend
    {
      hide Served, Yield, Leaves;
    }

    // The steps of a scan.

    /** A scan stands where its cursor does. */
    ghost predicate ScanAt()
      requires Leaf()
      reads this, repr, files
    {
      && scan.Valid() && ahead.thrown == scan.Pending().thrown
      && SameRows(scan.file.Abs(), plan.tab, scan.Pending().rids, ahead.rows)
      && Within(db, ahead.rows, Leaves(plan))
    }

    lemma ScanStands()
      requires plan.ScanPlan?
      ensures Positioned() <==> Leaf() && begun && ScanAt()
    {
      hide Served, TableFile, Yield;
    }

    method BeginScan() returns (ok: bool)
      requires Leaf()
      modifies repr
      ensures fresh(repr - old(repr))
      ensures
        var o := Yield(db, plan, false);
        && (ok <==> o.rows != [] || !o.thrown)
        && (ok ==> Positioned() && ahead == o)
      ensures isend == old(isend)
    {
      hide left.Wired, left.Positioned, Yield, Sift, Scannable, TableFile, Within, Leaves, SameRows;
      LeafYield(db, plan.tab, scan.file.Abs(), conds);
      YieldWithin(db, plan, false);
      hide Served;
      ok := scan.BeginTuple();
      repr := repr + {scan.scan};
      begun, ahead := true, Yield(db, plan, false);
      ScanStands();
    }

    method NextScan() returns (ok: bool)
      requires Positioned() && ahead.rows != [] && plan.ScanPlan?
      modifies repr
      ensures fresh(repr - old(repr))
      ensures
        var o := old(ahead).(rows := old(ahead).rows[1..]);
        && (ok <==> o.rows != [] || !o.thrown)
        && (ok ==> Positioned() && ahead == o)
      ensures isend == old(isend)
    {
      hide *;
      ScanStands();
      ok := StepScan();
      ScanStands();
    }

    method StepScan() returns (ok: bool)
      requires Leaf() && begun && ScanAt() && ahead.rows != []
      modifies repr
      ensures repr == old(repr) && begun && isend == old(isend) && Leaf()
      ensures
        var o := old(ahead).(rows := old(ahead).rows[1..]);
        && (ok <==> o.rows != [] || !o.thrown)
        && (ok ==> ScanAt() && ahead == o)
    {
      hide Served, TableFile, Leaves, SameRows, Within, scan.Valid, scan.Pending, Sift, ColsOf, LenOf;
      WithinTail(db, ahead.rows, Leaves(plan));
      ok := StepLeaf(scan, plan.tab, ahead.rows);
      ahead := ahead.(rows := ahead.rows[1..]);
    }

    // The steps of a join.

    method NextJoin() returns (ok: bool)
      requires Positioned() && ahead.rows != [] && plan.JoinPlan?
      modifies repr
      ensures fresh(repr - old(repr))
      ensures
        var o := old(ahead).(rows := old(ahead).rows[1..]);
        && (ok <==> o.rows != [] || !o.thrown)
        && (ok ==> Positioned() && ahead == o)
      ensures old(isend) ==> isend
      decreases plan, 3
    {
      hide *;
      StandsOnMatch();
      WithinTail(db, ahead.rows, Leaves(plan));
      ghost var o := ahead.(rows := ahead.rows[1..]);
      ok := StepRight();
      if !ok {
        RightThrows(old(left.ahead), old(right.ahead));
        return;
      }
      ok := Hunt();
      if !ok {
        return;
      }
      var end := left.IsEnd();
      if end {
        RestedDone();
        Nothing(o);
      }
      Settle(end, o);
    }

    method BeginJoin() returns (ok: bool)
      requires Wired() && CanBegin() && plan.JoinPlan?
      modifies repr
      ensures fresh(repr - old(repr))
      ensures
        var o := old(Fresh());
        && (ok <==> o.rows != [] || !o.thrown)
        && (ok ==> Positioned() && ahead == o)
      ensures old(isend) ==> isend
      decreases plan, 3
    {
      hide *;
      ReadyToBegin();
      ghost var lo, ro := left.Fresh(), right.Fresh();
      ghost var x := Nest(db, lo, ro, Restart(), conds);
      NothingIsNothing(db, Leaves(plan));
      if isend && lo.rows != [] {
        RestedOpen();
      }
      ok := BeginLeft();
      if !ok {
        NestNone(db, lo, ro, Restart(), conds);
        return;
      }
      var end := left.IsEnd();
      if !end {
        ok := BeginRight();
        if !ok {
          PairNone(db, lo.rows[0], ro, conds);
          NestThrows(db, lo, ro, Restart(), conds);
          return;
        }
        ok := Hunt();
        if !ok {
          return;
        }
        end := left.IsEnd();
        if !end {
          if isend {
            StaysDone(old(left.isend), old(right.isend));
            RestedDone();
            Settle(true, NOTHING);
          } else {
            Settle(false, x);
          }
          return;
        }
        RestedDone();
      } else {
        NestNone(db, lo, ro, Restart(), conds);
        RestedEmpty();
      }
      Nothing(x);
      Settle(end, NOTHING);
    }

    lemma StaysDone(l: bool, r: bool)
      requires left != null && right != null && (left.plan.ScanPlan? || l) && (right.plan.ScanPlan? || r)
      requires (l ==> left.isend) && (r ==> right.isend)
      ensures left.Done() && right.Done()
    {
    }

    lemma Nothing(o: Outcome)
      requires o.rows == [] && !o.thrown
      ensures o == NOTHING
    {
    }

    lemma ReadyToBegin()
      requires Wired() && CanBegin() && plan.JoinPlan?
      ensures Joint() && left != null && right != null && left.Wired() && right.Wired()
      ensures left.CanBegin() && right.CanBegin() && left.repr <= repr && right.repr <= repr && this in repr
      ensures this !in left.repr && this !in right.repr
      ensures left.plan == plan.left && right.plan == plan.right && Served(db, plan)
      ensures isend ==> Rested()
      ensures
        var x := Nest(db, left.Fresh(), right.Fresh(), Restart(), conds);
        && Within(db, x.rows, Leaves(plan)) && Fresh() == (if isend then NOTHING else x)
        && (isend ==> !x.thrown && !Yield(db, plan, false).thrown)
        && (!isend ==> x == Yield(db, plan, false))
    {
      if !isend {
        left.Unbegun();
        right.Unbegun();
      }
      assert left.Fresh() == NOTHING || left.Fresh() == Yield(db, plan.left, false);
      assert right.Fresh() == NOTHING || right.Fresh() == Yield(db, plan.right, false);
      hide left.Leaf, left.Wired, Yield, Nest, Within, Served, Leaves, Distinct, JoinsOriented;
      YieldWithin(db, plan, false);
      YieldUnfolds(db, plan);
      if isend {
        RestartQuiet(db, plan, left.Fresh(), right.Fresh());
      }
    }

    lemma ScanFresh()
      requires Wired() && plan.ScanPlan?
      ensures Fresh() == Yield(db, plan, false)
    {
    }

    lemma Unbegun()
      requires Wired() && !begun
      ensures CanBegin() && !isend && Fresh() == Yield(db, plan, false)
    {
    }

    /** A child that is empty from the start leaves its sibling unopened. */
    lemma StartsEmpty()
      requires Positioned() && ahead.rows == [] && (plan.ScanPlan? ==> Yield(db, plan, false).rows == [])
      ensures Done() && Fresh().rows == []
    {
      EndRestarts();
      hide left.Wired, left.Positioned, Yield;
    }

    lemma RestedEmpty()
      requires left != null && right != null && left.Done() && left.Fresh().rows == [] && right.CanBegin()
      ensures Rested()
    {
    }

    lemma RestedDone()
      requires left != null && right != null && left.Done() && right.Done()
      ensures Rested()
    {
    }

    lemma RestedOpen()
      requires left != null && right != null && Rested() && left.Fresh().rows != []
      ensures (left.plan.ScanPlan? || left.isend) && (right.plan.ScanPlan? || right.isend)
    {
    }

    /** Call beginTuple of the left child while the right child waits. */
    method BeginLeft() returns (ok: bool)
      requires Joint() && left.CanBegin() && right.CanBegin()
      modifies this`repr, left.repr
      ensures fresh(repr - old(repr)) && fresh(left.repr - old(left.repr)) && right.repr == old(right.repr)
      ensures
        var o := old(left.Fresh());
        && (ok <==> o.rows != [] || !o.thrown)
        && (ok ==> Joint() && left.Positioned() && left.ahead == o)
        && (ok && o.rows == [] ==> left.Done() && left.Fresh().rows == [])
        && (ok ==> right.CanBegin() && right.Fresh() == old(right.Fresh()))
      ensures (old(left.isend) ==> left.isend) && (old(right.isend) ==> right.isend)
      decreases plan, 0
    {
      hide left.Wired, left.Leaf, left.Positioned, left.Fresh, Distinct, JoinsOriented, Served, ColsOf, LenOf, Leaves;
      if left.plan.ScanPlan? {
        left.ScanFresh();
      }
      ok := left.BeginTuple();
      repr := repr + left.repr;
      if ok {
        left.Stays();
        if left.ahead.rows == [] {
          left.StartsEmpty();
        }
      }
    }

    /** Note the end, or what is ahead. */
    method Settle(end: bool, ghost o: Outcome)
      requires Joint()
      requires end ==> Rested() && !Yield(db, plan, false).thrown && o == NOTHING
      requires !end ==> OnMatch() && !isend && o == Nest(db, left.ahead, right.ahead, Restart(), conds)
      requires Within(db, o.rows, Leaves(plan)) && o.thrown == Yield(db, plan, false).thrown
      modifies this`isend, this`begun, this`ahead
      ensures Positioned() && ahead == o && repr == old(repr) && isend == end
    {
      hide left.Wired, left.Leaf, left.Positioned, Nest, Yield, RowJudge, Within, Served, Leaves, Distinct,
           JoinsOriented, left.Fresh;
      isend, begun, ahead := end, true, o;
      if end {
        LandAtEnd();
      } else {
        LandOnMatch();
      }
    }


    /** A join that has rows ahead stands on a match; its tail is what the right child's next step leaves. */
    lemma StandsOnMatch()
      requires Positioned() && ahead.rows != [] && plan.JoinPlan?
      ensures Joint() && OnMatch() && left != null && right != null && left.Positioned() && right.Positioned()
      ensures left.ahead.rows != [] && right.ahead.rows != [] && begun && !isend && this in repr
      ensures this !in left.repr && this !in right.repr
      ensures left.repr <= repr && right.repr <= repr && left.plan == plan.left && right.plan == plan.right
      ensures Within(db, ahead.rows, Leaves(plan)) && Served(db, plan) && ahead.thrown == Yield(db, plan, false).thrown
      ensures
        Nest(db, left.ahead, right.ahead.(rows := right.ahead.rows[1..]), Restart(), conds)
        == ahead.(rows := ahead.rows[1..])
    {
      hide left.Leaf, Nest, Yield, RowJudge, Within;
      NestFirst(db, left.ahead, right.ahead, Restart(), conds);
    }

    lemma RightThrows(lo: Outcome, ro: Outcome)
      requires plan.JoinPlan? && lo.rows != [] && ro.rows != [] && |ro.rows| == 1 && ro.thrown
      ensures Nest(db, lo, ro.(rows := ro.rows[1..]), Restart(), conds) == Outcome([], true)
    {
      PairNone(db, lo.rows[0], ro.(rows := ro.rows[1..]), conds);
      NestThrows(db, lo, ro.(rows := ro.rows[1..]), Restart(), conds);
    }

    /** The children stand on a match: the cursor stands on the first row ahead. */
    lemma LandOnMatch()
      requires Joint() && OnMatch() && begun && !isend
      requires ahead == Nest(db, left.ahead, right.ahead, Restart(), conds)
      requires Within(db, ahead.rows, Leaves(plan)) && ahead.thrown == Yield(db, plan, false).thrown
      ensures Positioned()
    {
      hide left.Leaf, Nest, Yield, RowJudge;
    }

    /** The left child is used up, or the join had ended before. */
    lemma LandAtEnd()
      requires Joint() && Rested() && begun && isend && ahead == NOTHING
      requires !Yield(db, plan, false).thrown
      ensures Positioned()
    {
      hide left.Leaf, Nest, Yield, RowJudge;
    }
  }

  lemma NothingIsNothing(db: Database, tabs: set<string>)
    ensures NOTHING.rows == [] && !NOTHING.thrown && Within(db, NOTHING.rows, tabs)
  {
  }

  lemma YieldUnfolds(db: Database, t: Plan)
    requires t.JoinPlan?
    ensures
      var ro := Yield(db, t.right, false);
      Yield(db, t, false) == Nest(db, Yield(db, t.left, false), ro, Again(t.right, ro, false), t.conds)
  {
  }

  /** Starting over the children of a join that did not throw throws nothing. */
  lemma RestartQuiet(db: Database, t: Plan, lo: Outcome, ro: Outcome)
    requires t.JoinPlan? && Distinct(t) && JoinsOriented(t) && Served(db, t) && !Yield(db, t, false).thrown
    requires lo == NOTHING || lo == Yield(db, t.left, false)
    requires ro == NOTHING || ro == Yield(db, t.right, false)
    ensures
      var x := Nest(db, lo, ro, Again(t.right, Yield(db, t.right, false), false), t.conds);
      !x.thrown && Within(db, x.rows, Leaves(t))
  {
    var again := Again(t.right, Yield(db, t.right, false), false);
    JoinYields(db, t, false);
    YieldWithin(db, t.left, false);
    YieldWithin(db, t.right, false);
    hide Yield;
    NestWithin(db, lo, ro, again, t.conds, Leaves(t.left), Leaves(t.right));
    assert Leaves(t) == Leaves(t.left) + Leaves(t.right);
    forall l | l in lo.rows ensures JoinReads(db, l, ro.rows, t.conds) && JoinReads(db, l, again.rows, t.conds) {
      assert InProduct(db, Leaves(t.left), l);
      JoinCondsRead(db, t.left, t.right, l, ro.rows, t.conds);
      JoinCondsRead(db, t.left, t.right, l, again.rows, t.conds);
    }
    hide JoinReads, Within, Served;
    if lo.rows == [] {
      NestNone(db, lo, ro, again, t.conds);
    } else {
      NestReads(db, lo, ro, again, t.conds);
    }
  }

  /** A join condition reads in the two records what it reads in the joined row, and does not throw. */
  lemma PairVerdict(db: Database, t: Plan, l: Row, r: Row)
    requires t.JoinPlan? && Distinct(t) && JoinsOriented(t) && Served(db, t)
    requires InProduct(db, Leaves(t.left), l) && InProduct(db, Leaves(t.right), r)
    ensures HasRow(db, t.left, l) && HasRow(db, t.right, r)
    ensures
      var lb, rb := BytesOf(db, t.left, l), BytesOf(db, t.right, r);
      && AllFitSide(ColsOf(db, t), |lb|, |rb|) && AllComparable(t.conds, ColsOf(db, t))
      && RowJudge(db, l + r, t.conds) != None
      && JoinJudge(lb, rb, t.conds, ColsOf(db, t)) == RowJudge(db, l + r, t.conds)
  {
    JoinedBytes(db, t, l, r);
    var lb, rb := BytesOf(db, t.left, l), BytesOf(db, t.right, r);
    ColsFit(db, t.left);
    ColsFit(db, t.right);
    JoinColsFitSide(ColsOf(db, t.left), |lb|, ColsOf(db, t.right), |rb|);
    assert InProduct(db, Leaves(t), l + r) by {
      assert Leaves(t) == Leaves(t.left) + Leaves(t.right);
    }
    JudgeAgrees(db, t, l + r, t.conds);
    SplitJudgeAgrees(lb, rb, t.conds, ColsOf(db, t));
    hide ColsOf, AllFitSide, BytesOf, Judge, JoinJudge, HasRow, InProduct;
    PairReadable(db, t, l, r);
  }

  lemma PairReadable(db: Database, t: Plan, l: Row, r: Row)
    requires t.JoinPlan? && Distinct(t) && JoinsOriented(t) && Served(db, t)
    requires InProduct(db, Leaves(t.left), l) && InProduct(db, Leaves(t.right), r)
    ensures RowJudge(db, l + r, t.conds) != None
  {
    JoinCondsRead(db, t.left, t.right, l, [r], t.conds);
    assert r in [r];
    hide Readable, InProduct, Served;
    RowJudgeReadable(db, l + r, t.conds);
  }
}
