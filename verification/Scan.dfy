/** The record cursor and the filtered table scan (src/record/rm_scan.cpp,
    src/execution/executor_seq_scan.h). */
module Scan {
  import opened Wrappers
  import opened Values
  import opened HeapFile

  const END: Rid := Rid(NO_PAGE, -1)

  // The rids of a file in scan order.

  /** The stored rids at or after slot `s` of page `p`, page by page and slot by slot. */
  function RidsFrom(h: HeapFile, p: int, s: int): seq<Rid>
    requires PagesOk(h) && FIRST_RECORD_PAGE <= p && 0 <= s
    decreases h.numPages - p, h.capacity - s
  {
    if p >= h.numPages then []
    else if s >= h.capacity then RidsFrom(h, p + 1, 0)
    else (if h.pages[p].bitmap[s] then [Rid(p, s)] else []) + RidsFrom(h, p, s + 1)
  }

  function AllRids(h: HeapFile): seq<Rid>
    requires PagesOk(h)
  {
    RidsFrom(h, FIRST_RECORD_PAGE, 0)
  }

  predicate Before(a: Rid, b: Rid) {
    a.pageNo < b.pageNo || (a.pageNo == b.pageNo && a.slotNo < b.slotNo)
  }

  ghost predicate Ascending(rids: seq<Rid>) {
    forall i, j :: 0 <= i < j < |rids| ==> Before(rids[i], rids[j])
  }

  lemma {:induction false} RidsFromMembers(h: HeapFile, p: int, s: int)
    requires PagesOk(h) && FIRST_RECORD_PAGE <= p && 0 <= s
    ensures forall rid :: rid in RidsFrom(h, p, s) <==> Stored(h, rid) && !Before(rid, Rid(p, s))
    decreases h.numPages - p, h.capacity - s
  {
    DataPages(h);
    StoredInside(h);
    hide PagesOk, Stored;
    if p >= h.numPages {
    } else if s >= h.capacity {
      RidsFromMembers(h, p + 1, 0);
    } else {
      RidsFromMembers(h, p, s + 1);
      RidsFromHere(h, p, s);
    }
  }

  lemma StoredInside(h: HeapFile)
    requires PagesOk(h)
    ensures forall rid :: Stored(h, rid) ==> rid.pageNo < h.numPages && 0 <= rid.slotNo < h.capacity
  {
  }

  lemma RidsFromHere(h: HeapFile, p: int, s: int)
    requires PagesOk(h) && FIRST_RECORD_PAGE <= p < h.numPages && 0 <= s < h.capacity
    ensures forall rid :: rid in RidsFrom(h, p, s)
                     <==> rid in RidsFrom(h, p, s + 1) || (rid == Rid(p, s) && Stored(h, rid))
  {
    DataPages(h);
    hide PagesOk;
  }

  lemma {:induction false} RidsFromAscending(h: HeapFile, p: int, s: int)
    requires PagesOk(h) && FIRST_RECORD_PAGE <= p && 0 <= s
    ensures Ascending(RidsFrom(h, p, s))
    decreases h.numPages - p, h.capacity - s
  {
    DataPages(h);
    hide PagesOk, Stored;
    if p >= h.numPages {
    } else {
      if s >= h.capacity {
        RidsFromAscending(h, p + 1, 0);
      } else {
        RidsFromAscending(h, p, s + 1);
        RidsFromMembers(h, p, s + 1);
        AscendingCons(Rid(p, s), RidsFrom(h, p, s + 1));
      }
    }
  }

  lemma AscendingCons(first: Rid, rest: seq<Rid>)
    requires Ascending(rest) && forall rid :: rid in rest ==> Before(first, rid)
    ensures Ascending([first] + rest)
  {
  }

  /** A scan visits every stored record exactly once, in page and slot order. */
  lemma ScanVisitsEachOnce(h: HeapFile)
    requires PagesOk(h)
    ensures Ascending(AllRids(h))
    ensures forall rid :: rid in AllRids(h) <==> rid in Contents(h)
  {
    RidsFromMembers(h, FIRST_RECORD_PAGE, 0);
    RidsFromAscending(h, FIRST_RECORD_PAGE, 0);
    ContentsAt(h);
  }

  /** The rids from a cursor on. */
  ghost function RidsAt(h: HeapFile, rid: Rid): seq<Rid>
    requires PagesOk(h) && (rid == END || Stored(h, rid))
  {
    if rid == END then [] else RidsFrom(h, rid.pageNo, rid.slotNo)
  }

  /** Where the search for the next set bit lands. */
  lemma {:induction false} SkipEmptySlots(h: HeapFile, p: int, s: int)
    requires PagesOk(h) && p in h.pages && -1 <= s < h.capacity
    ensures FIRST_RECORD_PAGE <= p
    ensures RidsFrom(h, p, s + 1) == RidsAfter(h, p, NextBit(true, h.pages[p].bitmap, s))
    ensures
      var r := NextBit(true, h.pages[p].bitmap, s);
      r < h.capacity ==> Stored(h, Rid(p, r)) && RidsAfter(h, p, r) == RidsAt(h, Rid(p, r))
    decreases h.capacity - s
  {
    DataPages(h);
    hide PagesOk;
    if s + 1 >= h.capacity || h.pages[p].bitmap[s + 1] {
    } else {
      SkipEmptySlots(h, p, s + 1);
    }
  }

  /** The rids from position `r` of a page on, where `r` may be the page's end. */
  function RidsAfter(h: HeapFile, p: int, r: nat): seq<Rid>
    requires PagesOk(h) && FIRST_RECORD_PAGE <= p
  {
    if r < h.capacity then RidsFrom(h, p, r) else RidsFrom(h, p + 1, 0)
  }

  lemma NoneBeyond(h: HeapFile, p: int, s: int)
    requires PagesOk(h) && FIRST_RECORD_PAGE <= p && 0 <= s && p >= h.numPages
    ensures RidsFrom(h, p, s) == RidsAt(h, END)
  {
  }

  class RmScan {
    const file: RmFileHandle
    var rid: Rid

    ghost predicate Valid()
      reads this, file
    {
      PagesOk(file.Abs()) && (rid == END || Stored(file.Abs(), rid))
    }

    /** The rids from the cursor on. */
    ghost function Rest(): (r: seq<Rid>)
      requires Valid()
      reads this, file
      ensures r != [] ==> r[0] == rid
      ensures r == [] <==> rid == END
    {
      RidsAt(file.Abs(), rid)
    }

    constructor (file: RmFileHandle)
      requires PagesOk(file.Abs())
      ensures Valid() && this.file == file && Rest() == AllRids(file.Abs())
    {
      this.file := file;
      rid := Rid(FIRST_RECORD_PAGE, -1);
      new;
      Advance();
    }

    method Next()
      requires Valid() && Rest() != []
      modifies this
      ensures Valid() && Rest() == old(Rest())[1..]
    {
      Advance();
    }

    /** The body of `next`, which the constructor also runs from the slot before the first. */
    method Advance()
      requires PagesOk(file.Abs()) && FIRST_RECORD_PAGE <= rid.pageNo && -1 <= rid.slotNo < file.capacity
      modifies this
      ensures Valid() && Rest() == old(RidsFrom(file.Abs(), rid.pageNo, rid.slotNo + 1))
    {
      hide PagesOk, Stored, RidsFrom;
      rid := Search(rid.pageNo, rid.slotNo);
    }

    /** The loop of `next`, on a rid that no one else sees until it ends. */
    method Search(pageNo: int, slotNo: int) returns (r: Rid)
      requires PagesOk(file.Abs()) && FIRST_RECORD_PAGE <= pageNo && -1 <= slotNo < file.capacity
      ensures r == END || Stored(file.Abs(), r)
      ensures RidsFrom(file.Abs(), pageNo, slotNo + 1) == RidsAt(file.Abs(), r)
    {
      ghost var h := file.Abs();
      DataPages(h);
      assert h.pages == file.pages && h.numPages == file.numPages && h.capacity == file.capacity;
      hide *;
      var p, s := pageNo, slotNo;
      while p < file.numPages
        invariant FIRST_RECORD_PAGE <= p && -1 <= s < file.capacity
        invariant RidsFrom(h, p, s + 1) == RidsFrom(h, pageNo, slotNo + 1)
        decreases file.numPages - p
      {
        SkipEmptySlots(h, p, s);
        s := FindBit(true, file.pages[p].bitmap, s);
        if s < file.capacity {
          return Rid(p, s);
        }
        p, s := p + 1, -1;
      }
      NoneBeyond(h, p, s + 1);
      return END;
    }

    method IsEnd() returns (end: bool)
      requires Valid()
      ensures end <==> Rest() == []
    {
      end := rid.pageNo == NO_PAGE;
    }
  }

  // The filtered scan.

  lemma StoredRecord(h: HeapFile, rid: Rid)
    requires PagesOk(h) && Stored(h, rid)
    ensures rid in Contents(h) && |Contents(h)[rid]| == h.recordSize
    ensures ValidSlot(h.capacity, rid) && Get(h, rid) == Ok(Some(Contents(h)[rid]))
  {
    ContentsAt(h);
    GetIsLookup(h, rid);
  }

  /** The records hold the columns, and conditions on columns that are there are well typed. */
  ghost predicate Scannable(h: HeapFile, conds: seq<Condition>, cols: seq<ColMeta>) {
    PagesOk(h) && AllFit(cols, h.recordSize) && AllComparable(conds, cols)
  }

  ghost function Verdict(h: HeapFile, rid: Rid, conds: seq<Condition>, cols: seq<ColMeta>): Option<bool>
    requires Scannable(h, conds, cols)
  {
    if rid in Contents(h) && |Contents(h)[rid]| == h.recordSize then Judge(Contents(h)[rid], conds, cols)
    else Some(false)
  }

  /** The rids a scan delivers, and whether it throws after them. */
  datatype Sifted = Sifted(rids: seq<Rid>, thrown: bool)

  ghost function Sift(h: HeapFile, rids: seq<Rid>, conds: seq<Condition>, cols: seq<ColMeta>): Sifted
    requires Scannable(h, conds, cols)
  {
    if rids == [] then Sifted([], false)
    else PassRid(Verdict(h, rids[0], conds, cols), rids[0], Sift(h, rids[1..], conds, cols))
  }

  /** One record that the conditions let through, stop or throw at, then the rest. */
  function PassRid(verdict: Option<bool>, rid: Rid, rest: Sifted): Sifted {
    match verdict
    case None => Sifted([], true)
    case Some(ok) => if ok then rest.(rids := [rid] + rest.rids) else rest
  }

  ghost predicate Selected(h: HeapFile, rid: Rid, conds: seq<Condition>, cols: seq<ColMeta>)
    requires Scannable(h, conds, cols)
  {
    rid in Contents(h) && Verdict(h, rid, conds, cols) == Some(true)
  }

  /** A scan throws if and only if one of the records makes a condition throw; if not, it delivers the
      selected records. */
  lemma {:induction false} SiftExact(h: HeapFile, rids: seq<Rid>, conds: seq<Condition>, cols: seq<ColMeta>)
    requires Scannable(h, conds, cols) && Ascending(rids) && forall rid :: rid in rids ==> rid in Contents(h)
    ensures
      var rows := Sift(h, rids, conds, cols);
      && Ascending(rows.rids) && (forall rid :: rid in rows.rids ==> rid in rids)
      && (rows.thrown <==> exists rid :: rid in rids && Verdict(h, rid, conds, cols) == None)
      && (!rows.thrown ==> forall rid :: rid in rows.rids <==> rid in rids && Selected(h, rid, conds, cols))
  {
    hide Contents, Verdict, Scannable;
    if rids == [] {
    } else {
      var first, rest := rids[0], rids[1..];
      assert forall rid :: rid in rids <==> rid == first || rid in rest;
      SiftExact(h, rest, conds, cols);
      forall rid | rid in rest ensures Before(first, rid) {
        var i :| 0 <= i < |rest| && rest[i] == rid;
        assert rids[i + 1] == rid;
      }
      if Verdict(h, first, conds, cols) == Some(true) {
        AscendingCons(first, Sift(h, rest, conds, cols).rids);
      }
    }
  }

  class SeqScanExecutor {
    const file: RmFileHandle
    const conds: seq<Condition>
    const cols: seq<ColMeta>
    var rid: Rid
    var scan: RmScan?

    ghost predicate Ready()
      reads file
    {
      Scannable(file.Abs(), conds, cols)
    }

    /** The scan stands on a match or at the end. */
    ghost predicate Valid()
      reads this, file, scan
    {
      && Ready() && scan != null && scan.file == file && scan.Valid()
      && (scan.Rest() != [] ==> rid == scan.Rest()[0] && Verdict(file.Abs(), rid, conds, cols) == Some(true))
    }

    /** What the scan delivers from the cursor on. */
    ghost function Pending(): Sifted
      requires Valid()
      reads this, file, scan
    {
      Sift(file.Abs(), scan.Rest(), conds, cols)
    }

    /** What a whole scan delivers. */
    ghost function Rows(): Sifted
      requires Ready()
      reads file
    {
      Sift(file.Abs(), AllRids(file.Abs()), conds, cols)
    }

    constructor (file: RmFileHandle, conds: seq<Condition>, cols: seq<ColMeta>)
      ensures this.file == file && this.conds == conds && this.cols == cols && scan == null
    {
      this.file, this.conds, this.cols := file, conds, cols;
      rid, scan := END, null;
    }

    /** The loop shared by beginTuple and nextTuple; not ok when a condition throws. */
    method SkipToMatch() returns (ok: bool)
      requires Ready() && scan != null && scan.file == file && scan.Valid()
      modifies this`rid, scan
      ensures scan == old(scan)
      ensures
        var rows := old(Sift(file.Abs(), scan.Rest(), conds, cols));
        && (ok <==> rows.rids != [] || !rows.thrown)
        && (ok ==> Valid() && Pending() == rows)
    {
      ghost var h := file.Abs();
      ghost var rows := Sift(h, scan.Rest(), conds, cols);
      hide PagesOk, Scannable, Contents, Verdict;
      var end := scan.IsEnd();
      while !end
        invariant file.Abs() == h && scan.Valid() && (end <==> scan.Rest() == [])
        invariant Sift(h, scan.Rest(), conds, cols) == rows
        decreases |scan.Rest()|
      {
        rid := scan.rid;
        var verdict := Test();
        if verdict == None {
          return false;
        }
        if verdict.value {
          break;
        }
        scan.Next();
        end := scan.IsEnd();
      }
      return true;
    }

    /** get_record and eval_conds at the current rid. */
    method Test() returns (verdict: Option<bool>)
      requires Ready() && Stored(file.Abs(), rid)
      ensures verdict == Verdict(file.Abs(), rid, conds, cols)
    {
      StoredRecord(file.Abs(), rid);
      var rec := file.GetRecord(rid);
      verdict := Judge(rec.value.value, conds, cols);
    }

    method BeginTuple() returns (ok: bool)
      requires Ready()
      modifies this
      ensures fresh(scan) && (ok <==> Rows().rids != [] || !Rows().thrown)
      ensures ok ==> Valid() && Pending() == Rows()
    {
      scan := new RmScan(file);
      ok := SkipToMatch();
    }

    method NextTuple() returns (ok: bool)
      requires Valid() && Pending().rids != []
      modifies this, scan
      ensures scan == old(scan)
      ensures
        var rows := old(Pending()).(rids := old(Pending()).rids[1..]);
        && (ok <==> rows.rids != [] || !rows.thrown)
        && (ok ==> Valid() && Pending() == rows)
    {
      scan.Next();
      ok := SkipToMatch();
    }

    method IsEnd() returns (end: bool)
      requires Valid()
      ensures end <==> Pending().rids == []
    {
      end := scan.IsEnd();
    }

    method CurrentRid() returns (r: Rid)
      requires Valid() && Pending().rids != []
      ensures r == rid == Pending().rids[0]
    {
      r := rid;
    }

    method Next() returns (rec: Record)
      requires Valid() && Pending().rids != []
      ensures rid == Pending().rids[0] && rid in Contents(file.Abs()) && rec == Contents(file.Abs())[rid]
      ensures |rec| == file.recordSize
    {
      StoredRecord(file.Abs(), rid);
      var r := file.GetRecord(rid);
      rec := r.value.value;
    }
  }

  /** A full scan throws if and only if a stored record reaches a condition on a missing column with all
      conditions before it true; if not, it lists exactly the selected records, each once and in order. */
  lemma RowsExact(h: HeapFile, conds: seq<Condition>, cols: seq<ColMeta>)
    requires Scannable(h, conds, cols)
    ensures
      var rows := Sift(h, AllRids(h), conds, cols);
      && (rows.thrown <==> exists rid :: rid in Contents(h) && Verdict(h, rid, conds, cols) == None)
      && Ascending(rows.rids)
      && (!rows.thrown ==> forall rid :: rid in rows.rids <==> Selected(h, rid, conds, cols))
  {
    ScanVisitsEachOnce(h);
    SiftExact(h, AllRids(h), conds, cols);
  }

  lemma MoveFirst(done: seq<Rid>, ahead: seq<Rid>)
    requires ahead != []
    ensures (done + [ahead[0]]) + ahead[1..] == done + ahead
  {
  }

  /** The loop of Portal::start that collects the rids an UPDATE or DELETE will touch. */
  method CollectRids(scan: SeqScanExecutor) returns (ok: bool, rids: seq<Rid>)
    requires scan.Ready()
    modifies scan
    ensures scan.Ready() && (ok <==> !scan.Rows().thrown)
    ensures ok ==> rids == scan.Rows().rids
  {
    hide *;
    rids := [];
    ok := scan.BeginTuple();
    if !ok {
      return;
    }
    ghost var rows := scan.Rows();
    var end := scan.IsEnd();
    while !end
      invariant scan.Valid() && fresh(scan.scan) && (end <==> scan.Pending().rids == [])
      invariant scan.Rows() == rows == Sifted(rids + scan.Pending().rids, scan.Pending().thrown)
      decreases |scan.Pending().rids|
    {
      MoveFirst(rids, scan.Pending().rids);
      var rid := scan.CurrentRid();
      rids := rids + [rid];
      ok := scan.NextTuple();
      if !ok {
        return;
      }
      end := scan.IsEnd();
    }
    AtEndNothingThrows(scan);
  }

  lemma AtEndNothingThrows(scan: SeqScanExecutor)
    requires scan.Valid() && scan.Pending().rids == []
    ensures !scan.Pending().thrown
  {
  }
}
