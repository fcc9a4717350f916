/** A full scan of a table over the pool: the pages it visits, the records it looks up without ever unpinning
    them, and exactly when it runs out of frames
    (src/record/rm_scan.cpp, src/execution/executor_seq_scan.h, src/record/rm_file_handle.cpp). */
module ScanRuns {
  import opened Pool
  import opened PoolFlat
  import opened RecordPool
  import opened RecordRuns
  import opened ReadRuns
  import H = HeapFile

  // The requests of a scan.

  /** What is requested on account of a record before the scan goes on. */
  type Taking = H.Rid -> seq<Entry>

  /** A slot with a record: read it to test it, let it be taken, then visit the page again for the next. */
  function SlotRequests(fd: int, h: H.HeapFile, taken: Taking, p: int, s: nat): seq<Entry>
    requires H.PagesOk(h) && p in h.pages && s < h.capacity
  {
    if h.pages[p].bitmap[s] then [Entry(fd, Lookup(H.Rid(p, s)))] + taken(H.Rid(p, s)) + [Entry(fd, Visit(p))] else []
  }

  /** From slot `s` on. */
  function SlotsRequests(fd: int, h: H.HeapFile, taken: Taking, p: int, s: nat): seq<Entry>
    requires H.PagesOk(h) && p in h.pages && s <= h.capacity
    decreases h.capacity - s
  {
    if s == h.capacity then []
    else SlotRequests(fd, h, taken, p, s) + SlotsRequests(fd, h, taken, p, s + 1)
  }

  function PageRequests(fd: int, h: H.HeapFile, taken: Taking, p: int): seq<Entry>
    requires H.PagesOk(h) && p in h.pages
  {
    [Entry(fd, Visit(p))] + SlotsRequests(fd, h, taken, p, 0)
  }

  /** The scan from page `p` on. */
  function ScanRequests(fd: int, h: H.HeapFile, taken: Taking, p: int): seq<Entry>
    requires H.PagesOk(h) && H.FIRST_RECORD_PAGE <= p
    decreases h.numPages - p
  {
    if p >= h.numPages then [] else PageRequests(fd, h, taken, p) + ScanRequests(fd, h, taken, p + 1)
  }

  /** All of it. */
  function FullScan(fd: int, h: H.HeapFile, taken: Taking): seq<Entry>
    requires H.PagesOk(h)
  {
    ScanRequests(fd, h, taken, H.FIRST_RECORD_PAGE)
  }

  // What a scan requests, as a set.

  /** The request is made on account of the record. */
  predicate For(fd: int, taken: Taking, rid: H.Rid, e: Entry) {
    e == Entry(fd, Lookup(rid)) || e in taken(rid)
  }

  /** The request is made on account of a record of page `p`, from slot `s` on. */
  ghost predicate ForSlots(fd: int, h: H.HeapFile, taken: Taking, p: int, s: nat, e: Entry)
    requires H.PagesOk(h)
  {
    exists rid :: H.Stored(h, rid) && rid.pageNo == p && s <= rid.slotNo && For(fd, taken, rid, e)
  }

  lemma InSlot(fd: int, h: H.HeapFile, taken: Taking, p: int, s: nat, e: Entry)
    requires H.PagesOk(h) && p in h.pages && s < h.capacity && e != Entry(fd, Visit(p))
    ensures e in SlotRequests(fd, h, taken, p, s) <==> H.Stored(h, H.Rid(p, s)) && For(fd, taken, H.Rid(p, s), e)
  {
    var first, then_, last := [Entry(fd, Lookup(H.Rid(p, s)))], taken(H.Rid(p, s)), [Entry(fd, Visit(p))];
    assert e in first + then_ + last <==> e in first || e in then_ || e in last;
    hide H.PagesOk;
  }

  lemma InEither(a: seq<Entry>, b: seq<Entry>, e: Entry)
    ensures e in a + b <==> e in a || e in b
  {
  }

  lemma SlotsUnfold(fd: int, h: H.HeapFile, taken: Taking, p: int, s: nat)
    requires H.PagesOk(h) && p in h.pages && s <= h.capacity
    ensures s == h.capacity ==> SlotsRequests(fd, h, taken, p, s) == []
    ensures s < h.capacity ==>
              SlotsRequests(fd, h, taken, p, s)
              == SlotRequests(fd, h, taken, p, s) + SlotsRequests(fd, h, taken, p, s + 1)
  {
    hide SlotRequests, H.PagesOk;
  }

  lemma ForSlotsNext(fd: int, h: H.HeapFile, taken: Taking, p: int, s: nat, e: Entry)
    requires H.PagesOk(h)
    ensures ForSlots(fd, h, taken, p, s, e)
       <==> (H.Stored(h, H.Rid(p, s)) && For(fd, taken, H.Rid(p, s), e)) || ForSlots(fd, h, taken, p, s + 1, e)
    ensures s >= h.capacity ==> !ForSlots(fd, h, taken, p, s, e)
  {
    hide H.PagesOk, For;
    if rid :| H.Stored(h, rid) && rid.pageNo == p && s <= rid.slotNo && For(fd, taken, rid, e) {
      assert rid == H.Rid(p, s) || s + 1 <= rid.slotNo;
    }
  }

  lemma {:induction false} InSlots(fd: int, h: H.HeapFile, taken: Taking, p: int, s: nat, e: Entry)
    requires H.PagesOk(h) && p in h.pages && s <= h.capacity && e != Entry(fd, Visit(p))
    ensures e in SlotsRequests(fd, h, taken, p, s) <==> ForSlots(fd, h, taken, p, s, e)
    decreases h.capacity - s
  {
    hide *;
    SlotsUnfold(fd, h, taken, p, s);
    ForSlotsNext(fd, h, taken, p, s, e);
    if s == h.capacity {
    } else {
      InSlots(fd, h, taken, p, s + 1, e);
      InSlot(fd, h, taken, p, s, e);
      InEither(SlotRequests(fd, h, taken, p, s), SlotsRequests(fd, h, taken, p, s + 1), e);
    }
  }

  lemma InPage(fd: int, h: H.HeapFile, taken: Taking, p: int, e: Entry)
    requires H.PagesOk(h) && p in h.pages
    ensures e in PageRequests(fd, h, taken, p) <==> e == Entry(fd, Visit(p)) || ForSlots(fd, h, taken, p, 0, e)
  {
    H.DataPages(h);
    hide ForSlots, SlotsRequests, H.PagesOk;
    if e != Entry(fd, Visit(p)) {
      InSlots(fd, h, taken, p, 0, e);
      InEither([Entry(fd, Visit(p))], SlotsRequests(fd, h, taken, p, 0), e);
    }
  }

  /** The scan requests `e` from page `p` on: a visit of a page, or what is requested for a record. */
  ghost predicate Asked(fd: int, h: H.HeapFile, taken: Taking, p: int, e: Entry)
    requires H.PagesOk(h)
  {
    || (e.fd == fd && e.req.Visit? && p <= e.req.pageNo < h.numPages)
    || exists rid :: H.Stored(h, rid) && p <= rid.pageNo && For(fd, taken, rid, e)
  }

  lemma AskedNext(fd: int, h: H.HeapFile, taken: Taking, p: int, e: Entry)
    requires H.PagesOk(h) && H.FIRST_RECORD_PAGE <= p
    ensures p >= h.numPages ==> !Asked(fd, h, taken, p, e)
    ensures p < h.numPages ==>
              (Asked(fd, h, taken, p, e)
               <==> e == Entry(fd, Visit(p)) || ForSlots(fd, h, taken, p, 0, e) || Asked(fd, h, taken, p + 1, e))
  {
    StoredFrom(h);
    hide H.PagesOk, For, H.Stored;
    if rid :| H.Stored(h, rid) && p <= rid.pageNo && For(fd, taken, rid, e) {
      assert rid.pageNo == p || p + 1 <= rid.pageNo;
    }
  }

  lemma StoredFrom(h: H.HeapFile)
    requires H.PagesOk(h)
    ensures forall rid :: H.Stored(h, rid) ==> rid.pageNo in h.pages && rid.pageNo < h.numPages && 0 <= rid.slotNo
  {
  }

  lemma ScanUnfolds(fd: int, h: H.HeapFile, taken: Taking, p: int)
    requires H.PagesOk(h) && H.FIRST_RECORD_PAGE <= p
    ensures p >= h.numPages ==> ScanRequests(fd, h, taken, p) == []
    ensures p < h.numPages ==>
              p in h.pages
              && ScanRequests(fd, h, taken, p) == PageRequests(fd, h, taken, p) + ScanRequests(fd, h, taken, p + 1)
  {
    hide PageRequests;
  }

  /** Whatever is done with the records: what a scan requests is a visit of each page, the look-up of each stored
      record, and what is requested for the records. */
  lemma {:induction false} ScanAsks(fd: int, h: H.HeapFile, taken: Taking, p: int, e: Entry)
    requires H.PagesOk(h) && H.FIRST_RECORD_PAGE <= p
    ensures e in ScanRequests(fd, h, taken, p) <==> Asked(fd, h, taken, p, e)
    decreases h.numPages - p
  {
    hide *;
    ScanUnfolds(fd, h, taken, p);
    AskedNext(fd, h, taken, p, e);
    if p >= h.numPages {
    } else {
      ScanAsks(fd, h, taken, p + 1, e);
      InPage(fd, h, taken, p, e);
      InEither(PageRequests(fd, h, taken, p), ScanRequests(fd, h, taken, p + 1), e);
    }
  }

  predicate HasRecord(h: H.HeapFile, p: int) {
    p in h.pages && exists s :: 0 <= s < |h.pages[p].bitmap| && h.pages[p].bitmap[s]
  }

  lemma HasRecordIs(h: H.HeapFile, p: int)
    requires H.PagesOk(h)
    ensures HasRecord(h, p) <==> exists rid :: H.Stored(h, rid) && rid.pageNo == p
  {
    H.DataPages(h);
    hide H.PagesOk;
    if HasRecord(h, p) {
      var s :| 0 <= s < |h.pages[p].bitmap| && h.pages[p].bitmap[s];
      assert H.Stored(h, H.Rid(p, s));
    }
  }

  // Records taken by themselves.

  /** Look-ups and visits on one page. */
  predicate OnPage(es: seq<Entry>, fd: int, h: H.HeapFile, p: int) {
    forall e :: e in es ==>
      && e.fd == fd && !e.req.Change? && PageOf(e) == p
      && (e.req.Lookup? ==> 0 <= e.req.rid.slotNo < h.capacity)
  }

  /** Whoever takes a record reads that record and nothing else, any number of times. */
  ghost predicate ReadsAgain(fd: int, h: H.HeapFile, taken: Taking)
    requires H.PagesOk(h)
  {
    forall rid, e :: H.Stored(h, rid) && e in taken(rid) ==> e == Entry(fd, Lookup(rid))
  }

  /** Then a scan looks up exactly the stored records. */
  lemma ScanLooksUp(fd: int, h: H.HeapFile, taken: Taking, rid: H.Rid)
    requires H.PagesOk(h) && ReadsAgain(fd, h, taken)
    ensures Entry(fd, Lookup(rid)) in FullScan(fd, h, taken) <==> H.Stored(h, rid)
  {
    var e := Entry(fd, Lookup(rid));
    ScanAsks(fd, h, taken, H.FIRST_RECORD_PAGE, e);
    H.DataPages(h);
    hide H.PagesOk, ScanRequests;
    if H.Stored(h, rid) {
      assert For(fd, taken, rid, e);
    }
  }

  // How many pages a scan fetches.

  /** The number of visits among the requests. */
  function Visits(es: seq<Entry>): nat {
    if es == [] then 0 else (if es[0].req.Visit? then 1 else 0) + Visits(es[1..])
  }

  lemma {:induction false} VisitsConcat(a: seq<Entry>, b: seq<Entry>)
    ensures Visits(a + b) == Visits(a) + Visits(b)
  {
    if a == [] {
      assert a + b == b;
    } else {
      assert (a + b)[1..] == a[1..] + b;
      VisitsConcat(a[1..], b);
    }
  }

  lemma {:induction false} NoVisits(es: seq<Entry>)
    requires forall e :: e in es ==> !e.req.Visit?
    ensures Visits(es) == 0
  {
    if es == [] {
    } else {
      assert es[0] in es;
      NoVisits(es[1..]);
    }
  }

  lemma {:induction false} CountFirst(bitmap: seq<bool>)
    requires bitmap != []
    ensures H.Count(bitmap) == (if bitmap[0] then 1 else 0) + H.Count(bitmap[1..])
  {
    var n := |bitmap| - 1;
    if n == 0 {
      assert bitmap[..0] == [] && bitmap[1..] == [];
    } else {
      CountFirst(bitmap[..n]);
      assert bitmap[..n][1..] == bitmap[1..][..n - 1];
    }
  }

  lemma SlotVisits(fd: int, h: H.HeapFile, taken: Taking, p: int, s: nat)
    requires H.PagesOk(h) && p in h.pages && s < h.capacity && ReadsAgain(fd, h, taken)
    ensures Visits(SlotRequests(fd, h, taken, p, s)) == if H.Stored(h, H.Rid(p, s)) then 1 else 0
  {
    if H.Stored(h, H.Rid(p, s)) {
      var first, records := [Entry(fd, Lookup(H.Rid(p, s)))], taken(H.Rid(p, s));
      NoVisits(first + records);
      VisitsConcat(first + records, [Entry(fd, Visit(p))]);
    }
  }

  lemma {:induction false} SlotsVisits(fd: int, h: H.HeapFile, taken: Taking, p: int, s: nat)
    requires H.PagesOk(h) && p in h.pages && s <= h.capacity && ReadsAgain(fd, h, taken)
    ensures |h.pages[p].bitmap| == h.capacity
    ensures Visits(SlotsRequests(fd, h, taken, p, s)) == H.Count(h.pages[p].bitmap[s..])
    decreases h.capacity - s
  {
    H.DataPages(h);
    SlotsUnfold(fd, h, taken, p, s);
    hide SlotsRequests, SlotRequests, H.PagesOk, ReadsAgain;
    if s == h.capacity {
    } else {
      SlotsVisits(fd, h, taken, p, s + 1);
      SlotVisits(fd, h, taken, p, s);
      VisitsConcat(SlotRequests(fd, h, taken, p, s), SlotsRequests(fd, h, taken, p, s + 1));
      CountFirst(h.pages[p].bitmap[s..]);
    }
  }

  lemma PageVisits(fd: int, h: H.HeapFile, taken: Taking, p: int)
    requires H.PagesOk(h) && p in h.pages && ReadsAgain(fd, h, taken)
    ensures Visits(PageRequests(fd, h, taken, p)) == 1 + h.pages[p].numRecords
  {
    SlotsVisits(fd, h, taken, p, 0);
    VisitsConcat([Entry(fd, Visit(p))], SlotsRequests(fd, h, taken, p, 0));
    assert h.pages[p].bitmap[0..] == h.pages[p].bitmap;
  }

  /** The records on the pages from `p` on. */
  function RecordsFrom(h: H.HeapFile, p: int): int
    requires forall q :: p <= q < h.numPages ==> q in h.pages
    decreases h.numPages - p
  {
    if p >= h.numPages then 0 else h.pages[p].numRecords + RecordsFrom(h, p + 1)
  }

  /** A scan fetches each page once and once more for every record on it. */
  lemma {:induction false} ScanVisits(fd: int, h: H.HeapFile, taken: Taking, p: int)
    requires H.PagesOk(h) && ReadsAgain(fd, h, taken) && H.FIRST_RECORD_PAGE <= p <= h.numPages
    ensures forall q :: p <= q < h.numPages ==> q in h.pages
    ensures Visits(ScanRequests(fd, h, taken, p)) == h.numPages - p + RecordsFrom(h, p)
    decreases h.numPages - p
  {
    H.DataPages(h);
    ScanUnfolds(fd, h, taken, p);
    hide ScanRequests, PageRequests, H.PagesOk, ReadsAgain;
    if p == h.numPages {
    } else {
      ScanVisits(fd, h, taken, p + 1);
      PageVisits(fd, h, taken, p);
      VisitsConcat(PageRequests(fd, h, taken, p), ScanRequests(fd, h, taken, p + 1));
    }
  }

  predicate LooksUp(es: seq<Entry>) {
    exists e :: e in es && e.req.Lookup?
  }

  /** The look-up of a record of the page. */
  ghost predicate LooksAt(fd: int, h: H.HeapFile, p: int, e: Entry)
    requires H.PagesOk(h)
  {
    e.fd == fd && e.req.Lookup? && H.Stored(h, e.req.rid) && e.req.rid.pageNo == p
  }

  lemma ForOnPage(fd: int, h: H.HeapFile, taken: Taking, p: int, e: Entry)
    requires H.PagesOk(h) && ReadsAgain(fd, h, taken)
    ensures ForSlots(fd, h, taken, p, 0, e) <==> LooksAt(fd, h, p, e)
  {
    if LooksAt(fd, h, p, e) {
      assert For(fd, taken, e.req.rid, e);
    }
    hide H.PagesOk;
  }

  lemma InPageRead(fd: int, h: H.HeapFile, taken: Taking, p: int)
    requires H.PagesOk(h) && p in h.pages && ReadsAgain(fd, h, taken)
    ensures forall e :: e in PageRequests(fd, h, taken, p) <==> e == Entry(fd, Visit(p)) || LooksAt(fd, h, p, e)
  {
    hide *;
    forall e ensures e in PageRequests(fd, h, taken, p) <==> e == Entry(fd, Visit(p)) || LooksAt(fd, h, p, e) {
      InPage(fd, h, taken, p, e);
      ForOnPage(fd, h, taken, p, e);
    }
  }

  /** A page's requests stay on the page, and look records up if and only if there are any. */
  lemma PageOnPage(fd: int, h: H.HeapFile, taken: Taking, p: int)
    requires H.PagesOk(h) && p in h.pages && ReadsAgain(fd, h, taken)
    ensures
      var es := PageRequests(fd, h, taken, p);
      OnPage(es, fd, h, p) && es != [] && es[0] == Entry(fd, Visit(p)) && (LooksUp(es) <==> HasRecord(h, p))
  {
    InPageRead(fd, h, taken, p);
    HasRecordIs(h, p);
    hide H.PagesOk, SlotsRequests, HasRecord, ReadsAgain;
    if rid :| H.Stored(h, rid) && rid.pageNo == p {
      assert Entry(fd, Lookup(rid)) in PageRequests(fd, h, taken, p);
    }
  }

  /** The requests on one page are fed if and only if the first is. */
  lemma {:induction false} PageFed(held: set<PageId>, size: nat, fd: int, h: H.HeapFile, p: int, es: seq<Entry>)
    requires OnPage(es, fd, h, p) && Room(held, size, PageId(fd, p))
    ensures FedBy(held, size, es)
    ensures HeldAfter(held, es) == held + if LooksUp(es) then {PageId(fd, p)} else {}
    decreases |es|
  {
    if es == [] {
    } else {
      assert es[0] in es && forall e :: e in es <==> e == es[0] || e in es[1..];
      if es[0].req.Lookup? {
        assert LooksUp(es);
      }
      PageFed(HeldNext(held, es[0]), size, fd, h, p, es[1..]);
    }
  }

  /** A scan whose records are read, on whatever account, only reads. */
  lemma ScanReadOnly(files: Files, fd: int, taken: Taking)
    requires fd in files && H.PagesOk(files[fd]) && Narrow(files[fd])
    requires forall rid :: H.Stored(files[fd], rid) ==> ReadOnly(files, taken(rid))
    ensures ReadOnly(files, FullScan(fd, files[fd], taken))
  {
    var h := files[fd];
    forall e | e in FullScan(fd, h, taken) ensures Reading(files, e) {
      ScanAsks(fd, h, taken, H.FIRST_RECORD_PAGE, e);
      AskedReads(files, fd, taken, e);
    }
  }

  lemma AskedReads(files: Files, fd: int, taken: Taking, e: Entry)
    requires fd in files && H.PagesOk(files[fd]) && Narrow(files[fd])
    requires forall rid :: H.Stored(files[fd], rid) ==> ReadOnly(files, taken(rid))
    requires Asked(fd, files[fd], taken, H.FIRST_RECORD_PAGE, e)
    ensures Reading(files, e)
  {
    H.DataPages(files[fd]);
    hide H.PagesOk;
  }

  // A scan by itself.

  /** The pages from `from` up to `to` that hold a record and are not held yet. */
  ghost function Bearing(held: set<PageId>, fd: int, h: H.HeapFile, from: int, to: int): set<int> {
    set q | from <= q < to && HasRecord(h, q) && PageId(fd, q) !in held
  }

  /** The page is held, or fewer record-bearing unheld pages come before it than frames are free. */
  ghost predicate Reached(held: set<PageId>, size: nat, fd: int, h: H.HeapFile, from: int, p: int) {
    PageId(fd, p) in held || |held| + |Bearing(held, fd, h, from, p)| < size
  }

  /** The pages held once the first page is past. */
  ghost function HeldPast(held: set<PageId>, fd: int, h: H.HeapFile, from: int): set<PageId> {
    if HasRecord(h, from) then held + {PageId(fd, from)} else held
  }

  lemma BearingNext(held: set<PageId>, fd: int, h: H.HeapFile, from: int, to: int)
    requires from < to
    ensures
      var rest := Bearing(HeldPast(held, fd, h, from), fd, h, from + 1, to);
      && from !in rest
      && Bearing(held, fd, h, from, to)
         == if HasRecord(h, from) && PageId(fd, from) !in held then {from} + rest else rest
  {
    hide HasRecord;
    var all, rest := Bearing(held, fd, h, from, to), Bearing(HeldPast(held, fd, h, from), fd, h, from + 1, to);
    forall q ensures q in all <==> q in rest || (q == from && HasRecord(h, from) && PageId(fd, from) !in held) {
    }
  }

  lemma BearingStep(held: set<PageId>, size: nat, fd: int, h: H.HeapFile, from: int, p: int)
    requires from < p
    ensures Reached(HeldPast(held, fd, h, from), size, fd, h, from + 1, p) <==> Reached(held, size, fd, h, from, p)
  {
    BearingNext(held, fd, h, from, p);
    hide HasRecord, Bearing;
    if PageId(fd, from) in held {
      assert held + {PageId(fd, from)} == held;
    }
  }

  lemma FirstReached(held: set<PageId>, size: nat, fd: int, h: H.HeapFile, from: int)
    requires |held| <= size
    ensures Reached(held, size, fd, h, from, from) <==> Room(held, size, PageId(fd, from))
  {
    assert Bearing(held, fd, h, from, from) == {};
  }

  /** Every page from `from` on is reached with a frame for it. */
  ghost predicate AllReached(held: set<PageId>, size: nat, fd: int, h: H.HeapFile, from: int) {
    forall p :: from <= p < h.numPages ==> Reached(held, size, fd, h, from, p)
  }

  lemma AllReachedStep(held: set<PageId>, size: nat, fd: int, h: H.HeapFile, from: int)
    requires |held| <= size && from < h.numPages
    ensures
      var held' := HeldPast(held, fd, h, from);
      && (Room(held, size, PageId(fd, from)) ==> |held'| <= size)
      && (AllReached(held, size, fd, h, from)
          <==> Room(held, size, PageId(fd, from)) && AllReached(held', size, fd, h, from + 1))
  {
    FirstReached(held, size, fd, h, from);
    if Room(held, size, PageId(fd, from)) {
      HeldPastFits(held, size, fd, h, from);
    }
    var held', next := HeldPast(held, fd, h, from), from + 1;
    hide Reached, HeldPast, Room;
    if AllReached(held, size, fd, h, from) {
      forall p | next <= p < h.numPages ensures Reached(held', size, fd, h, next, p) {
        BearingStep(held, size, fd, h, from, p);
      }
    }
    if Reached(held, size, fd, h, from, from) && AllReached(held', size, fd, h, from + 1) {
      forall p | from <= p < h.numPages ensures Reached(held, size, fd, h, from, p) {
        if p > from {
          BearingStep(held, size, fd, h, from, p);
        }
      }
    }
  }

  lemma HeldPastFits(held: set<PageId>, size: nat, fd: int, h: H.HeapFile, from: int)
    requires |held| <= size && Room(held, size, PageId(fd, from))
    ensures |HeldPast(held, fd, h, from)| <= size
  {
    hide HasRecord;
    if PageId(fd, from) in held {
      assert held + {PageId(fd, from)} == held;
    }
  }

  lemma PageParts(held: set<PageId>, size: nat, fd: int, h: H.HeapFile, taken: Taking, p: int)
    requires H.PagesOk(h) && p in h.pages && ReadsAgain(fd, h, taken)
    ensures FedBy(held, size, PageRequests(fd, h, taken, p)) <==> Room(held, size, PageId(fd, p))
    ensures Room(held, size, PageId(fd, p)) ==>
              HeldAfter(held, PageRequests(fd, h, taken, p)) == HeldPast(held, fd, h, p)
  {
    var es := PageRequests(fd, h, taken, p);
    PageOnPage(fd, h, taken, p);
    FedByIs(held, size, es);
    hide FedBy, HeldAfter, PageRequests, Room, OnPage, LooksUp, HasRecord, H.PagesOk;
    if Room(held, size, PageId(fd, p)) {
      PageFed(held, size, fd, h, p, es);
    }
  }

  /** The record-bearing pages from `from` on. */
  ghost function BearingPages(fd: int, h: H.HeapFile, from: int): set<PageId> {
    set q | from <= q < h.numPages && HasRecord(h, q) :: PageId(fd, q)
  }

  lemma BearingPagesStep(fd: int, h: H.HeapFile, from: int)
    ensures from < h.numPages ==>
              BearingPages(fd, h, from)
              == (if HasRecord(h, from) then {PageId(fd, from)} else {}) + BearingPages(fd, h, from + 1)
    ensures from >= h.numPages ==> BearingPages(fd, h, from) == {}
  {
    hide HasRecord;
  }

  lemma HeldPastIs(held: set<PageId>, fd: int, h: H.HeapFile, from: int)
    ensures HeldPast(held, fd, h, from) == held + if HasRecord(h, from) then {PageId(fd, from)} else {}
  {
  }

  lemma NoPages(held: set<PageId>, size: nat, fd: int, h: H.HeapFile, from: int)
    requires from >= h.numPages
    ensures AllReached(held, size, fd, h, from) && BearingPages(fd, h, from) == {}
  {
  }

  lemma {:induction false} ScanFedBy(held: set<PageId>, size: nat, fd: int, h: H.HeapFile, taken: Taking,
                                       from: int)
    requires H.PagesOk(h) && ReadsAgain(fd, h, taken) && H.FIRST_RECORD_PAGE <= from && |held| <= size
    ensures FedBy(held, size, ScanRequests(fd, h, taken, from)) <==> AllReached(held, size, fd, h, from)
    ensures FedBy(held, size, ScanRequests(fd, h, taken, from)) ==>
              HeldAfter(held, ScanRequests(fd, h, taken, from)) == held + BearingPages(fd, h, from)
    decreases h.numPages - from
  {
    hide *;
    ScanUnfolds(fd, h, taken, from);
    if from >= h.numPages {
      NothingHeld(held, size);
      NoPages(held, size, fd, h, from);
    } else {
      var page, rest := PageRequests(fd, h, taken, from), ScanRequests(fd, h, taken, from + 1);
      FedByConcat(held, size, page, rest);
      PageParts(held, size, fd, h, taken, from);
      AllReachedStep(held, size, fd, h, from);
      BearingPagesStep(fd, h, from);
      if Room(held, size, PageId(fd, from)) {
        HeldPastIs(held, fd, h, from);
        ScanFedBy(HeldAfter(held, page), size, fd, h, taken, from + 1);
      }
    }
  }

  /** Before every page that is not held, the scan meets fewer unheld pages with a record than there are free
      frames. */
  ghost predicate FramesForScan(held: set<PageId>, size: nat, fd: int, h: H.HeapFile) {
    forall p :: p in h.pages ==>
      PageId(fd, p) in held || |Bearing(held, fd, h, H.FIRST_RECORD_PAGE, p)| < size - |held|
  }

  /** A full scan finds a frame for every page it visits if and only if it meets few enough unheld pages with a
      record before each. Then it leaves a pin on every page that has a record. */
  lemma ScanFedIff(f: Flat, files: Files, fd: int, taken: Taking)
    requires System(f, files) && fd in files && Narrow(files[fd]) && |f.pins| <= f.size
    requires H.PagesOk(files[fd]) && ReadsAgain(fd, files[fd], taken)
    ensures
      var scan := FullScan(fd, files[fd], taken);
      && (Fed(f, files, scan) <==> FramesForScan(f.pins.Keys, f.size, fd, files[fd]))
      && (Fed(f, files, scan) ==>
            && RunFiles(f, files, scan) == files
            && FlatAfter(f, RunCalls(f, files, scan)).pins.Keys
               == f.pins.Keys + BearingPages(fd, files[fd], H.FIRST_RECORD_PAGE))
  {
    var h, p0 := files[fd], H.FIRST_RECORD_PAGE;
    hide *;
    ReadsAgainReads(files, fd, taken);
    ScanReadOnly(files, fd, taken);
    FullScanIs(fd, h, taken);
    PinsAre(f);
    ReadOnlyFed(f, files, ScanRequests(fd, h, taken, p0));
    ScanFedBy(f.pins.Keys, f.size, fd, h, taken, p0);
    AllReachedIs(f.pins.Keys, f.size, fd, h);
  }

  lemma ReadsAgainReads(files: Files, fd: int, taken: Taking)
    requires fd in files && H.PagesOk(files[fd]) && Narrow(files[fd]) && ReadsAgain(fd, files[fd], taken)
    ensures forall rid :: H.Stored(files[fd], rid) ==> ReadOnly(files, taken(rid))
  {
    H.DataPages(files[fd]);
    hide H.PagesOk;
  }

  lemma FullScanIs(fd: int, h: H.HeapFile, taken: Taking)
    requires H.PagesOk(h)
    ensures FullScan(fd, h, taken) == ScanRequests(fd, h, taken, H.FIRST_RECORD_PAGE)
  {
  }

  /** On the real pool. */
  lemma PoolScanFedIff(r: Run, files: Files, fd: int, taken: Taking)
    requires Good(r) && AllBacked(Seen(r), files) && fd in files && Narrow(files[fd])
    requires H.PagesOk(files[fd]) && ReadsAgain(fd, files[fd], taken)
    ensures PoolFed(r, files, FullScan(fd, files[fd], taken))
       <==> FramesForScan(Seen(r).pins.Keys, |r.pool.frames|, fd, files[fd])
  {
    PoolIsSystem(r, files);
    HeldFit(r);
    ScanFedIff(Seen(r), files, fd, taken);
    hide Good, AllBacked, System, Fed, FullScan, FramesForScan, H.PagesOk, Seen;
  }

  lemma AllReachedIs(held: set<PageId>, size: nat, fd: int, h: H.HeapFile)
    requires H.PagesOk(h)
    ensures AllReached(held, size, fd, h, H.FIRST_RECORD_PAGE) <==> FramesForScan(held, size, fd, h)
  {
    H.DataPages(h);
    var p0 := H.FIRST_RECORD_PAGE;
    forall p ensures Reached(held, size, fd, h, p0, p)
                <==> PageId(fd, p) in held || |Bearing(held, fd, h, p0, p)| < size - |held| {
    }
    hide H.PagesOk, Bearing, Reached;
  }
}
