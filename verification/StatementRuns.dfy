/** Whole statements over the pool: when a join of two tables, a DELETE and an UPDATE find a frame for every page
    (src/execution/executor_nestedloop_join.h, src/portal.h, src/execution/executor_delete.h,
    src/execution/executor_update.h). */
module StatementRuns {
  import opened Pool
  import opened PoolFlat
  import opened RecordPool
  import opened RecordRuns
  import opened ReadRuns
  import opened ScanRuns
  import H = HeapFile

  // A join of two tables.

  /** Both records are read to test the pair, and again if it is delivered. */
  function PairReads(fd1: int, fd2: int, l: H.Rid, r: H.Rid, n: nat): seq<Entry> {
    if n == 0 then [] else [Entry(fd1, Lookup(l)), Entry(fd2, Lookup(r))] + PairReads(fd1, fd2, l, r, n - 1)
  }

  /** Which left records pass the conditions of their own table, and how often each pair is read: not at all if
      the right record does not pass its own. */
  datatype Matching = Matching(passes: H.Rid -> bool, times: (H.Rid, H.Rid) -> nat)

  /** For one left record: a full scan of the right table. */
  function RightScan(fd1: int, fd2: int, h2: H.HeapFile, m: Matching, l: H.Rid): seq<Entry>
    requires H.PagesOk(h2)
  {
    FullScan(fd2, h2, r => PairReads(fd1, fd2, l, r, m.times(l, r)))
  }

  /** The left table is scanned once, the right one for every left record that passes. */
  function JoinRequests(fd1: int, h1: H.HeapFile, fd2: int, h2: H.HeapFile, m: Matching): seq<Entry>
    requires H.PagesOk(h1) && H.PagesOk(h2)
  {
    FullScan(fd1, h1, l => if m.passes(l) then RightScan(fd1, fd2, h2, m, l) else [])
  }

  /** Some left record passes, so that the right table is opened. */
  ghost predicate RightOpened(h1: H.HeapFile, m: Matching)
    requires H.PagesOk(h1)
  {
    exists l :: H.Stored(h1, l) && m.passes(l)
  }

  /** The pages of the file that hold a record. */
  ghost function Bearers(fd: int, h: H.HeapFile): set<PageId> {
    set p | p in h.pages && HasRecord(h, p) :: PageId(fd, p)
  }

  ghost function JoinBearers(fd1: int, h1: H.HeapFile, fd2: int, h2: H.HeapFile, m: Matching): set<PageId>
    requires H.PagesOk(h1)
  {
    Bearers(fd1, h1) + if RightOpened(h1, m) then Bearers(fd2, h2) else {}
  }

  lemma {:induction false} PairReadsAre(fd1: int, fd2: int, l: H.Rid, r: H.Rid, n: nat)
    ensures forall e :: e in PairReads(fd1, fd2, l, r, n) ==> e == Entry(fd1, Lookup(l)) || e == Entry(fd2, Lookup(r))
  {
    if n == 0 {
    } else {
      PairReadsAre(fd1, fd2, l, r, n - 1);
    }
  }

  lemma StoredReading(files: Files, fd: int, rid: H.Rid)
    requires fd in files && Narrow(files[fd]) && H.PagesOk(files[fd]) && H.Stored(files[fd], rid)
    ensures Reading(files, Entry(fd, Lookup(rid)))
    ensures PageIdOf(Entry(fd, Lookup(rid))) in Bearers(fd, files[fd])
  {
    HasRecordIs(files[fd], rid.pageNo);
    hide H.PagesOk, HasRecord;
  }

  /** The right scan for one left record reads pages of the right table and of that record. */
  lemma RightScanReads(files: Files, fd1: int, fd2: int, m: Matching, l: H.Rid)
    requires fd1 in files && Narrow(files[fd1]) && H.PagesOk(files[fd1]) && H.Stored(files[fd1], l)
    requires fd2 in files && Narrow(files[fd2]) && H.PagesOk(files[fd2])
    ensures ReadOnly(files, RightScan(fd1, fd2, files[fd2], m, l))
  {
    var h2 := files[fd2];
    var taken: Taking := r => PairReads(fd1, fd2, l, r, m.times(l, r));
    StoredReading(files, fd1, l);
    forall r | H.Stored(h2, r) ensures ReadOnly(files, taken(r)) {
      StoredReading(files, fd2, r);
      PairReadsAre(fd1, fd2, l, r, m.times(l, r));
    }
    hide Reading, H.PagesOk, FullScan, H.Stored, Narrow;
    ScanReadOnly(files, fd2, taken);
  }

  /** What a full scan requests. */
  ghost predicate AskedFully(fd: int, h: H.HeapFile, taken: Taking, e: Entry)
    requires H.PagesOk(h)
  {
    || (e.fd == fd && e.req.Visit? && e.req.pageNo in h.pages)
    || exists rid :: H.Stored(h, rid) && For(fd, taken, rid, e)
  }

  lemma FullScanAsks(fd: int, h: H.HeapFile, taken: Taking, e: Entry)
    requires H.PagesOk(h)
    ensures e in FullScan(fd, h, taken) <==> AskedFully(fd, h, taken, e)
  {
    ScanAsks(fd, h, taken, H.FIRST_RECORD_PAGE, e);
    H.DataPages(h);
    StoredFrom(h);
    hide ScanRequests, H.PagesOk, For, H.Stored;
    if rid :| H.Stored(h, rid) && For(fd, taken, rid, e) {
      assert H.FIRST_RECORD_PAGE <= rid.pageNo;
    }
  }

  /** The page belongs to the file. */
  predicate PageAmong(fd: int, h: H.HeapFile, e: Entry) {
    e.fd == fd && PageOf(e) in h.pages
  }

  lemma StoredBears(fd: int, h: H.HeapFile, rid: H.Rid)
    requires H.PagesOk(h) && H.Stored(h, rid)
    ensures PageAmong(fd, h, Entry(fd, Lookup(rid)))
    ensures PageIdOf(Entry(fd, Lookup(rid))) in Bearers(fd, h)
  {
    HasRecordIs(h, rid.pageNo);
    hide H.PagesOk, HasRecord;
  }

  /** The right scan touches pages of its table and the left record's, and looks up all records of its own. */
  lemma RightScanAsks(fd1: int, h1: H.HeapFile, fd2: int, h2: H.HeapFile, m: Matching, l: H.Rid, e: Entry)
    requires H.PagesOk(h1) && H.PagesOk(h2) && H.Stored(h1, l)
    ensures e in RightScan(fd1, fd2, h2, m, l) ==> PageAmong(fd1, h1, e) || PageAmong(fd2, h2, e)
    ensures e in RightScan(fd1, fd2, h2, m, l) && e.req.Lookup? ==>
              PageIdOf(e) in Bearers(fd1, h1) + Bearers(fd2, h2)
    ensures e.fd == fd2 && e.req.Lookup? && H.Stored(h2, e.req.rid) ==> e in RightScan(fd1, fd2, h2, m, l)
  {
    var taken: Taking := r => PairReads(fd1, fd2, l, r, m.times(l, r));
    FullScanAsks(fd2, h2, taken, e);
    StoredBears(fd1, h1, l);
    hide H.PagesOk, H.Stored, FullScan, Bearers, PairReads;
    if r :| H.Stored(h2, r) && For(fd2, taken, r, e) {
      StoredBears(fd2, h2, r);
      PairReadsAre(fd1, fd2, l, r, m.times(l, r));
    }
    if e.fd == fd2 && e.req.Lookup? && H.Stored(h2, e.req.rid) {
      assert For(fd2, taken, e.req.rid, e);
    }
  }

  /** A join touches the pages of the left table, and those of the right one if it is opened; of these it looks
      up the ones with a record. */
  lemma JoinAsks(fd1: int, h1: H.HeapFile, fd2: int, h2: H.HeapFile, m: Matching, e: Entry)
    requires H.PagesOk(h1) && H.PagesOk(h2) && e in JoinRequests(fd1, h1, fd2, h2, m)
    ensures PageAmong(fd1, h1, e) || (RightOpened(h1, m) && PageAmong(fd2, h2, e))
    ensures e.req.Lookup? ==> PageIdOf(e) in JoinBearers(fd1, h1, fd2, h2, m)
  {
    var taken: Taking := l => if m.passes(l) then RightScan(fd1, fd2, h2, m, l) else [];
    FullScanAsks(fd1, h1, taken, e);
    hide H.PagesOk, H.Stored, FullScan, Bearers, RightScan;
    if l :| H.Stored(h1, l) && For(fd1, taken, l, e) {
      StoredBears(fd1, h1, l);
      RightScanAsks(fd1, h1, fd2, h2, m, l, e);
    }
  }

  lemma BearerLooked(fd1: int, h1: H.HeapFile, fd2: int, h2: H.HeapFile, m: Matching, pid: PageId)
    returns (e: Entry)
    requires H.PagesOk(h1) && H.PagesOk(h2) && pid in JoinBearers(fd1, h1, fd2, h2, m)
    ensures e in JoinRequests(fd1, h1, fd2, h2, m) && e.req.Lookup? && PageIdOf(e) == pid
  {
    var taken: Taking := l => if m.passes(l) then RightScan(fd1, fd2, h2, m, l) else [];
    if pid in Bearers(fd1, h1) {
      HasRecordIs(h1, pid.pageNo);
      var l :| H.Stored(h1, l) && l.pageNo == pid.pageNo;
      e := Entry(fd1, Lookup(l));
      hide H.PagesOk, H.Stored, FullScan, RightScan;
      assert For(fd1, taken, l, e);
    } else {
      HasRecordIs(h2, pid.pageNo);
      var r :| H.Stored(h2, r) && r.pageNo == pid.pageNo;
      e := Entry(fd2, Lookup(r));
      hide H.PagesOk, H.Stored, FullScan, RightScan;
      var l :| H.Stored(h1, l) && m.passes(l);
      RightScanAsks(fd1, h1, fd2, h2, m, l, e);
      assert For(fd1, taken, l, e);
    }
    FullScanAsks(fd1, h1, taken, e);
  }

  lemma JoinLooksUp(fd1: int, h1: H.HeapFile, fd2: int, h2: H.HeapFile, m: Matching)
    requires H.PagesOk(h1) && H.PagesOk(h2)
    ensures LookedUp(JoinRequests(fd1, h1, fd2, h2, m)) == JoinBearers(fd1, h1, fd2, h2, m)
  {
    hide H.PagesOk, JoinRequests, JoinBearers, PageIdOf;
    var es, bearers := JoinRequests(fd1, h1, fd2, h2, m), JoinBearers(fd1, h1, fd2, h2, m);
    forall pid ensures pid in LookedUp(es) <==> pid in bearers {
      if pid in LookedUp(es) {
        var e :| e in es && e.req.Lookup? && PageIdOf(e) == pid;
        JoinAsks(fd1, h1, fd2, h2, m, e);
      }
      if pid in bearers {
        var e := BearerLooked(fd1, h1, fd2, h2, m, pid);
      }
    }
  }

  lemma JoinReads(files: Files, fd1: int, fd2: int, m: Matching)
    requires fd1 in files && Narrow(files[fd1]) && H.PagesOk(files[fd1])
    requires fd2 in files && Narrow(files[fd2]) && H.PagesOk(files[fd2])
    ensures ReadOnly(files, JoinRequests(fd1, files[fd1], fd2, files[fd2], m))
  {
    var taken: Taking := l => if m.passes(l) then RightScan(fd1, fd2, files[fd2], m, l) else [];
    hide Reading, H.PagesOk, FullScan, H.Stored, Narrow, RightScan;
    forall l | H.Stored(files[fd1], l) ensures ReadOnly(files, taken(l)) {
      RightScanReads(files, fd1, fd2, m, l);
    }
    ScanReadOnly(files, fd1, taken);
  }

  /** Every page that is not held has a record. */
  predicate NoEmptyPage(held: set<PageId>, fd: int, h: H.HeapFile) {
    forall p :: p in h.pages ==> PageId(fd, p) in held || HasRecord(h, p)
  }

  lemma NoEmptyVisit(held: set<PageId>, fd1: int, h1: H.HeapFile, fd2: int, h2: H.HeapFile, m: Matching)
    requires H.PagesOk(h1) && H.PagesOk(h2) && NoEmptyPage(held, fd1, h1)
    requires RightOpened(h1, m) ==> NoEmptyPage(held, fd2, h2)
    ensures !VisitsWhen(held, held + JoinBearers(fd1, h1, fd2, h2, m), JoinRequests(fd1, h1, fd2, h2, m))
  {
    hide H.PagesOk, JoinRequests, HasRecord, RightOpened, VisitsWhen;
    var es, all := JoinRequests(fd1, h1, fd2, h2, m), held + JoinBearers(fd1, h1, fd2, h2, m);
    forall e | e in es ensures PageIdOf(e) in all {
      JoinAsks(fd1, h1, fd2, h2, m, e);
    }
    NoOtherVisit(held, all, es);
  }

  /** A join of two tables finds its frames if and only if there are enough for the pages held before and all
      pages with a record, of the left table and, if some left record passes, of the right one; should those take
      every frame, no other page may be visited then. Without pages that are empty of records there is no other
      page. Afterwards all of them stay pinned. */
  lemma JoinFedIff(f: Flat, files: Files, fd1: int, fd2: int, m: Matching)
    requires System(f, files) && |f.pins| <= f.size
    requires fd1 in files && Narrow(files[fd1]) && H.PagesOk(files[fd1])
    requires fd2 in files && Narrow(files[fd2]) && H.PagesOk(files[fd2])
    ensures
      var h1, h2, held := files[fd1], files[fd2], f.pins.Keys;
      var es, all := JoinRequests(fd1, h1, fd2, h2, m), held + JoinBearers(fd1, h1, fd2, h2, m);
      && (Fed(f, files, es) <==> |all| <= f.size && (|all| == f.size ==> !VisitsWhen(held, all, es)))
      && (NoEmptyPage(held, fd1, h1) && (RightOpened(h1, m) ==> NoEmptyPage(held, fd2, h2)) ==>
           (Fed(f, files, es) <==> |all| <= f.size))
      && (Fed(f, files, es) ==>
           RunFiles(f, files, es) == files && FlatAfter(f, RunCalls(f, files, es)).pins.Keys == all)
  {
    hide *;
    var h1, h2, held := files[fd1], files[fd2], f.pins.Keys;
    JoinReads(files, fd1, fd2, m);
    ReadOnlyFedIff(f, files, JoinRequests(fd1, h1, fd2, h2, m));
    JoinLooksUp(fd1, h1, fd2, h2, m);
    if NoEmptyPage(held, fd1, h1) && (RightOpened(h1, m) ==> NoEmptyPage(held, fd2, h2)) {
      NoEmptyVisit(held, fd1, h1, fd2, h2, m);
    }
  }

  // Requests on pages that are held.

  /** The requests as entries on one file. */
  function On(fd: int, reqs: seq<Request>): seq<Entry> {
    if reqs == [] then [] else [Entry(fd, reqs[0])] + On(fd, reqs[1..])
  }

  predicate RequestsOk(h: H.HeapFile, reqs: seq<Request>) {
    forall req :: req in reqs ==> RequestOk(h, req)
  }

  lemma PagesStay(h: H.HeapFile, req: Request)
    requires H.Inv(h) && RequestOk(h, req) && !Inserts(req)
    ensures FileAfter(h, req).pages.Keys == h.pages.Keys && FileAfter(h, req).counter == h.counter
  {
    hide H.ChainOk, H.PageOk;
  }

  lemma FileKeepsShape(h: H.HeapFile, req: Request)
    requires H.Inv(h) && RequestOk(h, req)
    ensures H.Inv(FileAfter(h, req))
    ensures FileAfter(h, req).recordSize == h.recordSize && FileAfter(h, req).capacity == h.capacity
  {
    hide H.Inv, H.Contents, H.Perform;
    FileKeepsInv(h, req);
    if req.Change? {
      H.PerformRefines(h, req.op);
    }
  }

  lemma RestOk(h: H.HeapFile, reqs: seq<Request>)
    requires H.Inv(h) && reqs != [] && RequestsOk(h, reqs)
    ensures RequestOk(h, reqs[0]) && H.Inv(FileAfter(h, reqs[0])) && RequestsOk(FileAfter(h, reqs[0]), reqs[1..])
  {
    hide H.Inv, FileAfter;
    assert reqs[0] in reqs;
    FileKeepsShape(h, reqs[0]);
    forall req | req in reqs[1..] ensures RequestOk(FileAfter(h, reqs[0]), req) {
      assert RequestOk(h, req);
    }
  }

  /** The file after its requests. */
  ghost function TypedAfter(h: H.HeapFile, reqs: seq<Request>): H.HeapFile
    requires H.Inv(h) && RequestsOk(h, reqs)
    decreases |reqs|
  {
    if reqs == [] then h
    else
      RestOk(h, reqs);
      TypedAfter(FileAfter(h, reqs[0]), reqs[1..])
  }

  /** The request is about a page that is held. */
  predicate OnHeld(held: set<PageId>, fd: int, h: H.HeapFile, req: Request) {
    && RequestOk(h, req) && Named(req).Some? && Named(req).value in h.pages
    && PageId(fd, Named(req).value) in held
  }

  predicate AllOnHeld(held: set<PageId>, fd: int, h: H.HeapFile, reqs: seq<Request>) {
    forall req :: req in reqs ==> OnHeld(held, fd, h, req)
  }

  lemma OnHeldOk(f: Flat, files: Files, fd: int, req: Request)
    requires System(f, files) && fd in files && Narrow(files[fd]) && OnHeld(f.pins.Keys, fd, files[fd], req)
    ensures
      var e := Entry(fd, req);
      && EntryOk(files, e) && !EntryStarved(f, files, e) && H.Inv(files[fd])
      && FilesAfter(f, files, e) == files[fd := FileAfter(files[fd], req)]
  {
    hide H.Inv, Backs, Sane, Full;
  }

  lemma HeldStay(f: Flat, f': Flat)
    requires Sane(f) && Sane(f') && forall q :: PinCount(f', q) >= PinCount(f, q)
    ensures f.pins.Keys <= f'.pins.Keys
  {
    forall q | q in f.pins ensures q in f'.pins {
      assert PinCount(f', q) >= PinCount(f, q);
    }
  }

  lemma OnHeldServed(f: Flat, files: Files, fd: int, req: Request)
    requires System(f, files) && fd in files && Narrow(files[fd]) && OnHeld(f.pins.Keys, fd, files[fd], req)
    ensures
      var e := Entry(fd, req);
      && H.Inv(files[fd]) && RequestOk(files[fd], req)
      && EntryOk(files, e) && !EntryStarved(f, files, e)
      && FilesAfter(f, files, e) == files[fd := FileAfter(files[fd], req)]
      && System(PoolNext(f, files, e), FilesAfter(f, files, e)) && f.pins.Keys <= PoolNext(f, files, e).pins.Keys
  {
    var e := Entry(fd, req);
    OnHeldOk(f, files, fd, req);
    EntryServed(f, files, e);
    PoolNextIs(f, files, e);
    FilesBacked(f, files);
    FilesBacked(PoolNext(f, files, e), FilesAfter(f, files, e));
    hide System, EntryOk, EntryStarved, FilesAfter, PoolNext, CallsOf, FlatAfter, KeepsPin, Sane, Backs, H.Inv,
         FileAfter, PinCount, Narrow;
    HeldStay(f, PoolNext(f, files, e));
  }

  lemma RestOnHeld(held: set<PageId>, held': set<PageId>, fd: int, h: H.HeapFile, reqs: seq<Request>)
    requires H.Inv(h) && reqs != [] && AllOnHeld(held, fd, h, reqs) && held <= held'
    ensures OnHeld(held, fd, h, reqs[0]) && RequestsOk(h, reqs)
    ensures AllOnHeld(held', fd, FileAfter(h, reqs[0]), reqs[1..])
    ensures Narrow(h) ==> Narrow(FileAfter(h, reqs[0]))
  {
    hide H.Inv, FileAfter;
    assert reqs[0] in reqs;
    FileKeepsShape(h, reqs[0]);
    PagesStay(h, reqs[0]);
    forall req | req in reqs[1..] ensures OnHeld(held', fd, FileAfter(h, reqs[0]), req) {
      assert OnHeld(held, fd, h, req);
    }
  }

  lemma OnUnfolds(fd: int, reqs: seq<Request>)
    requires reqs != []
    ensures On(fd, reqs) == [Entry(fd, reqs[0])] + On(fd, reqs[1..])
  {
  }

  lemma TypedUnfolds(h: H.HeapFile, reqs: seq<Request>)
    requires H.Inv(h) && reqs != [] && RequestsOk(h, reqs)
    ensures RequestOk(h, reqs[0]) && H.Inv(FileAfter(h, reqs[0]))
    ensures RequestsOk(FileAfter(h, reqs[0]), reqs[1..])
    ensures TypedAfter(h, reqs) == TypedAfter(FileAfter(h, reqs[0]), reqs[1..])
  {
    RestOk(h, reqs);
    hide H.Inv, FileAfter, RequestsOk, RequestOk;
  }

  lemma NothingOn(f: Flat, files: Files, fd: int)
    requires System(f, files) && fd in files
    ensures H.Inv(files[fd]) && RequestsOk(files[fd], []) && Fed(f, files, On(fd, []))
    ensures RunFiles(f, files, On(fd, [])) == files[fd := TypedAfter(files[fd], [])]
  {
    hide H.Inv, Backs, Sane;
    assert files[fd := files[fd]] == files;
  }

  /** Look-ups, visits, deletions and updates on pages that are held always find their frames. */
  lemma {:induction false} HeldFed(f: Flat, files: Files, fd: int, reqs: seq<Request>)
    requires System(f, files) && fd in files && Narrow(files[fd])
    requires AllOnHeld(f.pins.Keys, fd, files[fd], reqs)
    ensures H.Inv(files[fd]) && RequestsOk(files[fd], reqs)
    ensures Fed(f, files, On(fd, reqs))
    ensures RunFiles(f, files, On(fd, reqs)) == files[fd := TypedAfter(files[fd], reqs)]
    decreases |reqs|
  {
    hide *;
    if reqs == [] {
      NothingOn(f, files, fd);
    } else {
      var h, e := files[fd], Entry(fd, reqs[0]);
      FileInv(f, files, fd);
      RestOnHeld(f.pins.Keys, f.pins.Keys, fd, h, reqs);
      OnHeldServed(f, files, fd, reqs[0]);
      var f1, h1 := PoolNext(f, files, e), FileAfter(h, reqs[0]);
      RestOnHeld(f.pins.Keys, f1.pins.Keys, fd, h, reqs);
      HeldFed(f1, files[fd := h1], fd, reqs[1..]);
      FirstOfRun(f, files, e, On(fd, reqs[1..]));
      OnUnfolds(fd, reqs);
      TypedUnfolds(h, reqs);
    }
  }

  lemma FileInv(f: Flat, files: Files, fd: int)
    requires System(f, files) && fd in files
    ensures H.Inv(files[fd]) && H.PagesOk(files[fd])
  {
    hide H.PagesOk, Backs, Sane;
  }

  // One run after another.

  ghost function PoolRun(f: Flat, files: Files, es: seq<Entry>): Flat
    requires System(f, files) && Fed(f, files, es)
  {
    FlatAfter(f, RunCalls(f, files, es))
  }

  lemma {:induction false} FedConcat(f: Flat, files: Files, a: seq<Entry>, b: seq<Entry>)
    requires System(f, files) && Fed(f, files, a)
    ensures System(PoolRun(f, files, a), RunFiles(f, files, a))
    ensures Fed(f, files, a + b) <==> Fed(PoolRun(f, files, a), RunFiles(f, files, a), b)
    ensures Fed(f, files, a + b) ==>
              RunFiles(f, files, a + b) == RunFiles(PoolRun(f, files, a), RunFiles(f, files, a), b)
    decreases |a|
  {
    hide *;
    PoolRunIs(f, files, a);
    RunServed(f, files, a);
    if a == [] {
      NothingAsked(f, files);
      assert a + b == b;
    } else {
      var e := a[0];
      FedFirst(f, files, a);
      FirstOfRun(f, files, e, a[1..]);
      FirstOfRun(f, files, e, a[1..] + b);
      assert a == [e] + a[1..] && a + b == [e] + (a[1..] + b);
      var f1, files1 := PoolNext(f, files, e), FilesAfter(f, files, e);
      PoolNextIs(f, files, e);
      PoolRunIs(f1, files1, a[1..]);
      CallsConcat(f, CallsOf(f, files, e), RunCalls(f1, files1, a[1..]));
      FedConcat(f1, files1, a[1..], b);
    }
  }

  lemma PoolRunIs(f: Flat, files: Files, es: seq<Entry>)
    requires System(f, files) && Fed(f, files, es)
    ensures PoolRun(f, files, es) == FlatAfter(f, RunCalls(f, files, es))
  {
  }

  lemma FedFirst(f: Flat, files: Files, es: seq<Entry>)
    requires System(f, files) && Fed(f, files, es) && es != []
    ensures EntryOk(files, es[0]) && !EntryStarved(f, files, es[0])
  {
    hide System, EntryOk, EntryStarved;
  }

  lemma {:induction false} FedPrefix(f: Flat, files: Files, a: seq<Entry>, b: seq<Entry>)
    requires System(f, files) && Fed(f, files, a + b)
    ensures Fed(f, files, a)
    decreases |a|
  {
    hide *;
    if a == [] {
      NothingAsked(f, files);
    } else {
      var e := a[0];
      assert a == [e] + a[1..] && a + b == [e] + (a[1..] + b);
      FedFirst(f, files, a + b);
      FirstOfRun(f, files, e, a[1..]);
      FirstOfRun(f, files, e, a[1..] + b);
      FedPrefix(PoolNext(f, files, e), FilesAfter(f, files, e), a[1..], b);
    }
  }

  // DELETE and UPDATE.

  /** The scan that collects the rids takes no record. Then come the requests of the executor. */
  function StatementRequests(fd: int, h: H.HeapFile, reqs: seq<Request>): seq<Entry>
    requires H.PagesOk(h)
  {
    FullScan(fd, h, _ => []) + On(fd, reqs)
  }

  /** The request names a page with a record. */
  predicate OnBearer(h: H.HeapFile, req: Request) {
    RequestOk(h, req) && Named(req).Some? && HasRecord(h, Named(req).value)
  }

  lemma BearersHeld(held: set<PageId>, fd: int, h: H.HeapFile, reqs: seq<Request>)
    requires H.PagesOk(h) && BearingPages(fd, h, H.FIRST_RECORD_PAGE) <= held
    requires forall req :: req in reqs ==> OnBearer(h, req)
    ensures AllOnHeld(held, fd, h, reqs)
  {
    H.DataPages(h);
    hide H.PagesOk, RequestOk;
    forall req | req in reqs ensures OnHeld(held, fd, h, req) {
      assert OnBearer(h, req);
      assert PageId(fd, Named(req).value) in BearingPages(fd, h, H.FIRST_RECORD_PAGE);
    }
  }

  lemma NothingTaken(fd: int, h: H.HeapFile)
    requires H.PagesOk(h)
    ensures ReadsAgain(fd, h, _ => [])
  {
  }

  /** A statement that scans and then works on records it has seen finds its frames if and only if the scan does:
      the scan leaves its pages pinned. */
  lemma StatementFedIff(f: Flat, files: Files, fd: int, reqs: seq<Request>)
    requires System(f, files) && fd in files && Narrow(files[fd]) && |f.pins| <= f.size && H.PagesOk(files[fd])
    requires forall req :: req in reqs ==> OnBearer(files[fd], req)
    ensures H.Inv(files[fd]) && RequestsOk(files[fd], reqs)
    ensures
      var es := StatementRequests(fd, files[fd], reqs);
      && (Fed(f, files, es) <==> FramesForScan(f.pins.Keys, f.size, fd, files[fd]))
      && (Fed(f, files, es) ==> RunFiles(f, files, es) == files[fd := TypedAfter(files[fd], reqs)])
  {
    hide *;
    var h, taken: Taking := files[fd], _ => [];
    var scan := FullScan(fd, h, taken);
    FileInv(f, files, fd);
    AllRequestsOk(h, reqs);
    NothingTaken(fd, h);
    ScanFedIff(f, files, fd, taken);
    StatementIs(fd, h, reqs, taken);
    if Fed(f, files, scan) {
      FedConcat(f, files, scan, On(fd, reqs));
      PoolRunIs(f, files, scan);
      BearersHeld(PoolRun(f, files, scan).pins.Keys, fd, h, reqs);
      HeldFed(PoolRun(f, files, scan), files, fd, reqs);
    } else if Fed(f, files, scan + On(fd, reqs)) {
      FedPrefix(f, files, scan, On(fd, reqs));
    }
  }

  lemma StatementIs(fd: int, h: H.HeapFile, reqs: seq<Request>, taken: Taking)
    requires H.PagesOk(h) && taken == (_ => [])
    ensures StatementRequests(fd, h, reqs) == FullScan(fd, h, taken) + On(fd, reqs)
  {
  }

  lemma AllRequestsOk(h: H.HeapFile, reqs: seq<Request>)
    requires forall req :: req in reqs ==> OnBearer(h, req)
    ensures RequestsOk(h, reqs)
  {
    hide RequestOk, HasRecord;
  }

  /** The requests of the delete executor. */
  function Deletions(rids: seq<H.Rid>): seq<Request> {
    if rids == [] then [] else [Change(H.DeleteOp(rids[0]))] + Deletions(rids[1..])
  }

  /** The requests of the update executor: read the record, write it back changed. */
  function Updates(rids: seq<H.Rid>, change: H.Rid -> H.Record): seq<Request> {
    if rids == [] then []
    else [Lookup(rids[0]), Change(H.UpdateOp(rids[0], change(rids[0])))] + Updates(rids[1..], change)
  }

  /** The records are stored. */
  ghost predicate AllStored(h: H.HeapFile, rids: seq<H.Rid>)
    requires H.PagesOk(h)
  {
    forall rid :: rid in rids ==> H.Stored(h, rid)
  }

  lemma StoredOnBearer(h: H.HeapFile, rid: H.Rid)
    requires H.PagesOk(h) && H.Stored(h, rid)
    ensures H.ValidSlot(h.capacity, rid) && HasRecord(h, rid.pageNo)
  {
    HasRecordIs(h, rid.pageNo);
  }

  lemma {:induction false} DeletionsOnBearers(h: H.HeapFile, rids: seq<H.Rid>)
    requires H.PagesOk(h) && AllStored(h, rids)
    ensures forall req :: req in Deletions(rids) ==> OnBearer(h, req)
  {
    hide H.PagesOk, HasRecord, H.Stored;
    if rids == [] {
    } else {
      DeletionsOnBearers(h, rids[1..]);
      StoredOnBearer(h, rids[0]);
    }
  }

  lemma {:induction false} UpdatesOnBearers(h: H.HeapFile, rids: seq<H.Rid>, change: H.Rid -> H.Record)
    requires H.PagesOk(h) && AllStored(h, rids) && forall rid :: rid in rids ==> |change(rid)| >= h.recordSize
    ensures forall req :: req in Updates(rids, change) ==> OnBearer(h, req)
  {
    hide H.PagesOk, HasRecord, H.Stored;
    if rids == [] {
    } else {
      UpdatesOnBearers(h, rids[1..], change);
      StoredOnBearer(h, rids[0]);
    }
  }

  lemma OneMore(h: H.HeapFile, req: Request, rest: seq<Request>)
    requires H.Inv(h) && RequestsOk(h, [req] + rest)
    ensures RequestOk(h, req) && H.Inv(FileAfter(h, req)) && RequestsOk(FileAfter(h, req), rest)
    ensures TypedAfter(h, [req] + rest) == TypedAfter(FileAfter(h, req), rest)
  {
    TypedUnfolds(h, [req] + rest);
    assert ([req] + rest)[1..] == rest;
    hide H.Inv, FileAfter, TypedAfter, RequestsOk, RequestOk;
  }

  lemma Deleted(h: H.HeapFile, rid: H.Rid)
    requires H.Inv(h) && H.ValidSlot(h.capacity, rid)
    ensures
      var h' := FileAfter(h, Change(H.DeleteOp(rid)));
      H.Inv(h') && H.PagesOk(h') && H.PagesOk(h) && H.Contents(h') == H.Contents(h) - {rid}
  {
    H.PerformRefines(h, H.DeleteOp(rid));
    hide H.PagesOk, H.ChainOk, H.Contents, H.Perform;
  }

  /** What the deletions leave. */
  lemma {:induction false} DeletionsLeave(h: H.HeapFile, rids: seq<H.Rid>)
    requires H.Inv(h) && RequestsOk(h, Deletions(rids))
    ensures H.PagesOk(h) && H.PagesOk(TypedAfter(h, Deletions(rids)))
    ensures H.Contents(TypedAfter(h, Deletions(rids))) == H.Contents(h) - set rid | rid in rids
    decreases |rids|
  {
    hide H.PagesOk, H.ChainOk, H.Contents, TypedAfter, FileAfter;
    if rids == [] {
      TypedNothing(h);
    } else {
      var req, h1 := Change(H.DeleteOp(rids[0])), FileAfter(h, Change(H.DeleteOp(rids[0])));
      OneMore(h, req, Deletions(rids[1..]));
      Deleted(h, rids[0]);
      DeletionsLeave(h1, rids[1..]);
      assert (set rid | rid in rids) == {rids[0]} + set rid | rid in rids[1..];
    }
  }

  lemma TypedNothing(h: H.HeapFile)
    requires H.Inv(h)
    ensures RequestsOk(h, []) && TypedAfter(h, []) == h
  {
  }

  /** The records under the rids replaced, and no other. */
  ghost function Changed(m: map<H.Rid, H.Record>, rids: seq<H.Rid>, change: H.Rid -> H.Record, n: nat)
    : map<H.Rid, H.Record>
    requires forall rid :: rid in rids ==> |change(rid)| >= n
  {
    map rid | rid in m :: if rid in rids then change(rid)[..n] else m[rid]
  }

  lemma Updated(h: H.HeapFile, rid: H.Rid, buf: H.Record)
    requires H.Inv(h) && H.ValidSlot(h.capacity, rid) && |buf| >= h.recordSize
    ensures
      var h' := FileAfter(h, Change(H.UpdateOp(rid, buf)));
      && H.Inv(h') && H.PagesOk(h') && H.PagesOk(h) && h'.recordSize == h.recordSize
      && H.Contents(h') == if rid in H.Contents(h) then H.Contents(h)[rid := buf[..h.recordSize]] else H.Contents(h)
  {
    H.PerformRefines(h, H.UpdateOp(rid, buf));
    hide H.PagesOk, H.ChainOk, H.Contents, H.Perform;
  }

  lemma ChangedFirst(m: map<H.Rid, H.Record>, rids: seq<H.Rid>, change: H.Rid -> H.Record, n: nat)
    requires rids != [] && forall rid :: rid in rids ==> |change(rid)| >= n
    ensures
      var m1 := if rids[0] in m then m[rids[0] := change(rids[0])[..n]] else m;
      Changed(m, rids, change, n) == Changed(m1, rids[1..], change, n)
  {
    assert rids == [rids[0]] + rids[1..];
  }

  lemma UpdateFirst(h: H.HeapFile, rids: seq<H.Rid>, change: H.Rid -> H.Record)
    requires H.Inv(h) && rids != [] && RequestsOk(h, Updates(rids, change))
    ensures H.ValidSlot(h.capacity, rids[0]) && |change(rids[0])| >= h.recordSize
    ensures
      var h1 := FileAfter(h, Change(H.UpdateOp(rids[0], change(rids[0]))));
      && H.Inv(h1) && RequestsOk(h1, Updates(rids[1..], change))
      && TypedAfter(h, Updates(rids, change)) == TypedAfter(h1, Updates(rids[1..], change))
  {
    hide *;
    var look, write, rest := Lookup(rids[0]), Change(H.UpdateOp(rids[0], change(rids[0]))), Updates(rids[1..], change);
    UpdatesUnfold(rids, change);
    OneMore(h, look, [write] + rest);
    LookupStays(h, rids[0]);
    OneMore(h, write, rest);
    UpdateAllowed(h, rids[0], change(rids[0]));
  }

  lemma UpdatesUnfold(rids: seq<H.Rid>, change: H.Rid -> H.Record)
    requires rids != []
    ensures
      var look, write := Lookup(rids[0]), Change(H.UpdateOp(rids[0], change(rids[0])));
      Updates(rids, change) == [look] + ([write] + Updates(rids[1..], change))
  {
  }

  lemma LookupStays(h: H.HeapFile, rid: H.Rid)
    requires H.Inv(h) && RequestOk(h, Lookup(rid))
    ensures FileAfter(h, Lookup(rid)) == h
  {
    hide H.Inv;
  }

  lemma UpdateAllowed(h: H.HeapFile, rid: H.Rid, buf: H.Record)
    requires RequestOk(h, Change(H.UpdateOp(rid, buf)))
    ensures H.ValidSlot(h.capacity, rid) && |buf| >= h.recordSize
  {
  }

  /** What the updates leave. */
  lemma {:induction false} UpdatesLeave(h: H.HeapFile, rids: seq<H.Rid>, change: H.Rid -> H.Record)
    requires H.Inv(h) && RequestsOk(h, Updates(rids, change))
    requires forall rid :: rid in rids ==> |change(rid)| >= h.recordSize
    ensures H.PagesOk(h) && H.PagesOk(TypedAfter(h, Updates(rids, change)))
    ensures H.Contents(TypedAfter(h, Updates(rids, change))) == Changed(H.Contents(h), rids, change, h.recordSize)
    decreases |rids|
  {
    hide H.PagesOk, H.ChainOk, H.Contents, TypedAfter, FileAfter, RequestsOk;
    if rids == [] {
      TypedNothing(h);
    } else {
      UpdateFirst(h, rids, change);
      Updated(h, rids[0], change(rids[0]));
      UpdatesLeave(FileAfter(h, Change(H.UpdateOp(rids[0], change(rids[0])))), rids[1..], change);
      ChangedFirst(H.Contents(h), rids, change, h.recordSize);
      hide Changed, Updates;
    }
  }

  /** DELETE finds all its frames if and only if its scan does; then the listed records are gone, and no other. */
  lemma DeleteFedIff(f: Flat, files: Files, fd: int, rids: seq<H.Rid>)
    requires System(f, files) && fd in files && Narrow(files[fd]) && |f.pins| <= f.size
    requires H.PagesOk(files[fd]) && AllStored(files[fd], rids)
    ensures
      var es := StatementRequests(fd, files[fd], Deletions(rids));
      && (Fed(f, files, es) <==> FramesForScan(f.pins.Keys, f.size, fd, files[fd]))
      && (Fed(f, files, es) ==>
           && fd in RunFiles(f, files, es) && H.PagesOk(RunFiles(f, files, es)[fd])
           && H.Contents(RunFiles(f, files, es)[fd]) == H.Contents(files[fd]) - set rid | rid in rids)
  {
    hide *;
    DeletionsOnBearers(files[fd], rids);
    StatementFedIff(f, files, fd, Deletions(rids));
    DeletionsLeave(files[fd], rids);
  }

  /** UPDATE too; then the listed records are changed, and no other. */
  lemma UpdateFedIff(f: Flat, files: Files, fd: int, rids: seq<H.Rid>, change: H.Rid -> H.Record)
    requires System(f, files) && fd in files && Narrow(files[fd]) && |f.pins| <= f.size
    requires H.PagesOk(files[fd]) && AllStored(files[fd], rids)
    requires forall rid :: rid in rids ==> |change(rid)| >= files[fd].recordSize
    ensures
      var es := StatementRequests(fd, files[fd], Updates(rids, change));
      && (Fed(f, files, es) <==> FramesForScan(f.pins.Keys, f.size, fd, files[fd]))
      && (Fed(f, files, es) ==>
           && fd in RunFiles(f, files, es) && H.PagesOk(RunFiles(f, files, es)[fd])
           && H.Contents(RunFiles(f, files, es)[fd])
              == Changed(H.Contents(files[fd]), rids, change, files[fd].recordSize))
  {
    hide *;
    UpdatesOnBearers(files[fd], rids, change);
    StatementFedIff(f, files, fd, Updates(rids, change));
    UpdatesLeave(files[fd], rids, change);
  }
}
