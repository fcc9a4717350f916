/** Runs of record operations on several files over one pool: what the pool serves, which pins stay behind,
    and when the pool has no frame left (src/record/rm_file_handle.cpp, src/storage/buffer_pool_manager.cpp). */
module RecordRuns {
  import opened Wrappers
  import opened Page
  import opened Pool
  import opened PoolRuns
  import opened PoolFlat
  import opened RecordPool
  import H = HeapFile

  /** The pool answers a request's first call with a null pointer if and only if the request is starved. */
  lemma NullIffStarved(f: Flat, fd: int, h: H.HeapFile, req: Request, answer: Answer)
    requires Reaches(f, fd, h, req) && |Calls(f, fd, h, req)| > 0
    requires FlatAnswer(f, Calls(f, fd, h, req)[0], answer)
    ensures answer == NoFrame <==> Starved(f, fd, h, req)
  {
    CallsAre(f, fd, h, req);
    hide Calls, Following, Full, Target, Before, Reaches;
  }

  // One request of a run.

  type Files = map<int, H.HeapFile>

  datatype Entry = Entry(fd: int, req: Request)

  /** The pool backs the open files. */
  ghost predicate AllBacked(f: Flat, files: Files) {
    forall fd :: fd in files ==> 0 <= fd < MAX_FD && H.Inv(files[fd]) && Backs(f, fd, files[fd])
  }

  /** The open files and the pool behind them. */
  ghost predicate System(f: Flat, files: Files) {
    Sane(f) && AllBacked(f, files)
  }

  predicate EntryOk(files: Files, e: Entry) {
    e.fd in files && Narrow(files[e.fd]) && RequestOk(files[e.fd], e.req)
  }

  /** The request gets as far as the pool. */
  predicate Sent(files: Files, e: Entry)
    requires EntryOk(files, e)
  {
    !Refused(files[e.fd], e.req)
  }

  lemma EntryReaches(f: Flat, files: Files, e: Entry)
    requires System(f, files) && EntryOk(files, e)
    ensures H.Inv(files[e.fd]) && RequestOk(files[e.fd], e.req)
    ensures Sent(files, e) ==> Reaches(f, e.fd, files[e.fd], e.req)
  {
    hide H.Inv, Backs, Refused;
  }

  ghost function CallsOf(f: Flat, files: Files, e: Entry): seq<Call>
    requires System(f, files) && EntryOk(files, e)
  {
    EntryReaches(f, files, e);
    if Sent(files, e) then Calls(f, e.fd, files[e.fd], e.req) else []
  }

  ghost predicate EntryStarved(f: Flat, files: Files, e: Entry)
    requires EntryOk(files, e)
  {
    Sent(files, e) && Starved(f, e.fd, files[e.fd], e.req)
  }

  ghost function FilesAfter(f: Flat, files: Files, e: Entry): Files
    requires System(f, files) && EntryOk(files, e)
  {
    EntryReaches(f, files, e);
    files[e.fd := FileAfter(files[e.fd], e.req)]
  }

  /** The request leaves a pin on the page. */
  ghost predicate KeepsPin(f: Flat, files: Files, e: Entry, pid: PageId)
    requires System(f, files) && EntryOk(files, e)
  {
    EntryReaches(f, files, e);
    Sent(files, e) && Keeps(files[e.fd], e.req) && pid == PageId(e.fd, Target(files[e.fd], e.req))
  }

  function PinCount(f: Flat, pid: PageId): int {
    if pid in f.pins then f.pins[pid] else 0
  }

  lemma PinsMoved(f: Flat, pid: PageId, kept: bool, r: Option<PageData>, counter: map<int, int>, q: PageId)
    ensures PinCount(PoolAfter(f, pid, kept, r, counter), q) == PinCount(f, q) + if kept && q == pid then 1 else 0
  {
  }

  lemma OtherFile(f: Flat, fd: int, h: H.HeapFile, pid: PageId, kept: bool, r: Option<PageData>, counter: map<int, int>)
    requires Backs(f, fd, h) && pid.fd != fd && Next(counter, fd) == Next(f.counter, fd)
    ensures Backs(PoolAfter(f, pid, kept, r, counter), fd, h)
  {
    hide PageLayout.Decode;
  }

  lemma KeptSane(f: Flat, pid: PageId, kept: bool, r: Option<PageData>, counter: map<int, int>)
    requires Sane(f) && (kept ==> pid.pageNo < Next(counter, pid.fd))
    requires forall fd :: Next(f.counter, fd) <= Next(counter, fd)
    ensures Sane(PoolAfter(f, pid, kept, r, counter))
  {
  }

  lemma TargetCounted(f: Flat, fd: int, h: H.HeapFile, req: Request)
    requires Reaches(f, fd, h, req)
    ensures
      var counter := CounterAfter(f, fd, h, req);
      && Target(h, req) < Next(counter, fd)
      && forall g :: Next(f.counter, g) <= Next(counter, g) && (g != fd ==> Next(f.counter, g) == Next(counter, g))
  {
    TargetInFile(h, req);
    hide H.Contents, PageLayout.Decode;
  }

  lemma RefusedStays(h: H.HeapFile, req: Request)
    requires H.Inv(h) && RequestOk(h, req) && Refused(h, req)
    ensures FileAfter(h, req) == h
  {
    hide H.Inv;
  }

  lemma SystemMoves(f: Flat, f1: Flat, files: Files, fd: int, h: H.HeapFile)
    requires System(f, files) && fd in files && Sane(f1) && H.Inv(h) && Backs(f1, fd, h)
    requires forall g :: g in files && g != fd ==> Backs(f1, g, files[g])
    ensures System(f1, files[fd := h])
  {
    hide H.Inv, Backs, Sane;
  }

  lemma ServedSystem(f: Flat, files: Files, fd: int, req: Request)
    requires System(f, files) && fd in files && Reaches(f, fd, files[fd], req)
    ensures H.Inv(files[fd]) && RequestOk(files[fd], req)
    ensures System(Served(f, fd, files[fd], req), files[fd := FileAfter(files[fd], req)])
  {
    var h := files[fd];
    ServedBacks(f, fd, h, req);
    TargetCounted(f, fd, h, req);
    CallsAre(f, fd, h, req);
    var pid, kept, r := PageId(fd, Target(h, req)), Keeps(h, req), Rewritten(h, req, Before(f, fd, h, req));
    var counter := CounterAfter(f, fd, h, req);
    FilesBacked(f, files);
    hide *;
    KeptSane(f, pid, kept, r, counter);
    forall g | g in files && g != fd ensures Backs(Served(f, fd, h, req), g, files[g]) {
      OtherFile(f, g, files[g], pid, kept, r, counter);
    }
    SystemMoves(f, Served(f, fd, h, req), files, fd, FileAfter(h, req));
  }

  lemma FilesBacked(f: Flat, files: Files)
    requires System(f, files)
    ensures Sane(f) && forall g :: g in files ==> Backs(f, g, files[g])
  {
    hide H.Inv, Backs, Sane;
  }

  lemma ServedPins(f: Flat, fd: int, h: H.HeapFile, req: Request, pid: PageId)
    requires Reaches(f, fd, h, req)
    ensures H.PagesOk(h)
    ensures Served(f, fd, h, req).size == f.size
    ensures PinCount(Served(f, fd, h, req), pid)
         == PinCount(f, pid) + if Keeps(h, req) && pid == PageId(fd, Target(h, req)) then 1 else 0
  {
    CallsAre(f, fd, h, req);
    hide Served, PinCount, Before, Rewritten, Keeps, Target, CounterAfter, Reaches;
    PinsMoved(f, PageId(fd, Target(h, req)), Keeps(h, req), Rewritten(h, req, Before(f, fd, h, req)),
              CounterAfter(f, fd, h, req), pid);
  }

  /** A request that gets its frame, or does not need one: its calls are well behaved, the pool goes on backing
      every file, and no pin moves but the one the request keeps. */
  lemma EntryServed(f: Flat, files: Files, e: Entry)
    requires System(f, files) && EntryOk(files, e) && !EntryStarved(f, files, e)
    ensures WellBehaved(f, CallsOf(f, files, e))
    ensures
      var f' := FlatAfter(f, CallsOf(f, files, e));
      && System(f', FilesAfter(f, files, e)) && f'.size == f.size
      && forall pid :: PinCount(f', pid) == PinCount(f, pid) + if KeepsPin(f, files, e, pid) then 1 else 0
  {
    EntryReaches(f, files, e);
    var fd, h, req := e.fd, files[e.fd], e.req;
    if Sent(files, e) {
      EntryParts(f, files, e);
      hide *;
      RequestServed(f, fd, h, req);
      ServedSystem(f, files, fd, req);
      forall pid ensures f.size == Served(f, fd, h, req).size
                 ensures PinCount(Served(f, fd, h, req), pid)
                      == PinCount(f, pid) + if KeepsPin(f, files, e, pid) then 1 else 0 {
        ServedPins(f, fd, h, req, pid);
      }
      ServedPins(f, fd, h, req, PageId(0, 0));
    } else {
      NothingSent(f, files, e);
      hide *;
      NoCalls(f);
    }
  }

  lemma EntryParts(f: Flat, files: Files, e: Entry)
    requires System(f, files) && EntryOk(files, e) && Sent(files, e) && !EntryStarved(f, files, e)
    ensures e.fd in files && Reaches(f, e.fd, files[e.fd], e.req) && !Starved(f, e.fd, files[e.fd], e.req)
    ensures H.Inv(files[e.fd]) && RequestOk(files[e.fd], e.req) && H.PagesOk(files[e.fd])
    ensures CallsOf(f, files, e) == Calls(f, e.fd, files[e.fd], e.req)
    ensures FilesAfter(f, files, e) == files[e.fd := FileAfter(files[e.fd], e.req)]
    ensures forall pid :: KeepsPin(f, files, e, pid)
                     <==> Keeps(files[e.fd], e.req) && pid == PageId(e.fd, Target(files[e.fd], e.req))
  {
    hide *;
    EntryReaches(f, files, e);
    FileOfEntry(files, e);
    ReachesParts(f, e.fd, files[e.fd], e.req);
    CallsOfSent(f, files, e);
    KeepsOfSent(f, files, e);
  }

  lemma FileOfEntry(files: Files, e: Entry)
    requires EntryOk(files, e)
    ensures e.fd in files
  {
  }

  lemma CallsOfSent(f: Flat, files: Files, e: Entry)
    requires System(f, files) && EntryOk(files, e) && Sent(files, e) && !EntryStarved(f, files, e)
    ensures e.fd in files && Reaches(f, e.fd, files[e.fd], e.req) && !Starved(f, e.fd, files[e.fd], e.req)
    ensures H.Inv(files[e.fd]) && RequestOk(files[e.fd], e.req)
    ensures CallsOf(f, files, e) == Calls(f, e.fd, files[e.fd], e.req)
    ensures FilesAfter(f, files, e) == files[e.fd := FileAfter(files[e.fd], e.req)]
  {
    hide Reaches, System, Calls, H.Inv, FileAfter, Starved, RequestOk, Narrow, Refused;
    EntryReaches(f, files, e);
  }

  lemma KeepsOfSent(f: Flat, files: Files, e: Entry)
    requires System(f, files) && EntryOk(files, e) && Sent(files, e)
    ensures e.fd in files && H.PagesOk(files[e.fd])
    ensures forall pid :: KeepsPin(f, files, e, pid)
                     <==> Keeps(files[e.fd], e.req) && pid == PageId(e.fd, Target(files[e.fd], e.req))
  {
    hide Reaches, System, Keeps, Target, H.Inv, RequestOk, Narrow, Refused;
    EntryReaches(f, files, e);
    ReachesParts(f, e.fd, files[e.fd], e.req);
  }

  lemma NothingSent(f: Flat, files: Files, e: Entry)
    requires System(f, files) && EntryOk(files, e) && !Sent(files, e)
    ensures CallsOf(f, files, e) == [] && FilesAfter(f, files, e) == files
    ensures forall pid :: !KeepsPin(f, files, e, pid)
  {
    EntryReaches(f, files, e);
    RefusedStays(files[e.fd], e.req);
    hide H.Inv, Backs, Sane, FileAfter;
  }

  /** A file that create_file made and the handle opened is backed by any pool with its counter set. */
  lemma NewFileBacked(f: Flat, files: Files, fd: int, recordSize: nat)
    requires System(f, files) && fd !in files && 0 <= fd < MAX_FD && Next(f.counter, fd) == 1
    requires 1 <= recordSize <= PageLayout.MAX_RECORD_SIZE && forall pid :: pid in f.owed ==> pid.fd != fd
    ensures System(f, files[fd := H.Created(recordSize, PageLayout.Capacity(recordSize))])
  {
    PageLayout.CapacityFits(recordSize);
    H.CreatedOk(recordSize, PageLayout.Capacity(recordSize));
    CreatedBacked(f, fd, recordSize);
    hide Backs, H.Inv, Sane, PageLayout.Capacity, H.Created;
  }

  lemma CreatedBacked(f: Flat, fd: int, recordSize: nat)
    requires Next(f.counter, fd) == 1 && forall pid :: pid in f.owed ==> pid.fd != fd
    requires PageLayout.FitsPage(recordSize, PageLayout.Capacity(recordSize))
    ensures Backs(f, fd, H.Created(recordSize, PageLayout.Capacity(recordSize)))
  {
    hide PageLayout.Decode;
    assert PageLayout.Capacity(recordSize) < 0x8000_0000;
  }

  // Runs.

  ghost function PoolNext(f: Flat, files: Files, e: Entry): Flat
    requires System(f, files) && EntryOk(files, e)
  {
    FlatAfter(f, CallsOf(f, files, e))
  }

  lemma NextSystem(f: Flat, files: Files, e: Entry)
    requires System(f, files) && EntryOk(files, e) && !EntryStarved(f, files, e)
    ensures System(PoolNext(f, files, e), FilesAfter(f, files, e))
  {
    EntryServed(f, files, e);
    hide System, FlatAfter, CallsOf, FilesAfter, EntryStarved, EntryOk, PinCount, KeepsPin;
  }

  /** Every request of the run is a proper one and gets its frame. */
  ghost predicate Fed(f: Flat, files: Files, es: seq<Entry>)
    requires System(f, files)
    decreases |es|
  {
    if es == [] then true
    else if !EntryOk(files, es[0]) || EntryStarved(f, files, es[0]) then false
    else
      NextSystem(f, files, es[0]);
      Fed(PoolNext(f, files, es[0]), FilesAfter(f, files, es[0]), es[1..])
  }

  ghost function RunCalls(f: Flat, files: Files, es: seq<Entry>): seq<Call>
    requires System(f, files) && Fed(f, files, es)
    decreases |es|
  {
    if es == [] then []
    else
      NextSystem(f, files, es[0]);
      CallsOf(f, files, es[0]) + RunCalls(PoolNext(f, files, es[0]), FilesAfter(f, files, es[0]), es[1..])
  }

  ghost function RunFiles(f: Flat, files: Files, es: seq<Entry>): Files
    requires System(f, files) && Fed(f, files, es)
    decreases |es|
  {
    if es == [] then files
    else
      NextSystem(f, files, es[0]);
      RunFiles(PoolNext(f, files, es[0]), FilesAfter(f, files, es[0]), es[1..])
  }

  /** How many requests of the run leave a pin on the page. */
  ghost function KeptOn(f: Flat, files: Files, es: seq<Entry>, pid: PageId): nat
    requires System(f, files) && Fed(f, files, es)
    decreases |es|
  {
    if es == [] then 0
    else
      NextSystem(f, files, es[0]);
      (if KeepsPin(f, files, es[0], pid) then 1 else 0)
      + KeptOn(PoolNext(f, files, es[0]), FilesAfter(f, files, es[0]), es[1..], pid)
  }

  /** Every run: the calls are well behaved, the pool ends up backing the files the operations lead to, and
      each page has gained the pins that the run left on it. */
  lemma {:induction false} RunServed(f: Flat, files: Files, es: seq<Entry>)
    requires System(f, files) && Fed(f, files, es)
    ensures WellBehaved(f, RunCalls(f, files, es))
    ensures
      var f' := FlatAfter(f, RunCalls(f, files, es));
      && System(f', RunFiles(f, files, es)) && f'.size == f.size
      && forall pid :: PinCount(f', pid) == PinCount(f, pid) + KeptOn(f, files, es, pid)
    decreases |es|
  {
    hide System, WellBehaved, FlatAfter, CallsOf, FilesAfter, EntryStarved, EntryOk, PinCount, KeepsPin;
    if es == [] {
      NoCalls(f);
    } else {
      EntryServed(f, files, es[0]);
      var f1, files1 := PoolNext(f, files, es[0]), FilesAfter(f, files, es[0]);
      RunServed(f1, files1, es[1..]);
      CallsConcat(f, CallsOf(f, files, es[0]), RunCalls(f1, files1, es[1..]));
    }
  }

  lemma PoolIsSystem(r: Run, files: Files)
    requires Good(r) && AllBacked(Seen(r), files)
    ensures System(Seen(r), files)
  {
    PoolIsSane(r.pool, r.owed);
    hide Inv, AllBacked, Sane, FlatOf;
  }

  /** Every request of a run over a real pool is a proper one and gets its frame. */
  ghost predicate PoolFed(r: Run, files: Files, es: seq<Entry>)
    requires Good(r) && AllBacked(Seen(r), files)
  {
    PoolIsSystem(r, files);
    Fed(Seen(r), files, es)
  }

  /** On the real pool: it stays in order, answers as the flat map, and goes on backing the files. */
  lemma PoolServesFiles(r: Run, files: Files, es: seq<Entry>)
    requires Good(r) && AllBacked(Seen(r), files) && PoolFed(r, files, es)
    ensures System(Seen(r), files) && Fed(Seen(r), files, es)
    ensures WellBehaved(Seen(r), RunCalls(Seen(r), files, es))
    ensures
      var calls := RunCalls(Seen(r), files, es);
      var e := After(r, calls);
      && Good(e) && AllBacked(Seen(e), RunFiles(Seen(r), files, es)) && r.answers <= e.answers
      && FlatAnswers(Seen(r), calls, e.answers[|r.answers|..])
      && forall pid :: PinCount(Seen(e), pid) == PinCount(Seen(r), pid) + KeptOn(Seen(r), files, es, pid)
  {
    FedIs(r, files, es);
    hide *;
    RunServed(Seen(r), files, es);
    RunRefinesFlatMap(r, RunCalls(Seen(r), files, es));
    SystemBacks(FlatAfter(Seen(r), RunCalls(Seen(r), files, es)), RunFiles(Seen(r), files, es));
  }

  lemma FedIs(r: Run, files: Files, es: seq<Entry>)
    requires Good(r) && AllBacked(Seen(r), files) && PoolFed(r, files, es)
    ensures System(Seen(r), files) && Fed(Seen(r), files, es)
  {
    PoolIsSystem(r, files);
    hide AllBacked, System, Fed, Good;
  }

  lemma SystemBacks(f: Flat, files: Files)
    requires System(f, files)
    ensures AllBacked(f, files)
  {
    hide AllBacked, Sane;
  }

  // Every file is the finite map of its own operations.

  /** The operations of the run on one file. */
  function OpsOf(es: seq<Entry>, fd: int): seq<H.Op> {
    if es == [] then []
    else (if es[0].fd == fd && es[0].req.Change? then [es[0].req.op] else []) + OpsOf(es[1..], fd)
  }

  predicate OpsOk(h: H.HeapFile, ops: seq<H.Op>) {
    forall op :: op in ops ==> H.OpOk(h.recordSize, h.capacity, op)
  }

  lemma FirstOp(h: H.HeapFile, op: H.Op, rest: seq<H.Op>)
    requires H.Inv(h) && H.OpOk(h.recordSize, h.capacity, op) && OpsOk(H.Perform(h, op).0, rest)
    ensures H.Inv(H.Perform(h, op).0) && OpsOk(h, [op] + rest)
    ensures H.RunOps(h, [op] + rest).0 == H.RunOps(H.Perform(h, op).0, rest).0
  {
    H.PerformRefines(h, op);
    assert ([op] + rest)[1..] == rest;
    hide H.Inv, H.Perform, H.OpOk, H.Contents;
  }

  /** What one request of a run does to one file. */
  lemma FileOfNext(f: Flat, files: Files, e: Entry, fd: int)
    requires System(f, files) && EntryOk(files, e) && fd in files
    ensures H.Inv(files[fd]) && fd in FilesAfter(f, files, e)
    ensures
      var h, h' := files[fd], FilesAfter(f, files, e)[fd];
      if e.fd == fd && e.req.Change? then H.OpOk(h.recordSize, h.capacity, e.req.op) && h' == H.Perform(h, e.req.op).0
      else h' == h
  {
    hide H.Inv, Backs, Sane, H.Perform;
  }

  /** Whatever the other files do, each file ends up as its own operations leave it; by
      HeapFile.RunRefinesMap it is a finite map throughout. */
  lemma {:induction false} FileRunsAlone(f: Flat, files: Files, es: seq<Entry>, fd: int)
    requires System(f, files) && Fed(f, files, es) && fd in files
    ensures H.Inv(files[fd]) && OpsOk(files[fd], OpsOf(es, fd)) && fd in RunFiles(f, files, es)
    ensures RunFiles(f, files, es)[fd] == H.RunOps(files[fd], OpsOf(es, fd)).0
    decreases |es|
  {
    hide H.Inv, H.Perform, System, EntryOk, EntryStarved, FilesAfter, PoolNext, OpsOk;
    if es == [] {
      NoOps(f, files, fd);
    } else {
      var f1, files1, rest := PoolNext(f, files, es[0]), FilesAfter(f, files, es[0]), OpsOf(es[1..], fd);
      NextSystem(f, files, es[0]);
      FileOfNext(f, files, es[0], fd);
      FileRunsAlone(f1, files1, es[1..], fd);
      hide H.RunOps;
      if es[0].fd == fd && es[0].req.Change? {
        FirstOp(files[fd], es[0].req.op, rest);
      } else {
        assert [] + rest == rest;
      }
    }
  }

  lemma NoOps(f: Flat, files: Files, fd: int)
    requires System(f, files) && fd in files
    ensures H.Inv(files[fd]) && OpsOk(files[fd], []) && H.RunOps(files[fd], []).0 == files[fd]
  {
    hide H.Inv, Backs, Sane;
  }

  // Which runs give every pin back.

  /** No request of the run keeps a pin. */
  ghost predicate AllGiveBack(f: Flat, files: Files, es: seq<Entry>)
    requires System(f, files) && Fed(f, files, es)
    decreases |es|
  {
    if es == [] then true
    else
      NextSystem(f, files, es[0]);
      && (forall pid :: !KeepsPin(f, files, es[0], pid))
      && AllGiveBack(PoolNext(f, files, es[0]), FilesAfter(f, files, es[0]), es[1..])
  }

  lemma {:induction false} NothingKept(f: Flat, files: Files, es: seq<Entry>, pid: PageId)
    requires System(f, files) && Fed(f, files, es) && AllGiveBack(f, files, es)
    ensures KeptOn(f, files, es, pid) == 0
    decreases |es|
  {
    hide System, EntryStarved, EntryOk, KeepsPin, PoolNext, FilesAfter;
    if es == [] {
    } else {
      NextSystem(f, files, es[0]);
      NothingKept(PoolNext(f, files, es[0]), FilesAfter(f, files, es[0]), es[1..], pid);
    }
  }

  lemma {:induction false} SomethingKept(f: Flat, files: Files, es: seq<Entry>) returns (pid: PageId)
    requires System(f, files) && Fed(f, files, es) && !AllGiveBack(f, files, es)
    ensures KeptOn(f, files, es, pid) > 0
    decreases |es|
  {
    hide System, EntryStarved, EntryOk, KeepsPin, PoolNext, FilesAfter;
    NextSystem(f, files, es[0]);
    if p :| KeepsPin(f, files, es[0], p) {
      pid := p;
    } else {
      pid := SomethingKept(PoolNext(f, files, es[0]), FilesAfter(f, files, es[0]), es[1..]);
    }
  }

  lemma SamePinsIff(f: Flat, f': Flat)
    requires Sane(f) && Sane(f')
    ensures f'.pins == f.pins <==> forall pid :: PinCount(f', pid) == PinCount(f, pid)
  {
    if forall pid :: PinCount(f', pid) == PinCount(f, pid) {
      forall pid ensures pid in f.pins <==> pid in f'.pins {
        assert PinCount(f', pid) == PinCount(f, pid);
      }
      forall pid | pid in f.pins ensures f'.pins[pid] == f.pins[pid] {
        assert PinCount(f', pid) == PinCount(f, pid);
      }
    }
  }

  /** After a run the pins are as before if and only if no request was a look-up, or a deletion or update of a
      record that is not there. */
  lemma PinsRestoredIff(f: Flat, files: Files, es: seq<Entry>)
    requires System(f, files) && Fed(f, files, es)
    ensures FlatAfter(f, RunCalls(f, files, es)).pins == f.pins <==> AllGiveBack(f, files, es)
  {
    hide *;
    RunServed(f, files, es);
    var f' := FlatAfter(f, RunCalls(f, files, es));
    FilesBacked(f, files);
    FilesBacked(f', RunFiles(f, files, es));
    SamePinsIff(f, f');
    if AllGiveBack(f, files, es) {
      forall pid ensures PinCount(f', pid) == PinCount(f, pid) {
        NothingKept(f, files, es, pid);
      }
    } else {
      var pid := SomethingKept(f, files, es);
      assert PinCount(f', pid) != PinCount(f, pid);
    }
  }

  // Look-ups use the pool up.

  ghost function Lookups(fd: int, pages: seq<int>): (es: seq<Entry>)
    ensures |es| == |pages|
  {
    if pages == [] then [] else [Entry(fd, Lookup(H.Rid(pages[0], 0)))] + Lookups(fd, pages[1..])
  }

  lemma LookupNext(f: Flat, files: Files, fd: int, p: int)
    requires System(f, files) && fd in files && p in files[fd].pages && Narrow(files[fd])
    requires PageId(fd, p) !in f.pins && !Full(f)
    ensures
      var e := Entry(fd, Lookup(H.Rid(p, 0)));
      && EntryOk(files, e) && !EntryStarved(f, files, e) && FilesAfter(f, files, e) == files
      && PoolNext(f, files, e).pins == f.pins[PageId(fd, p) := 1] && PoolNext(f, files, e).size == f.size
  {
    var h, req := files[fd], Lookup(H.Rid(p, 0));
    var e := Entry(fd, req);
    LookupOk(f, files, fd, p);
    EntryParts(f, files, e);
    RequestServed(f, fd, h, req);
    CallsAre(f, fd, h, req);
    hide H.Inv, Backs, Sane, Reaches, FlatAfter, Before, Rewritten, CallsOf, Calls, Served, System, FilesAfter, EntryOk,
         EntryStarved, RequestOk, Narrow;
    assert files[fd := h] == files;
  }

  lemma LookupOk(f: Flat, files: Files, fd: int, p: int)
    requires System(f, files) && fd in files && p in files[fd].pages && Narrow(files[fd]) && !Full(f)
    ensures
      var e := Entry(fd, Lookup(H.Rid(p, 0)));
      && EntryOk(files, e) && Sent(files, e) && !EntryStarved(f, files, e)
  {
    H.DataPages(files[fd]);
    hide H.Inv, Backs, Sane, Full;
  }

  ghost function PageIds(fd: int, pages: seq<int>): set<PageId> {
    set p | p in pages :: PageId(fd, p)
  }

  lemma PagesOf(fd: int, pages: seq<int>)
    requires pages != []
    ensures PageIds(fd, pages) == {PageId(fd, pages[0])} + PageIds(fd, pages[1..])
  {
  }

  lemma RestUnpinned(f: Flat, fd: int, pages: seq<int>)
    requires pages != [] && PageId(fd, pages[0]) !in f.pins
    requires forall i :: 0 <= i < |pages| ==> PageId(fd, pages[i]) !in f.pins
    requires forall i, j :: 0 <= i < j < |pages| ==> pages[i] != pages[j]
    ensures
      var pins := f.pins[PageId(fd, pages[0]) := 1];
      && |pins| == |f.pins| + 1 && forall i :: 0 <= i < |pages[1..]| ==> PageId(fd, pages[1..][i]) !in pins
  {
  }

  lemma LookupFirst(f: Flat, files: Files, fd: int, pages: seq<int>)
    requires System(f, files) && fd in files && Narrow(files[fd]) && pages != []
    requires pages[0] in files[fd].pages && PageId(fd, pages[0]) !in f.pins && !Full(f)
    ensures
      var e := Entry(fd, Lookup(H.Rid(pages[0], 0)));
      && EntryOk(files, e) && !EntryStarved(f, files, e) && FilesAfter(f, files, e) == files
      && PoolNext(f, files, e).pins == f.pins[PageId(fd, pages[0]) := 1] && PoolNext(f, files, e).size == f.size
      && Lookups(fd, pages) == [e] + Lookups(fd, pages[1..])
  {
    LookupNext(f, files, fd, pages[0]);
    hide *;
    LookupsUnfold(fd, pages);
  }

  lemma LookupsUnfold(fd: int, pages: seq<int>)
    requires pages != []
    ensures Lookups(fd, pages) == [Entry(fd, Lookup(H.Rid(pages[0], 0)))] + Lookups(fd, pages[1..])
  {
  }

  /** One request in front of a run. */
  lemma FirstOfRun(f: Flat, files: Files, e: Entry, rest: seq<Entry>)
    requires System(f, files) && EntryOk(files, e) && !EntryStarved(f, files, e)
    ensures System(PoolNext(f, files, e), FilesAfter(f, files, e))
    ensures Fed(f, files, [e] + rest) <==> Fed(PoolNext(f, files, e), FilesAfter(f, files, e), rest)
    ensures Fed(f, files, [e] + rest) ==>
              RunCalls(f, files, [e] + rest)
              == CallsOf(f, files, e) + RunCalls(PoolNext(f, files, e), FilesAfter(f, files, e), rest)
    ensures Fed(f, files, [e] + rest) ==>
              RunFiles(f, files, [e] + rest) == RunFiles(PoolNext(f, files, e), FilesAfter(f, files, e), rest)
  {
    NextSystem(f, files, e);
    hide System, EntryStarved, EntryOk, CallsOf, PoolNext, FilesAfter;
    assert ([e] + rest)[1..] == rest;
  }

  lemma PoolNextIs(f: Flat, files: Files, e: Entry)
    requires System(f, files) && EntryOk(files, e)
    ensures PoolNext(f, files, e) == FlatAfter(f, CallsOf(f, files, e))
  {
  }

  lemma LookupFirstRuns(f: Flat, files: Files, fd: int, pages: seq<int>)
    requires System(f, files) && fd in files && Narrow(files[fd]) && pages != []
    requires pages[0] in files[fd].pages && PageId(fd, pages[0]) !in f.pins && !Full(f)
    requires
      var e := Entry(fd, Lookup(H.Rid(pages[0], 0)));
      && EntryOk(files, e) && !EntryStarved(f, files, e) && System(PoolNext(f, files, e), files)
      && Fed(PoolNext(f, files, e), files, Lookups(fd, pages[1..]))
    ensures Fed(f, files, Lookups(fd, pages))
    ensures
      var f1 := PoolNext(f, files, Entry(fd, Lookup(H.Rid(pages[0], 0))));
      && RunFiles(f, files, Lookups(fd, pages)) == RunFiles(f1, files, Lookups(fd, pages[1..]))
      && FlatAfter(f, RunCalls(f, files, Lookups(fd, pages)))
         == FlatAfter(f1, RunCalls(f1, files, Lookups(fd, pages[1..])))
  {
    hide *;
    var e := Entry(fd, Lookup(H.Rid(pages[0], 0)));
    LookupFirst(f, files, fd, pages);
    FirstOfRun(f, files, e, Lookups(fd, pages[1..]));
    PoolNextIs(f, files, e);
    CallsConcat(f, CallsOf(f, files, e), RunCalls(PoolNext(f, files, e), files, Lookups(fd, pages[1..])));
  }

  /** Looking up one record on each of as many pages as frames are unpinned leaves no frame to be had: after
      that every request for another page, of any file, gets a null pointer. */
  lemma {:induction false} LookupsFillPool(f: Flat, files: Files, fd: int, pages: seq<int>)
    requires System(f, files) && fd in files && Narrow(files[fd])
    requires forall i :: 0 <= i < |pages| ==> pages[i] in files[fd].pages && PageId(fd, pages[i]) !in f.pins
    requires forall i, j :: 0 <= i < j < |pages| ==> pages[i] != pages[j]
    requires |f.pins| + |pages| == f.size
    ensures Fed(f, files, Lookups(fd, pages)) && RunFiles(f, files, Lookups(fd, pages)) == files
    ensures
      var f' := FlatAfter(f, RunCalls(f, files, Lookups(fd, pages)));
      && Full(f') && f'.pins.Keys == f.pins.Keys + PageIds(fd, pages)
    decreases |pages|
  {
    hide *;
    FullIs(f);
    if pages == [] {
      NoRequests(f, files, fd);
    } else {
      var e := Entry(fd, Lookup(H.Rid(pages[0], 0)));
      LookupFirst(f, files, fd, pages);
      NextSystem(f, files, e);
      RestUnpinned(f, fd, pages);
      LookupsFillPool(PoolNext(f, files, e), files, fd, pages[1..]);
      LookupFirstRuns(f, files, fd, pages);
      PagesOf(fd, pages);
    }
  }

  lemma FullIs(f: Flat)
    ensures Full(f) <==> |f.pins| == f.size
  {
  }

  lemma NoRequests(f: Flat, files: Files, fd: int)
    requires System(f, files)
    ensures Fed(f, files, Lookups(fd, [])) && RunFiles(f, files, Lookups(fd, [])) == files
    ensures FlatAfter(f, RunCalls(f, files, Lookups(fd, []))) == f
    ensures PageIds(fd, []) == {}
  {
  }
}
