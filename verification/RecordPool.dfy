/** The record file on top of the buffer pool: which calls each operation makes, that a pool serves them,
    and which pins are never given back
    (src/record/rm_file_handle.cpp, src/record/rm_scan.cpp). */
module RecordPool {
  import opened Wrappers
  import opened Page
  import opened Pool
  import opened PoolRuns
  import opened PoolFlat
  import opened PageLayout
  import H = HeapFile

  // The file behind the pages.

  function ShapeOf(h: H.HeapFile): Shape {
    Shape(h.recordSize, h.capacity)
  }

  /** The pool's pages of file `fd` are, byte for byte, the typed pages of `h`; the pool hands out the page
      number the file expects; and no write to the file is unreported. */
  ghost predicate Backs(f: Flat, fd: int, h: H.HeapFile) {
    && ShapeOk(ShapeOf(h)) && Next(f.counter, fd) == h.counter
    && (forall p :: p in h.pages ==>
         PageId(fd, p) in f.pages && Decode(f.pages[PageId(fd, p)], ShapeOf(h)) == h.pages[p])
    && (forall pid :: pid in f.owed ==> pid.fd != fd)
  }

  /** Page numbers stay within a 32-bit int. */
  predicate Narrow(h: H.HeapFile) {
    h.counter < 0x8000_0000
  }

  /** Pins are counted on pages that were handed out. */
  ghost predicate Sane(f: Flat) {
    forall pid :: pid in f.pins ==> f.pins[pid] > 0 && pid.pageNo < Next(f.counter, pid.fd)
  }

  lemma PoolIsSane(s: State, owed: set<PageId>)
    requires Inv(s)
    ensures Sane(FlatOf(s, owed))
  {
    hide Store;
  }

  // Requests.

  /** get_record or is_record; one page of RmScan::next; an operation of the file. */
  datatype Request = Lookup(rid: H.Rid) | Visit(pageNo: int) | Change(op: H.Op)

  predicate RequestOk(h: H.HeapFile, req: Request) {
    match req
    case Lookup(rid) => H.ValidSlot(h.capacity, rid)
    case Visit(p) => H.FIRST_RECORD_PAGE <= p
    case Change(op) => H.OpOk(h.recordSize, h.capacity, op)
  }

  function FileAfter(h: H.HeapFile, req: Request): H.HeapFile
    requires H.Inv(h) && RequestOk(h, req)
  {
    if req.Change? then H.Perform(h, req.op).0 else h
  }

  predicate Inserts(req: Request) {
    req.Change? && req.op.InsertOp?
  }

  /** The page number a request names; an insertion names none. */
  function Named(req: Request): Option<int> {
    match req
    case Lookup(rid) => Some(rid.pageNo)
    case Visit(p) => Some(p)
    case Change(InsertOp(_)) => None
    case Change(DeleteOp(rid)) => Some(rid.pageNo)
    case Change(UpdateOp(rid, _)) => Some(rid.pageNo)
  }

  /** PageNotExistError is thrown before the pool is called. */
  predicate Refused(h: H.HeapFile, req: Request) {
    Named(req).Some? && Named(req).value >= h.numPages
  }

  /** create_page_handle makes a page when none has room. */
  predicate Creates(h: H.HeapFile, req: Request) {
    Inserts(req) && h.firstFree == H.NO_PAGE
  }

  /** The page a request works on. */
  function Target(h: H.HeapFile, req: Request): int {
    if Inserts(req) then H.CreatePage(h).1 else Named(req).value
  }

  /** The file once the page handle is there. */
  function Opened(h: H.HeapFile, req: Request): H.HeapFile {
    if Creates(h, req) then H.CreateNewPage(h).0 else h
  }

  /** The bytes are those of the page that the request works on. */
  ghost predicate Shows(h: H.HeapFile, req: Request, b: PageData) {
    && H.Inv(h) && ShapeOk(ShapeOf(h)) && Narrow(h) && RequestOk(h, req) && !Refused(h, req)
    && Target(h, req) in Opened(h, req).pages
    && Decode(b, ShapeOf(h)) == Opened(h, req).pages[Target(h, req)]
  }

  lemma TargetInFile(h: H.HeapFile, req: Request)
    requires H.Inv(h) && RequestOk(h, req) && !Refused(h, req)
    ensures Target(h, req) in Opened(h, req).pages
    ensures Creates(h, req) ==> Target(h, req) == h.counter
    ensures !Creates(h, req) ==> Opened(h, req) == h
  {
    if Inserts(req) {
      H.InsertHasRoom(h);
    }
  }

  lemma OpenedOk(h: H.HeapFile, req: Request)
    requires H.Inv(h) && RequestOk(h, req)
    ensures
      var h1 := Opened(h, req);
      && H.Inv(h1) && h1.capacity == h.capacity && h1.recordSize == h.recordSize
  {
    if Inserts(req) {
      H.InsertHasRoom(h);
    }
  }

  lemma HeadNarrow(h: H.HeapFile)
    requires H.Inv(h) && Narrow(h)
    ensures -1 <= h.firstFree < 0x8000_0000
  {
    var chain :| H.ChainOk(h, chain);
    if chain != [] {
      assert chain[0] in h.pages;
    }
  }

  /** The page's own numbers bound what the request writes to it. */
  lemma PageFits(h: H.HeapFile, req: Request, b: PageData)
    requires Shows(h, req, b)
    ensures 0 <= NumRecords(b) <= h.capacity
    ensures forall i :: 0 <= i < h.capacity && BitAt(b, ShapeOf(h), i) ==> NumRecords(b) > 0
    ensures Inserts(req) ==> NumRecords(b) < h.capacity && FirstFree(h, b) < h.capacity
  {
    OpenedOk(h, req);
    var page := Opened(h, req).pages[Target(h, req)];
    H.CountAll(page.bitmap);
    assert forall i :: 0 <= i < h.capacity ==> page.bitmap[i] == BitAt(b, ShapeOf(h), i);
    if Inserts(req) {
      H.InsertHasRoom(h);
    }
  }

  /** Bitmap::first_bit on the page's bytes. */
  function FirstFree(h: H.HeapFile, b: PageData): nat
    requires ShapeOk(ShapeOf(h))
  {
    H.NextBit(false, Decode(b, ShapeOf(h)).bitmap, -1)
  }

  // Calls.

  /** What a request makes of its page: none if it leaves the bytes alone. */
  ghost function Rewritten(h: H.HeapFile, req: Request, b: PageData): (r: Option<PageData>)
    requires Shows(h, req, b)
  {
    PageFits(h, req, b);
    HeadNarrow(h);
    var sh := ShapeOf(h);
    match req
    case Change(InsertOp(buf)) => Some(FillBytes(b, sh, FirstFree(h, b), buf[..h.recordSize]))
    case Change(DeleteOp(rid)) =>
      if BitAt(b, sh, rid.slotNo) then Some(ClearBytes(b, sh, rid.slotNo, h.firstFree)) else None
    case Change(UpdateOp(rid, buf)) =>
      if BitAt(b, sh, rid.slotNo) then Some(WriteSlot(b, sh, rid.slotNo, buf[..h.recordSize])) else None
    case _ => None
  }

  /** The calls once the page's bytes are there. A page that is rewritten is unpinned as dirty; a scan unpins
      its page as clean; the other requests return without unpinning. */
  ghost function Following(fd: int, h: H.HeapFile, req: Request, b: PageData): seq<Call>
    requires Shows(h, req, b)
  {
    var pid := PageId(fd, Target(h, req));
    match Rewritten(h, req, b)
    case Some(b') => [Overwrite(pid, b'), UnpinPage(pid, true)]
    case None => if req.Visit? then [UnpinPage(pid, false)] else []
  }

  /** A request that reaches the pool. */
  ghost predicate Reaches(f: Flat, fd: int, h: H.HeapFile, req: Request) {
    && 0 <= fd < MAX_FD && Sane(f) && Backs(f, fd, h) && H.Inv(h) && Narrow(h)
    && RequestOk(h, req) && !Refused(h, req)
  }

  /** The bytes a new page is given. */
  function NewBytes(h: H.HeapFile): PageData
    requires ShapeOk(ShapeOf(h))
  {
    InitBytes(Zeros(PAGE_SIZE), ShapeOf(h))
  }

  lemma BytesShow(f: Flat, fd: int, h: H.HeapFile, req: Request)
    requires Reaches(f, fd, h, req)
    ensures Creates(h, req) ==> Shows(h, req, NewBytes(h))
    ensures !Creates(h, req) ==>
              PageId(fd, Target(h, req)) in f.pages && Shows(h, req, f.pages[PageId(fd, Target(h, req))])
  {
    TargetInFile(h, req);
    NewPageRefines(ShapeOf(h), h);
    hide Decode, InitBytes;
  }

  lemma ReachesParts(f: Flat, fd: int, h: H.HeapFile, req: Request)
    requires Reaches(f, fd, h, req)
    ensures 0 <= fd < MAX_FD && Sane(f) && Backs(f, fd, h) && H.Inv(h) && RequestOk(h, req) && H.PagesOk(h)
    ensures ShapeOk(ShapeOf(h))
  {
  }

  /** The bytes a request finds in its page. */
  ghost function Before(f: Flat, fd: int, h: H.HeapFile, req: Request): (b: PageData)
    requires Reaches(f, fd, h, req)
    ensures Shows(h, req, b)
  {
    BytesShow(f, fd, h, req);
    if Creates(h, req) then NewBytes(h) else f.pages[PageId(fd, Target(h, req))]
  }

  /** The calls that get the page. */
  function Opening(fd: int, h: H.HeapFile, req: Request): seq<Call>
    requires ShapeOk(ShapeOf(h)) && RequestOk(h, req)
  {
    var pid := PageId(fd, Target(h, req));
    if Creates(h, req) then [NewPage(fd), Overwrite(pid, NewBytes(h))] else [FetchPage(pid)]
  }

  /** The pool calls of a request. */
  ghost function Calls(f: Flat, fd: int, h: H.HeapFile, req: Request): seq<Call>
    requires Reaches(f, fd, h, req)
  {
    Opening(fd, h, req) + Following(fd, h, req, Before(f, fd, h, req))
  }

  // What the calls do to the typed file.

  lemma InsertChange(h: H.HeapFile, req: Request, b: PageData)
    requires Shows(h, req, b) && Inserts(req)
    ensures
      var h1, h', p := Opened(h, req), FileAfter(h, req), Target(h, req);
      && Rewritten(h, req, b).Some?
      && h'.pages == h1.pages[p := Decode(Rewritten(h, req, b).value, ShapeOf(h))]
      && h'.counter == h1.counter && h'.capacity == h.capacity && h'.recordSize == h.recordSize
  {
    PageFits(h, req, b);
    H.InsertHasRoom(h);
    FillBytesRefines(b, ShapeOf(h), FirstFree(h, b), req.op.buf[..h.recordSize]);
    hide H.Inv, Decode, FillBytes, NumRecords, ShapeOk, H.NextBit, H.FillSlot, Narrow;
  }

  lemma OtherChange(h: H.HeapFile, req: Request, b: PageData)
    requires Shows(h, req, b) && !Inserts(req)
    ensures
      var h', p := FileAfter(h, req), Target(h, req);
      && (Rewritten(h, req, b) == None ==> h' == h)
      && (Rewritten(h, req, b).Some? ==> h'.pages == h.pages[p := Decode(Rewritten(h, req, b).value, ShapeOf(h))])
      && h'.counter == h.counter && h'.capacity == h.capacity && h'.recordSize == h.recordSize
  {
    PageFits(h, req, b);
    HeadNarrow(h);
    var sh := ShapeOf(h);
    match req
    case Change(DeleteOp(rid)) =>
      assert Decode(b, sh).bitmap[rid.slotNo] == BitAt(b, sh, rid.slotNo);
      if BitAt(b, sh, rid.slotNo) {
        ClearBytesRefines(b, sh, rid.slotNo, h, rid.pageNo);
        hide Decode, ClearBytes, NumRecords, ShapeOk, BitAt;
      }
    case Change(UpdateOp(rid, buf)) =>
      assert Decode(b, sh).bitmap[rid.slotNo] == BitAt(b, sh, rid.slotNo);
      if BitAt(b, sh, rid.slotNo) {
        SlotWrites(b, sh, rid.slotNo, buf[..h.recordSize]);
        hide Decode, WriteSlot, NumRecords, ShapeOk, BitAt;
      }
    case _ =>
  }

  // Pins.

  /** One pin more. */
  function Pinned(pins: map<PageId, int>, pid: PageId): map<PageId, int> {
    pins[pid := if pid in pins then pins[pid] + 1 else 1]
  }

  /** No frame can be had for the page: the pool answers with a null pointer, which the file dereferences. */
  predicate Starved(f: Flat, fd: int, h: H.HeapFile, req: Request) {
    Full(f) && (Creates(h, req) || PageId(fd, Target(h, req)) !in f.pins)
  }

  /** get_record, is_record, and a deletion or update that finds no record return without unpinning. */
  ghost predicate Keeps(h: H.HeapFile, req: Request)
    requires H.PagesOk(h)
  {
    match req
    case Lookup(_) => true
    case Change(DeleteOp(rid)) => rid !in H.Contents(h)
    case Change(UpdateOp(rid, _)) => rid !in H.Contents(h)
    case _ => false
  }

  lemma KeepsIff(h: H.HeapFile, req: Request, b: PageData)
    requires Shows(h, req, b)
    ensures Keeps(h, req) <==> Rewritten(h, req, b) == None && !req.Visit?
  {
    match req
    case Change(DeleteOp(rid)) => SlotHolds(h, req, b, rid);
    case Change(UpdateOp(rid, buf)) => SlotHolds(h, req, b, rid);
    case _ =>
  }

  lemma SlotHolds(h: H.HeapFile, req: Request, b: PageData, rid: H.Rid)
    requires Shows(h, req, b) && Named(req) == Some(rid.pageNo) && 0 <= rid.slotNo < h.capacity
    ensures BitAt(b, ShapeOf(h), rid.slotNo) <==> rid in H.Contents(h)
  {
    H.ContentsAt(h);
    assert Decode(b, ShapeOf(h)).bitmap[rid.slotNo] == BitAt(b, ShapeOf(h), rid.slotNo);
  }

  // One request.

  lemma FetchOpens(f: Flat, pid: PageId)
    requires pid in f.pages && !(Full(f) && pid !in f.pins)
    ensures FlatAllowed(f, FetchPage(pid)) && FlatDisciplined(f, FetchPage(pid))
    ensures FlatNext(f, FetchPage(pid)) == f.(pins := Pinned(f.pins, pid))
  {
    hide Full;
  }

  lemma NewOpens(f: Flat, fd: int, b: PageData)
    requires 0 <= fd < MAX_FD && !Full(f)
    ensures
      var pid := PageId(fd, Next(f.counter, fd));
      var calls := [NewPage(fd), Overwrite(pid, b)];
      && WellBehaved(f, calls)
      && FlatAfter(f, calls)
         == Flat(f.pages[pid := b], f.pins[pid := 1], f.counter[fd := pid.pageNo + 1], f.owed + {pid}, f.size)
  {
    var pid := PageId(fd, Next(f.counter, fd));
    FirstCall(f, NewPage(fd), [Overwrite(pid, b)]);
    FirstCall(FlatNext(f, NewPage(fd)), Overwrite(pid, b), []);
    assert [Overwrite(pid, b)] + [] == [Overwrite(pid, b)];
    assert [NewPage(fd)] + [Overwrite(pid, b)] == [NewPage(fd), Overwrite(pid, b)];
    hide Full;
    assert f.pages[pid := Zeros(PAGE_SIZE)][pid := b] == f.pages[pid := b];
  }

  lemma Unpinned(pins: map<PageId, int>, counter: map<int, int>, full: bool, pid: PageId, isDirty: bool)
    requires pid in pins ==> pins[pid] > 0
    ensures PinsNext(Pinned(pins, pid), counter, full, UnpinPage(pid, isDirty)) == pins
  {
  }

  /** Writing a page and unpinning it as dirty gives the pin back and leaves nothing unreported. */
  lemma WriteCloses(f: Flat, pins: map<PageId, int>, pid: PageId, b: PageData)
    requires f.pins == Pinned(pins, pid) && (pid in pins ==> pins[pid] > 0)
    ensures WellBehaved(f, [Overwrite(pid, b), UnpinPage(pid, true)])
    ensures FlatAfter(f, [Overwrite(pid, b), UnpinPage(pid, true)])
         == f.(pages := f.pages[pid := b], pins := pins, owed := f.owed - {pid})
  {
    var f1 := FlatNext(f, Overwrite(pid, b));
    FirstCall(f, Overwrite(pid, b), [UnpinPage(pid, true)]);
    FirstCall(f1, UnpinPage(pid, true), []);
    assert [UnpinPage(pid, true)] + [] == [UnpinPage(pid, true)];
    assert [Overwrite(pid, b)] + [UnpinPage(pid, true)] == [Overwrite(pid, b), UnpinPage(pid, true)];
    Unpinned(pins, f1.counter, Full(f1), pid, true);
    hide Full, PinsNext;
    assert f.owed + {pid} - {pid} == f.owed - {pid};
  }

  /** Unpinning a page that was only read gives the pin back. */
  lemma LookCloses(f: Flat, pins: map<PageId, int>, pid: PageId)
    requires f.pins == Pinned(pins, pid) && (pid in pins ==> pins[pid] > 0) && pid !in f.owed
    ensures WellBehaved(f, [UnpinPage(pid, false)])
    ensures FlatAfter(f, [UnpinPage(pid, false)]) == f.(pins := pins)
  {
    FirstCall(f, UnpinPage(pid, false), []);
    assert [UnpinPage(pid, false)] + [] == [UnpinPage(pid, false)];
    Unpinned(pins, f.counter, Full(f), pid, false);
    hide Full, PinsNext;
  }

  /** What the pool is like after a request: `pages` and `counter` may differ in the one file, and a pin is
      left behind if the request keeps it. */
  ghost function PoolAfter(f: Flat, pid: PageId, kept: bool, b: Option<PageData>, counter: map<int, int>): Flat {
    Flat(if b.Some? then f.pages[pid := b.value] else f.pages,
         if kept then Pinned(f.pins, pid) else f.pins, counter, f.owed - {pid}, f.size)
  }

  lemma FollowingServed(f: Flat, fd: int, h: H.HeapFile, req: Request, b: PageData, pins: map<PageId, int>)
    requires Shows(h, req, b)
    requires
      var pid := PageId(fd, Target(h, req));
      f.pins == Pinned(pins, pid) && (pid in pins ==> pins[pid] > 0)
      && (pid in f.owed ==> Inserts(req))
    ensures
      var pid := PageId(fd, Target(h, req));
      && WellBehaved(f, Following(fd, h, req, b))
      && FlatAfter(f, Following(fd, h, req, b))
         == PoolAfter(f.(pins := pins), pid, Keeps(h, req), Rewritten(h, req, b), f.counter)
  {
    var pid := PageId(fd, Target(h, req));
    KeepsIff(h, req, b);
    hide Shows, WellBehaved, FlatAfter, Keeps;
    if Rewritten(h, req, b).Some? {
      WriteCloses(f, pins, pid, Rewritten(h, req, b).value);
    } else {
      NotOwed(f, req, pid, h, b);
      NoCalls(f);
      if req.Visit? {
        LookCloses(f, pins, pid);
      }
    }
  }

  lemma NoCalls(f: Flat)
    ensures WellBehaved(f, []) && FlatAfter(f, []) == f
  {
  }

  lemma NotOwed(f: Flat, req: Request, pid: PageId, h: H.HeapFile, b: PageData)
    requires Shows(h, req, b) && Rewritten(h, req, b) == None && (pid in f.owed ==> Inserts(req))
    ensures pid !in f.owed && f.owed - {pid} == f.owed
  {
  }

  /** The page counters after a request. */
  function CounterAfter(f: Flat, fd: int, h: H.HeapFile, req: Request): map<int, int> {
    if Creates(h, req) then f.counter[fd := h.counter + 1] else f.counter
  }

  /** The pool after a request that got its frame. */
  ghost function Served(f: Flat, fd: int, h: H.HeapFile, req: Request): Flat
    requires Reaches(f, fd, h, req)
  {
    PoolAfter(f, PageId(fd, Target(h, req)), Keeps(h, req), Rewritten(h, req, Before(f, fd, h, req)),
              CounterAfter(f, fd, h, req))
  }

  /** The pool once the page is there. */
  ghost predicate HasOpened(f: Flat, f1: Flat, pid: PageId, created: bool, counter: map<int, int>) {
    && f1.pins == Pinned(f.pins, pid) && (pid in f.pins ==> f.pins[pid] > 0)
    && f1.counter == counter && f1.size == f.size && pid !in f.owed
    && f1.owed == (if created then f.owed + {pid} else f.owed)
    && f1.pages - {pid} == f.pages - {pid} && (!created ==> f1.pages == f.pages)
  }

  lemma OpensNew(f: Flat, fd: int, h: H.HeapFile, b: PageData)
    requires Sane(f) && Backs(f, fd, h) && 0 <= fd < MAX_FD && !Full(f)
    ensures
      var pid := PageId(fd, h.counter);
      var calls := [NewPage(fd), Overwrite(pid, b)];
      WellBehaved(f, calls) && HasOpened(f, FlatAfter(f, calls), pid, true, f.counter[fd := h.counter + 1])
  {
    hide *;
    NewIsUnused(f, fd, h);
    NewOpens(f, fd, b);
    HasCreated(f, PageId(fd, h.counter), b, f.counter[fd := h.counter + 1]);
  }

  lemma NewIsUnused(f: Flat, fd: int, h: H.HeapFile)
    requires Sane(f) && Backs(f, fd, h)
    ensures Next(f.counter, fd) == h.counter && PageId(fd, h.counter) !in f.pins && PageId(fd, h.counter) !in f.owed
  {
    hide Decode, ShapeOk;
  }

  lemma HasCreated(f: Flat, pid: PageId, b: PageData, counter: map<int, int>)
    requires pid !in f.pins && pid !in f.owed
    ensures HasOpened(f, Flat(f.pages[pid := b], f.pins[pid := 1], counter, f.owed + {pid}, f.size), pid, true, counter)
  {
    assert f.pages[pid := b] - {pid} == f.pages - {pid};
  }

  lemma OpensOld(f: Flat, fd: int, h: H.HeapFile, p: int)
    requires Sane(f) && Backs(f, fd, h) && p in h.pages && !(Full(f) && PageId(fd, p) !in f.pins)
    ensures
      var pid := PageId(fd, p);
      WellBehaved(f, [FetchPage(pid)]) && HasOpened(f, FlatAfter(f, [FetchPage(pid)]), pid, false, f.counter)
  {
    hide Decode, ShapeOk;
    var pid := PageId(fd, p);
    FetchOpens(f, pid);
    NoCalls(FlatNext(f, FetchPage(pid)));
    FirstCall(f, FetchPage(pid), []);
    assert [FetchPage(pid)] + [] == [FetchPage(pid)];
    hide WellBehaved, FlatAfter, FlatNext;
  }

  lemma OpeningServed(f: Flat, fd: int, h: H.HeapFile, req: Request)
    requires Reaches(f, fd, h, req) && !Starved(f, fd, h, req)
    ensures WellBehaved(f, Opening(fd, h, req))
    ensures HasOpened(f, FlatAfter(f, Opening(fd, h, req)), PageId(fd, Target(h, req)), Creates(h, req),
                      CounterAfter(f, fd, h, req))
  {
    hide *;
    ReachesParts(f, fd, h, req);
    OpeningIs(f, fd, h, req);
    if Creates(h, req) {
      OpensNew(f, fd, h, NewBytes(h));
    } else {
      OpensOld(f, fd, h, Target(h, req));
    }
  }

  lemma OpeningIs(f: Flat, fd: int, h: H.HeapFile, req: Request)
    requires Reaches(f, fd, h, req) && !Starved(f, fd, h, req)
    ensures
      var p := Target(h, req);
      if Creates(h, req) then
        && p == h.counter && !Full(f) && CounterAfter(f, fd, h, req) == f.counter[fd := h.counter + 1]
        && Opening(fd, h, req) == [NewPage(fd), Overwrite(PageId(fd, p), NewBytes(h))]
      else
        && p in h.pages && !(Full(f) && PageId(fd, p) !in f.pins) && CounterAfter(f, fd, h, req) == f.counter
        && Opening(fd, h, req) == [FetchPage(PageId(fd, p))]
  {
    TargetInFile(h, req);
    hide H.Inv, Backs, Sane, Full, NewBytes;
  }

  lemma OpenedAfter(f: Flat, f1: Flat, pid: PageId, created: bool, counter: map<int, int>, kept: bool,
                    r: Option<PageData>)
    requires HasOpened(f, f1, pid, created, counter) && (created ==> r.Some?)
    ensures PoolAfter(f1.(pins := f.pins), pid, kept, r, f1.counter) == PoolAfter(f, pid, kept, r, counter)
  {
    if r.Some? {
      assert f1.pages[pid := r.value] == (f1.pages - {pid})[pid := r.value];
      assert f.pages[pid := r.value] == (f.pages - {pid})[pid := r.value];
    }
  }

  lemma HasOpenedPins(f: Flat, f1: Flat, pid: PageId, created: bool, counter: map<int, int>)
    requires HasOpened(f, f1, pid, created, counter)
    ensures f1.pins == Pinned(f.pins, pid) && (pid in f.pins ==> f.pins[pid] > 0) && (pid in f1.owed ==> created)
  {
  }

  lemma InsertRewrites(h: H.HeapFile, req: Request, b: PageData)
    requires Shows(h, req, b)
    ensures Creates(h, req) ==> Inserts(req) && Rewritten(h, req, b).Some?
  {
  }

  /** A request that gets its frame makes well-behaved calls. */
  lemma RequestServed(f: Flat, fd: int, h: H.HeapFile, req: Request)
    requires Reaches(f, fd, h, req) && !Starved(f, fd, h, req)
    ensures WellBehaved(f, Calls(f, fd, h, req)) && FlatAfter(f, Calls(f, fd, h, req)) == Served(f, fd, h, req)
  {
    hide *;
    var b, pid, counter := Before(f, fd, h, req), PageId(fd, Target(h, req)), CounterAfter(f, fd, h, req);
    OpeningServed(f, fd, h, req);
    CallsAre(f, fd, h, req);
    InsertRewrites(h, req, b);
    var f1 := FlatAfter(f, Opening(fd, h, req));
    HasOpenedPins(f, f1, pid, Creates(h, req), counter);
    FollowingServed(f1, fd, h, req, b, f.pins);
    CallsConcat(f, Opening(fd, h, req), Following(fd, h, req, b));
    OpenedAfter(f, f1, pid, Creates(h, req), counter, Keeps(h, req), Rewritten(h, req, b));
  }

  lemma CallsAre(f: Flat, fd: int, h: H.HeapFile, req: Request)
    requires Reaches(f, fd, h, req)
    ensures H.PagesOk(h) && ShapeOk(ShapeOf(h)) && RequestOk(h, req)
    ensures Calls(f, fd, h, req) == Opening(fd, h, req) + Following(fd, h, req, Before(f, fd, h, req))
    ensures Served(f, fd, h, req)
         == PoolAfter(f, PageId(fd, Target(h, req)), Keeps(h, req), Rewritten(h, req, Before(f, fd, h, req)),
                      CounterAfter(f, fd, h, req))
  {
    hide Opening, Following, Before, PoolAfter, Keeps, Rewritten, CounterAfter, Target, Shows;
  }

  // The typed file stays behind the pages.

  /** The typed file the pool backs once one page has new bytes. */
  lemma RewriteBacks(f: Flat, fd: int, h: H.HeapFile, h1: H.HeapFile, h': H.HeapFile, p: int, kept: bool,
                     r: Option<PageData>, counter: map<int, int>)
    requires Backs(f, fd, h) && Next(counter, fd) == h'.counter && ShapeOf(h') == ShapeOf(h)
    requires forall q :: q in h1.pages && q != p ==> q in h.pages && h1.pages[q] == h.pages[q]
    requires if r.Some? then h'.pages == h1.pages[p := Decode(r.value, ShapeOf(h))] else h'.pages == h.pages
    ensures Backs(PoolAfter(f, PageId(fd, p), kept, r, counter), fd, h')
  {
    hide Decode, ShapeOk;
  }

  /** Counting the new page, the pool has the bytes of every page of the opened file but the one in hand. */
  lemma OpenedParts(f: Flat, fd: int, h: H.HeapFile, req: Request)
    requires Reaches(f, fd, h, req)
    ensures
      var h1 := Opened(h, req);
      && Next(CounterAfter(f, fd, h, req), fd) == h1.counter && (!Inserts(req) ==> h1 == h)
      && forall p :: p in h1.pages && p != Target(h, req) ==> p in h.pages && h1.pages[p] == h.pages[p]
  {
    hide H.EmptyPage, Decode;
  }

  lemma FileChange(h: H.HeapFile, req: Request, b: PageData)
    requires Shows(h, req, b)
    ensures
      var h1, h', p, r := Opened(h, req), FileAfter(h, req), Target(h, req), Rewritten(h, req, b);
      && (if r.Some? then h'.pages == h1.pages[p := Decode(r.value, ShapeOf(h))] else h' == h)
      && h'.counter == h1.counter && ShapeOf(h') == ShapeOf(h)
  {
    if Inserts(req) {
      InsertChange(h, req, b);
    } else {
      OtherChange(h, req, b);
    }
    hide H.Inv, H.Perform, Decode, Rewritten, H.CreateNewPage, Target;
  }

  lemma FileKeepsInv(h: H.HeapFile, req: Request)
    requires H.Inv(h) && RequestOk(h, req)
    ensures H.Inv(FileAfter(h, req))
  {
    hide H.Inv;
    if req.Change? {
      H.PerformRefines(h, req.op);
    }
  }

  /** The pages of the file are again its typed pages. */
  lemma ServedBacks(f: Flat, fd: int, h: H.HeapFile, req: Request)
    requires Reaches(f, fd, h, req)
    ensures H.Inv(h) && RequestOk(h, req) && H.Inv(FileAfter(h, req))
    ensures Backs(Served(f, fd, h, req), fd, FileAfter(h, req))
  {
    hide *;
    var b := Before(f, fd, h, req);
    ReachesParts(f, fd, h, req);
    OpenedParts(f, fd, h, req);
    FileChange(h, req, b);
    FileKeepsInv(h, req);
    CallsAre(f, fd, h, req);
    RewriteBacks(f, fd, h, Opened(h, req), FileAfter(h, req), Target(h, req), Keeps(h, req), Rewritten(h, req, b),
                 CounterAfter(f, fd, h, req));
  }
}
