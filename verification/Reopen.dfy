/** Closing a record file and opening it again: the file header, what close_file leaves on the disk, and exactly
    when a pool shows the file that is opened (src/record/rm_manager.h, src/record/rm_file_handle.h,
    src/storage/disk_manager.cpp). */
module Reopen {
  import opened Wrappers
  import opened Page
  import opened Values
  import opened Replacer
  import opened Pool
  import opened PoolRuns
  import opened PoolFlat
  import opened PageLayout
  import opened RecordPool
  import opened RecordRuns
  import opened BufferPool
  import H = HeapFile

  // The file header.

  datatype FileHdr = FileHdr(
    recordSize: int,
    numPages: int,
    numRecordsPerPage: int,
    firstFreePageNo: int,
    bitmapSize: int)

  predicate HdrFits(hdr: FileHdr) {
    && Int32Range(hdr.recordSize) && Int32Range(hdr.numPages) && Int32Range(hdr.numRecordsPerPage)
    && Int32Range(hdr.firstFreePageNo) && Int32Range(hdr.bitmapSize)
  }

  function EncodeHdr(hdr: FileHdr): (b: seq<bv8>)
    requires HdrFits(hdr)
    ensures |b| == SIZEOF_FILE_HDR
  {
    Encode(hdr.recordSize) + Encode(hdr.numPages) + Encode(hdr.numRecordsPerPage) + Encode(hdr.firstFreePageNo)
    + Encode(hdr.bitmapSize)
  }

  function DecodeHdr(b: seq<bv8>): FileHdr
    requires |b| >= SIZEOF_FILE_HDR
  {
    FileHdr(Int32(Slice(b, 0, 4)), Int32(Slice(b, 4, 4)), Int32(Slice(b, 8, 4)), Int32(Slice(b, 12, 4)),
            Int32(Slice(b, 16, 4)))
  }

  lemma HdrSlices(b: PageData, hdr: FileHdr)
    requires HdrFits(hdr)
    ensures
      var r := Patch(b, 0, EncodeHdr(hdr));
      && Slice(r, 0, 4) == Encode(hdr.recordSize) && Slice(r, 4, 4) == Encode(hdr.numPages)
      && Slice(r, 8, 4) == Encode(hdr.numRecordsPerPage) && Slice(r, 12, 4) == Encode(hdr.firstFreePageNo)
      && Slice(r, 16, 4) == Encode(hdr.bitmapSize)
  {
    hide Encode;
  }

  /** The header reads back as written. */
  lemma HdrReads(b: PageData, hdr: FileHdr)
    requires HdrFits(hdr)
    ensures DecodeHdr(Patch(b, 0, EncodeHdr(hdr))) == hdr
  {
    HdrSlices(b, hdr);
    EncodeReads(hdr.recordSize);
    EncodeReads(hdr.numPages);
    EncodeReads(hdr.numRecordsPerPage);
    EncodeReads(hdr.firstFreePageNo);
    EncodeReads(hdr.bitmapSize);
    hide Encode, EncodeHdr, Patch, Int32, Slice;
  }

  function HdrOf(h: H.HeapFile): FileHdr {
    FileHdr(h.recordSize, h.numPages, h.capacity, h.firstFree, BitmapSize(h.capacity))
  }

  lemma HdrOfFits(h: H.HeapFile)
    requires H.Inv(h) && Narrow(h) && ShapeOk(ShapeOf(h))
    ensures HdrFits(HdrOf(h)) && h.numPages == h.counter >= 1
  {
    HeadNarrow(h);
    SlotsApart(h.recordSize, h.capacity, 0, 0);
    hide H.ChainOk, H.PageOk;
  }

  // close_file.

  function HdrId(fd: int): PageId {
    PageId(fd, 0)
  }

  /** Page 0 with the header in front; what is behind it is never read. */
  function HdrPage(disk: map<PageId, PageData>, fd: int, hdr: FileHdr): PageData
    requires HdrFits(hdr)
  {
    Patch(if HdrId(fd) in disk then disk[HdrId(fd)] else Zeros(PAGE_SIZE), 0, EncodeHdr(hdr))
  }

  /** The header goes straight to the disk. */
  function HeaderOnDisk(s: State, fd: int, hdr: FileHdr): State
    requires HdrFits(hdr)
  {
    s.(disk := s.disk[HdrId(fd) := HdrPage(s.disk, fd, hdr)])
  }

  function WithHeader(r: Run, fd: int, hdr: FileHdr): Run
    requires HdrFits(hdr)
  {
    r.(pool := HeaderOnDisk(r.pool, fd, hdr))
  }

  lemma DiskWritten(frames: seq<Frame>, table: map<PageId, FrameId>, disk: map<PageId, PageData>, owed: set<PageId>,
                    pid: PageId, data: PageData)
    requires TableInverse(frames, table) && Covered(frames, disk, owed) && pid !in table
    ensures InRange(frames, table) && View(frames, table, disk[pid := data]) == View(frames, table, disk)[pid := data]
    ensures Covered(frames, disk[pid := data], owed)
  {
    forall f | 0 <= f < |frames| && frames[f].id !in owed ensures Safe(frames[f], disk[pid := data]) {
      assert Safe(frames[f], disk);
    }
  }

  lemma HeaderNumbered(table: map<PageId, FrameId>, disk: map<PageId, PageData>, counter: map<int, int>, fd: int,
                       data: PageData)
    requires Numbered(table, disk, counter) && 0 < Next(counter, fd)
    ensures Numbered(table, disk[HdrId(fd) := data], counter)
  {
  }

  lemma HeaderWritten(r: Run, fd: int, hdr: FileHdr)
    requires Good(r) && HdrFits(hdr) && HdrId(fd) !in r.pool.table && 0 < Next(r.pool.counter, fd)
    ensures Good(WithHeader(r, fd, hdr))
    ensures Seen(WithHeader(r, fd, hdr))
         == Seen(r).(pages := Seen(r).pages[HdrId(fd) := HdrPage(r.pool.disk, fd, hdr)])
  {
    hide FreeExact, LruExact, ByAge, HdrPage, PinsOf, TableInverse, Covered, Held, View, Numbered, InRange, HdrId;
    var s := r.pool;
    HeaderNumbered(s.table, s.disk, s.counter, fd, HdrPage(s.disk, fd, hdr));
    DiskWritten(s.frames, s.table, s.disk, r.owed, HdrId(fd), HdrPage(s.disk, fd, hdr));
  }

  /** close_file: the header, then every resident page. Frames keep their pages and their pins. */
  ghost function Closed(r: Run, fd: int, hdr: FileHdr): Run
    requires Good(r) && HdrFits(hdr) && HdrId(fd) !in r.pool.table && 0 < Next(r.pool.counter, fd)
  {
    HeaderWritten(r, fd, hdr);
    Step(WithHeader(r, fd, hdr), FlushAllPages(fd))
  }

  /** Every page of the file is on the disk as the pool shows it. */
  ghost predicate OnDisk(s: State, fd: int)
    requires Inv(s)
  {
    forall pid: PageId :: pid.fd == fd ==>
      (pid in s.disk <==> pid in Store(s)) && (pid in s.disk ==> s.disk[pid] == Store(s)[pid])
  }

  lemma FlushedOnDisk(s: State, fd: int)
    requires Inv(s) && Inv(FlushAll(s, fd, |s.frames|))
    ensures OnDisk(FlushAll(s, fd, |s.frames|), fd)
  {
    AllFlushed(s, fd);
    TableInBounds(s);
    hide Inv, FlushAll;
  }

  lemma ClosedIs(r: Run, fd: int, hdr: FileHdr)
    requires Good(r) && HdrFits(hdr) && HdrId(fd) !in r.pool.table && 0 < Next(r.pool.counter, fd)
    ensures Inv(WithHeader(r, fd, hdr).pool)
    ensures Closed(r, fd, hdr) == Step(WithHeader(r, fd, hdr), FlushAllPages(fd))
    ensures WithHeader(r, fd, hdr).pool == HeaderOnDisk(r.pool, fd, hdr)
    ensures |HeaderOnDisk(r.pool, fd, hdr).frames| == |r.pool.frames|
  {
    HeaderWritten(r, fd, hdr);
    GoodInv(WithHeader(r, fd, hdr));
    hide Good, Inv, Step, HdrPage;
  }

  lemma StepFlushes(r: Run, fd: int)
    requires Inv(r.pool)
    ensures Step(r, FlushAllPages(fd)).pool == FlushAll(r.pool, fd, |r.pool.frames|)
    ensures Step(r, FlushAllPages(fd)).owed == OtherThan(r.owed, fd)
  {
    hide Inv, FlushAll;
  }

  lemma OwedSeen(r: Run)
    requires Good(r)
    ensures Seen(r).owed == r.owed
  {
    hide Inv, Ledger, ByAge, Store;
  }

  lemma FlushingIsAllowed(f: Flat, fd: int)
    ensures FlatAllowed(f, FlushAllPages(fd)) && FlatDisciplined(f, FlushAllPages(fd))
    ensures FlatNext(f, FlushAllPages(fd)) == f.(owed := OtherThan(f.owed, fd))
  {
  }

  lemma ClosedOnDisk(r: Run, fd: int, hdr: FileHdr)
    requires Good(r) && HdrFits(hdr) && HdrId(fd) !in r.pool.table && 0 < Next(r.pool.counter, fd)
    ensures Good(Closed(r, fd, hdr)) && OnDisk(Closed(r, fd, hdr).pool, fd)
    ensures Seen(Closed(r, fd, hdr))
         == Seen(r).(pages := Seen(r).pages[HdrId(fd) := HdrPage(r.pool.disk, fd, hdr)],
                     owed := OtherThan(r.owed, fd))
    ensures Closed(r, fd, hdr).owed == OtherThan(r.owed, fd) && Closed(r, fd, hdr).pool.table == r.pool.table
  {
    hide *;
    var w := WithHeader(r, fd, hdr);
    HeaderWritten(r, fd, hdr);
    ClosedIs(r, fd, hdr);
    FlushingIsAllowed(Seen(w), fd);
    OwedSeen(w);
    StepKeepsGood(w, FlushAllPages(fd));
    GoodInv(Step(w, FlushAllPages(fd)));
    StepFlushes(w, fd);
    FlushedOnDisk(w.pool, fd);
    AllFlushed(w.pool, fd);
    WithHeaderIs(r, fd, hdr);
  }

  lemma WithHeaderIs(r: Run, fd: int, hdr: FileHdr)
    requires HdrFits(hdr)
    ensures WithHeader(r, fd, hdr).owed == r.owed && WithHeader(r, fd, hdr).pool.table == r.pool.table
  {
  }

  lemma GoodInv(r: Run)
    requires Good(r)
    ensures Inv(r.pool)
  {
  }

  lemma ClosedPool(r: Run, fd: int, hdr: FileHdr)
    requires Good(r) && HdrFits(hdr) && HdrId(fd) !in r.pool.table && 0 < Next(r.pool.counter, fd)
    ensures Closed(r, fd, hdr).pool == FlushAll(HeaderOnDisk(r.pool, fd, hdr), fd, |r.pool.frames|)
  {
    HeaderWritten(r, fd, hdr);
    var w := WithHeader(r, fd, hdr);
    GoodInv(w);
    hide *;
    StepFlushes(w, fd);
    ClosedIs(r, fd, hdr);
  }

  // open_file.

  ghost function FileImage(disk: map<PageId, PageData>, fd: int): Image {
    map pid | pid in disk && pid.fd == fd :: pid.pageNo := disk[pid]
  }

  function NumPages(image: Image): int
    requires 0 in image
  {
    DecodeHdr(image[0]).numPages
  }

  /** The header counts the pages. */
  predicate ImageOk(image: Image) {
    0 in image && forall p :: p in image ==> 0 <= p < NumPages(image)
  }

  /** The pool is not told; only the page counter is set, to what the header says. */
  ghost function OpenedPool(s: State, fd: int, image: Image): State
    requires 0 in image
  {
    s.(disk := Mounted(s.disk, fd, image), counter := s.counter[fd := NumPages(image)])
  }

  ghost function OpenedRun(t: Run, fd: int, image: Image): Run
    requires 0 in image
  {
    t.(pool := OpenedPool(t.pool, fd, image))
  }

  /** The pool is in order and shows the file. */
  ghost predicate ShowsFile(s: State, fd: int, image: Image) {
    && Inv(s)
    && forall p :: (PageId(fd, p) in Store(s) <==> p in image)
                && (p in image ==> Store(s)[PageId(fd, p)] == image[p])
  }

  /** What is resident under the descriptor, from whatever file, is what the file has there. */
  ghost predicate ResidentsAgree(s: State, fd: int, image: Image)
    requires Inv(s)
  {
    forall pid :: pid in s.table && pid.fd == fd ==>
      pid.pageNo in image && s.table[pid] < |s.frames| && s.At(pid).data == image[pid.pageNo]
  }

  lemma OpenedInv(s: State, fd: int, image: Image)
    requires Inv(s) && ImageOk(image) && ResidentsAgree(s, fd, image)
    ensures Inv(OpenedPool(s, fd, image))
  {
    hide TableInverse, FreeExact, LruExact, DecodeHdr;
    var s' := OpenedPool(s, fd, image);
    forall pid | pid in s'.table || pid in s'.disk ensures 0 <= pid.pageNo < Next(s'.counter, pid.fd) {
      assert pid in s.table || pid in s.disk || pid.pageNo in image;
    }
    assert forall g :: Next(s'.counter, g) == if g == fd then NumPages(image) else Next(s.counter, g);
  }

  /** What the pool shows once the file is open: the other files as before, and under the descriptor the frames
      that are resident, else the file. */
  lemma OpenedView(frames: seq<Frame>, table: map<PageId, FrameId>, disk: map<PageId, PageData>, fd: int, image: Image)
    requires InRange(frames, table)
    ensures
      var before, after := View(frames, table, disk), View(frames, table, Mounted(disk, fd, image));
      && (forall pid: PageId :: pid.fd != fd ==>
           (pid in after <==> pid in before) && (pid in after ==> after[pid] == before[pid]))
      && (forall p :: PageId(fd, p) in after <==> PageId(fd, p) in table || p in image)
      && (forall p :: PageId(fd, p) in after ==>
           after[PageId(fd, p)] == if PageId(fd, p) in table then frames[table[PageId(fd, p)]].data else image[p])
  {
  }

  lemma OpenedStore(s: State, fd: int, image: Image)
    requires Inv(s) && ImageOk(image) && Inv(OpenedPool(s, fd, image))
    ensures forall pid :: pid in s.table ==> s.table[pid] < |s.frames|
    ensures
      var after := Store(OpenedPool(s, fd, image));
      && (forall p :: PageId(fd, p) in after <==> PageId(fd, p) in s.table || p in image)
      && (forall p :: PageId(fd, p) in after ==>
           after[PageId(fd, p)] == if PageId(fd, p) in s.table then s.At(PageId(fd, p)).data else image[p])
      && (forall pid: PageId :: pid.fd != fd ==>
           (pid in after <==> pid in Store(s)) && (pid in after ==> after[pid] == Store(s)[pid]))
  {
    TableInBounds(s);
    OpenedView(s.frames, s.table, s.disk, fd, image);
    hide Inv, ImageOk, Mounted, View;
  }

  lemma AgreeingShows(s: State, fd: int, image: Image)
    requires Inv(s) && ImageOk(image) && ResidentsAgree(s, fd, image)
    ensures ShowsFile(OpenedPool(s, fd, image), fd, image)
  {
    OpenedInv(s, fd, image);
    OpenedStore(s, fd, image);
    var s' := OpenedPool(s, fd, image);
    hide Inv, ImageOk, OpenedPool, Store;
    forall p | PageId(fd, p) in s.table ensures p in image && s.At(PageId(fd, p)).data == image[p] {
    }
    hide ResidentsAgree;
    assert ShowsFile(s', fd, image);
  }

  lemma ShownAgrees(s: State, fd: int, image: Image)
    requires Inv(s) && ImageOk(image) && ShowsFile(OpenedPool(s, fd, image), fd, image)
    ensures ResidentsAgree(s, fd, image)
  {
    OpenedStore(s, fd, image);
    hide Inv, ImageOk, OpenedPool, Store;
    forall pid | pid in s.table && pid.fd == fd
      ensures pid.pageNo in image && s.table[pid] < |s.frames| && s.At(pid).data == image[pid.pageNo] {
      assert pid == PageId(fd, pid.pageNo);
    }
  }

  /** On any pool, whatever it holds: after open_file it is in order and shows the file that was opened if and only
      if the pages resident under the same descriptor are that file's. */
  lemma OpenedIff(s: State, fd: int, image: Image)
    requires Inv(s) && ImageOk(image)
    ensures ShowsFile(OpenedPool(s, fd, image), fd, image) <==> ResidentsAgree(s, fd, image)
  {
    if ResidentsAgree(s, fd, image) {
      AgreeingShows(s, fd, image);
    } else if ShowsFile(OpenedPool(s, fd, image), fd, image) {
      ShownAgrees(s, fd, image);
    }
    hide *;
  }

  /** What fetch_page gives then: the resident bytes, from whatever file they are. */
  lemma StaleFetched(s: State, fd: int, image: Image, pid: PageId)
    requires Inv(s) && ImageOk(image) && pid in s.table && pid.fd == fd
    requires Inv(OpenedPool(s, fd, image))
    ensures
      var (s', frame) := Fetch(OpenedPool(s, fd, image), pid);
      frame.Some? && frame.value < |s'.frames| && s'.frames[frame.value].data == s.At(pid).data
  {
    TableInBounds(s);
    hide FreeExact, LruExact, ImageOk, Mounted, Numbered, TableInverse;
  }

  lemma OpenedGood(t: Run, fd: int, image: Image)
    requires Good(t) && ImageOk(image) && ResidentsAgree(t.pool, fd, image)
    requires forall pid :: pid in t.owed ==> pid.fd != fd
    ensures Good(OpenedRun(t, fd, image))
  {
    OpenedInv(t.pool, fd, image);
    OpenedCovered(t, fd, image);
    hide Inv, ByAge, Covered, ImageOk, ResidentsAgree;
  }

  lemma OpenedCovered(t: Run, fd: int, image: Image)
    requires Good(t) && 0 in image && ResidentsAgree(t.pool, fd, image)
    ensures Covered(t.pool.frames, Mounted(t.pool.disk, fd, image), t.owed)
  {
    hide FreeExact, LruExact, Numbered, ByAge, Held;
    var s := t.pool;
    forall f | 0 <= f < |s.frames| && s.frames[f].id !in t.owed
      ensures Safe(s.frames[f], Mounted(s.disk, fd, image)) {
      assert Safe(s.frames[f], s.disk);
      if s.frames[f].Resident() {
        assert s.frames[f].id in s.table && s.table[s.frames[f].id] == f;
        assert s.frames[f].id == PageId(s.frames[f].id.fd, s.frames[f].id.pageNo);
      }
    }
  }

  lemma HeaderKeepsInv(s: State, fd: int, hdr: FileHdr)
    requires Inv(s) && HdrFits(hdr) && 0 < Next(s.counter, fd)
    ensures Inv(HeaderOnDisk(s, fd, hdr))
  {
    HeaderNumbered(s.table, s.disk, s.counter, fd, HdrPage(s.disk, fd, hdr));
    hide TableInverse, FreeExact, LruExact, HdrPage, Numbered;
  }

  lemma FrontDecodes(b: PageData)
    ensures DecodeHdr(b[..SIZEOF_FILE_HDR]) == DecodeHdr(b)
  {
    var front := b[..SIZEOF_FILE_HDR];
    forall at | 0 <= at <= 16 ensures Slice(front, at, 4) == Slice(b, at, 4) {
    }
    hide Int32;
  }

  /** RmManager, over the pool and its disk. */
  class RmManager {
    const pool: BufferPoolManager

    constructor (pool: BufferPoolManager)
      ensures this.pool == pool
    {
      this.pool := pool;
    }

    /** close_file. No frame is given up. */
    method CloseFile(fd: int, hdr: FileHdr)
      requires pool.Valid() && HdrFits(hdr) && 0 < Next(pool.disk.counter, fd)
      modifies pool.pages, pool.disk`pages
      ensures pool.Valid()
      ensures pool.Abs() == FlushAll(HeaderOnDisk(old(pool.Abs()), fd, hdr), fd, pool.pages.Length)
    {
      HeaderKeepsInv(pool.Abs(), fd, hdr);
      hide Inv, Next;
      pool.disk.WriteFront(HdrId(fd), EncodeHdr(hdr));
      assert pool.Abs() == HeaderOnDisk(old(pool.Abs()), fd, hdr);
      pool.FlushAllPages(fd);
    }

    /** open_file and the handle's constructor; the operating system gives the file the descriptor. A file without
        a header makes the read throw. The pool stays in order if the pages resident under the descriptor are the
        file's. */
    method OpenFile(fd: int, image: Image) returns (hdr: Option<FileHdr>)
      requires pool.Valid() && (0 in image ==> ImageOk(image))
      modifies pool.disk
      ensures hdr == if 0 in image then Some(DecodeHdr(image[0])) else None
      ensures 0 in image ==> pool.Abs() == OpenedPool(old(pool.Abs()), fd, image)
      ensures 0 in image && ResidentsAgree(old(pool.Abs()), fd, image) ==> pool.Valid()
      ensures 0 !in image ==> pool.Abs() == old(pool.Abs()).(disk := Mounted(old(pool.disk.pages), fd, image))
    {
      hide Inv, ImageOk, DecodeHdr;
      pool.disk.Mount(fd, image);
      var front := pool.disk.ReadFront(HdrId(fd), SIZEOF_FILE_HDR);
      assert HdrId(fd) in pool.disk.pages <==> 0 in image;
      if front.None? {
        return None;
      }
      FrontDecodes(image[0]);
      hdr := Some(DecodeHdr(front.value));
      pool.disk.SetPageCounter(fd, hdr.value.numPages);
      if ResidentsAgree(old(pool.Abs()), fd, image) {
        OpenedInv(old(pool.Abs()), fd, image);
      }
    }
  }

  // The file behind the handle.

  /** What the new handle stands for: header fields from page 0 on the disk, pages as the pool shows them. None if
      there is no header to read, or none of a record file. */
  ghost function Handle(s: State, fd: int): Option<H.HeapFile>
    requires Inv(s)
  {
    if HdrId(fd) !in s.disk then None
    else
      var hdr := DecodeHdr(s.disk[HdrId(fd)]);
      if hdr.recordSize < 0 || hdr.numRecordsPerPage < 0 || !ShapeOk(Shape(hdr.recordSize, hdr.numRecordsPerPage)) then
        None
      else
        var sh := Shape(hdr.recordSize, hdr.numRecordsPerPage);
        Some(H.HeapFile(hdr.recordSize, hdr.numRecordsPerPage, hdr.numPages, hdr.firstFreePageNo,
                        PagesShown(Store(s), fd, sh, hdr.numPages), hdr.numPages))
  }

  ghost function PagesShown(pages: map<PageId, PageData>, fd: int, sh: Shape, numPages: int): map<int, H.RmPage>
    requires ShapeOk(sh)
  {
    map pid | pid in pages && pid.fd == fd && H.FIRST_RECORD_PAGE <= pid.pageNo < numPages
      :: pid.pageNo := Decode(pages[pid], sh)
  }

  /** The image holds the file. */
  ghost predicate Holds(image: Image, h: H.HeapFile) {
    && ImageOk(image) && ShapeOk(ShapeOf(h)) && DecodeHdr(image[0]) == HdrOf(h)
    && forall p :: p in h.pages ==> p in image && Decode(image[p], ShapeOf(h)) == h.pages[p]
  }

  lemma ImageAt(disk: map<PageId, PageData>, fd: int)
    ensures
      var image := FileImage(disk, fd);
      forall p :: (p in image <==> PageId(fd, p) in disk) && (p in image ==> image[p] == disk[PageId(fd, p)])
  {
    var image := FileImage(disk, fd);
    forall p ensures (p in image <==> PageId(fd, p) in disk) && (p in image ==> image[p] == disk[PageId(fd, p)]) {
      if PageId(fd, p) in disk {
        assert PageId(fd, p).pageNo in image;
      }
    }
  }

  lemma BackedPages(f: Flat, fd: int, h: H.HeapFile)
    requires Backs(f, fd, h)
    ensures ShapeOk(ShapeOf(h)) && Next(f.counter, fd) == h.counter
    ensures forall p :: p in h.pages ==>
              PageId(fd, p) in f.pages && Decode(f.pages[PageId(fd, p)], ShapeOf(h)) == h.pages[p]
    ensures forall pid :: pid in f.owed ==> pid.fd != fd
  {
    hide Decode, ShapeOk;
  }

  /** What close_file leaves on the disk: the header, and behind it the pages as the pool shows them. */
  lemma ClosedImage(r: Run, fd: int, hdr: FileHdr)
    requires Good(r) && HdrFits(hdr) && HdrId(fd) !in r.pool.table && 0 < Next(r.pool.counter, fd)
    ensures
      var image := FileImage(Closed(r, fd, hdr).pool.disk, fd);
      && 0 in image && image[0] == HdrPage(r.pool.disk, fd, hdr)
      && (forall p :: p in image ==> 0 <= p < Next(r.pool.counter, fd))
      && forall p :: p != 0 ==>
           (p in image <==> PageId(fd, p) in Seen(r).pages) && (p in image ==> image[p] == Seen(r).pages[PageId(fd, p)])
  {
    ClosedOnDisk(r, fd, hdr);
    var c := Closed(r, fd, hdr);
    DiskNumbered(c);
    DiskNumbered(r);
    ImageAt(c.pool.disk, fd);
    hide Good, Inv, Closed, FileImage, HdrPage, Seen, Store, HdrFits;
    assert forall p :: PageId(fd, p).fd == fd;
  }

  lemma HoldsIs(image: Image, fd: int, h: H.HeapFile, pages: map<PageId, PageData>)
    requires ShapeOk(ShapeOf(h)) && H.PagesOk(h) && 0 in image && DecodeHdr(image[0]) == HdrOf(h)
    requires forall p :: p in image ==> 0 <= p < h.numPages
    requires forall p :: p in h.pages ==>
               PageId(fd, p) in pages && Decode(pages[PageId(fd, p)], ShapeOf(h)) == h.pages[p]
    requires forall p :: p != 0 ==>
               (p in image <==> PageId(fd, p) in pages) && (p in image ==> image[p] == pages[PageId(fd, p)])
    ensures Holds(image, h)
  {
    H.DataPages(h);
    hide H.PagesOk, ShapeOk, Decode, DecodeHdr;
  }

  /** After close_file the disk holds the file. */
  lemma ClosedHolds(r: Run, fd: int, h: H.HeapFile)
    requires Good(r) && H.Inv(h) && Narrow(h) && Backs(Seen(r), fd, h) && HdrId(fd) !in r.pool.table
    ensures HdrFits(HdrOf(h)) && 0 < Next(r.pool.counter, fd)
    ensures Holds(FileImage(Closed(r, fd, HdrOf(h)).pool.disk, fd), h)
  {
    hide *;
    BackedPages(Seen(r), fd, h);
    HdrOfFits(h);
    DiskNumbered(r);
    ClosedImage(r, fd, HdrOf(h));
    HdrPageReads(r.pool.disk, fd, HdrOf(h));
    PagesOfInv(h);
    HoldsIs(FileImage(Closed(r, fd, HdrOf(h)).pool.disk, fd), fd, h, Seen(r).pages);
  }

  lemma PagesOfInv(h: H.HeapFile)
    requires H.Inv(h)
    ensures H.PagesOk(h)
  {
  }

  lemma HdrPageReads(disk: map<PageId, PageData>, fd: int, hdr: FileHdr)
    requires HdrFits(hdr)
    ensures DecodeHdr(HdrPage(disk, fd, hdr)) == hdr
  {
    HdrReads(if HdrId(fd) in disk then disk[HdrId(fd)] else Zeros(PAGE_SIZE), hdr);
  }

  lemma DiskNumbered(r: Run)
    requires Good(r)
    ensures Inv(r.pool) && forall pid :: pid in r.pool.disk ==> 0 <= pid.pageNo < Next(r.pool.counter, pid.fd)
    ensures Seen(r).pages == Store(r.pool) && Seen(r).counter == r.pool.counter
  {
    hide TableInverse, FreeExact, LruExact, Ledger, ByAge, Store;
  }

  lemma PagesShownAre(pages: map<PageId, PageData>, fd: int, image: Image, h: H.HeapFile)
    requires Holds(image, h) && H.PagesOk(h)
    requires forall p :: p in image ==> PageId(fd, p) in pages && pages[PageId(fd, p)] == image[p]
    requires forall p :: PageId(fd, p) in pages ==> p in image
    ensures PagesShown(pages, fd, ShapeOf(h), h.numPages) == h.pages
  {
    H.DataPages(h);
    hide H.PagesOk, DecodeHdr, Decode, ShapeOk;
    var shown := PagesShown(pages, fd, ShapeOf(h), h.numPages);
    forall p ensures p in shown <==> p in h.pages {
      if p in h.pages {
        assert PageId(fd, p) in pages && PageId(fd, p).pageNo in shown;
      }
    }
    forall p | p in h.pages ensures shown[p] == h.pages[p] {
      assert PageId(fd, p).pageNo in shown;
    }
  }

  lemma HandleParts(s: State, fd: int, h: H.HeapFile)
    requires Inv(s) && ShapeOk(ShapeOf(h)) && h.numPages == h.counter
    requires HdrId(fd) in s.disk && DecodeHdr(s.disk[HdrId(fd)]) == HdrOf(h)
    ensures Handle(s, fd) == Some(h.(pages := PagesShown(Store(s), fd, ShapeOf(h), h.numPages)))
  {
    hide Inv, PagesShown, Store, DecodeHdr, ShapeOk;
  }

  /** A pool that shows the image shows the file. */
  lemma HandleIs(s: State, fd: int, image: Image, h: H.HeapFile)
    requires ShowsFile(s, fd, image) && Holds(image, h) && H.Inv(h)
    requires HdrId(fd) in s.disk && s.disk[HdrId(fd)] == image[0]
    ensures Inv(s) && Handle(s, fd) == Some(h)
  {
    CountedPages(h);
    hide Inv, H.Inv, DecodeHdr, Decode, ShapeOk, Store, PagesShown, HdrOf;
    PagesShownAre(Store(s), fd, image, h);
    HandleParts(s, fd, h);
  }

  lemma CountedPages(h: H.HeapFile)
    requires H.Inv(h)
    ensures H.PagesOk(h) && h.numPages == h.counter
  {
    hide H.ChainOk, H.PageOk;
  }

  // Closing and opening again.

  lemma ImageBacks(f: Flat, fd: int, image: Image, h: H.HeapFile)
    requires Holds(image, h) && Next(f.counter, fd) == h.counter
    requires forall p :: p in image ==> PageId(fd, p) in f.pages && f.pages[PageId(fd, p)] == image[p]
    requires forall pid :: pid in f.owed ==> pid.fd != fd
    ensures Backs(f, fd, h)
  {
    hide Decode, DecodeHdr, ShapeOk;
  }

  lemma OtherBacks(f: Flat, f': Flat, fd: int, h: H.HeapFile)
    requires Backs(f, fd, h) && Next(f'.counter, fd) == Next(f.counter, fd) && f'.owed == f.owed
    requires forall p :: PageId(fd, p) in f.pages ==>
               PageId(fd, p) in f'.pages && f'.pages[PageId(fd, p)] == f.pages[PageId(fd, p)]
    ensures Backs(f', fd, h)
  {
    hide Decode, ShapeOk;
  }

  /** The flat map after open_file. */
  lemma OpenedSeen(t: Run, fd: int, image: Image)
    requires Good(t) && ImageOk(image) && Good(OpenedRun(t, fd, image))
    ensures
      var f, f' := Seen(t), Seen(OpenedRun(t, fd, image));
      && f'.owed == f.owed && f'.pins == f.pins && f'.size == f.size && f'.counter == f.counter[fd := NumPages(image)]
      && forall pid: PageId :: pid.fd != fd ==>
           (pid in f'.pages <==> pid in f.pages) && (pid in f'.pages ==> f'.pages[pid] == f.pages[pid])
  {
    GoodInv(t);
    GoodInv(OpenedRun(t, fd, image));
    OpenedStore(t.pool, fd, image);
    hide Inv, Ledger, ByAge, ImageOk, Store, Mounted;
  }

  lemma BackedFile(f: Flat, files: Files, fd: int)
    requires AllBacked(f, files) && fd in files
    ensures 0 <= fd < MAX_FD && H.Inv(files[fd]) && Backs(f, fd, files[fd])
  {
    hide H.Inv, Backs;
  }

  lemma OneMoreBacked(f: Flat, f': Flat, files: Files, fd: int, h: H.HeapFile)
    requires AllBacked(f, files) && 0 <= fd < MAX_FD && H.Inv(h) && Backs(f', fd, h)
    requires forall g :: g in files && g != fd ==> Backs(f', g, files[g])
    ensures AllBacked(f', files[fd := h])
  {
    hide H.Inv, Backs;
  }

  /** Opening a file that the disk holds, on any pool that is in order and whose residents under the descriptor
      agree: the handle stands for the file, and the pool backs it and the files that were open. */
  lemma OpenedIsBacked(t: Run, others: Files, fd: int, image: Image, h: H.HeapFile)
    requires Good(t) && AllBacked(Seen(t), others) && fd !in others && 0 <= fd < MAX_FD
    requires forall pid :: pid in t.owed ==> pid.fd != fd
    requires Holds(image, h) && H.Inv(h) && ImageOk(image) && Inv(t.pool) && ResidentsAgree(t.pool, fd, image)
    ensures
      var t' := OpenedRun(t, fd, image);
      && Good(t') && Inv(t'.pool) && AllBacked(Seen(t'), others[fd := h]) && Handle(t'.pool, fd) == Some(h)
  {
    HoldsParts(image, h);
    var t' := OpenedRun(t, fd, image);
    hide *;
    OpenedGood(t, fd, image);
    GoodInv(t');
    OpenedIff(t.pool, fd, image);
    OpenedHeader(t, fd, image, h);
    HandleIs(t'.pool, fd, image, h);
    OpenedSeen(t, fd, image);
    ShownImage(t', fd, image);
    ImageBacks(Seen(t'), fd, image, h);
    forall g | g in others && g != fd ensures Backs(Seen(t'), g, others[g]) {
      BackedFile(Seen(t), others, g);
      NextOther(Seen(t).counter, fd, NumPages(image), g);
      OtherBacks(Seen(t), Seen(t'), g, others[g]);
    }
    OneMoreBacked(Seen(t), Seen(t'), others, fd, h);
  }

  lemma NextOther(counter: map<int, int>, fd: int, n: int, g: int)
    ensures Next(counter[fd := n], g) == if g == fd then n else Next(counter, g)
  {
  }

  lemma OpenedHeader(t: Run, fd: int, image: Image, h: H.HeapFile)
    requires Holds(image, h) && ImageOk(image) && H.Inv(h)
    ensures HdrId(fd) in OpenedPool(t.pool, fd, image).disk
    ensures OpenedPool(t.pool, fd, image).disk[HdrId(fd)] == image[0]
    ensures OpenedRun(t, fd, image).pool == OpenedPool(t.pool, fd, image) && OpenedRun(t, fd, image).owed == t.owed
    ensures Next(t.pool.counter[fd := NumPages(image)], fd) == h.counter
  {
    CountedPages(h);
    hide H.Inv, DecodeHdr, Decode, ShapeOk;
  }

  lemma ShownImage(t: Run, fd: int, image: Image)
    requires Good(t) && ShowsFile(t.pool, fd, image)
    ensures Seen(t).owed == t.owed && Seen(t).counter == t.pool.counter
    ensures forall p :: p in image ==> PageId(fd, p) in Seen(t).pages && Seen(t).pages[PageId(fd, p)] == image[p]
  {
    hide Inv, Ledger, ByAge, Store;
  }

  lemma HoldsParts(image: Image, h: H.HeapFile)
    requires Holds(image, h)
    ensures ImageOk(image) && 0 in image
  {
  }

  /** Close a file and open it in another pool, say of the next process: the handle stands for the same file, and
      that pool backs it. */
  lemma ReopenedInNewPool(r: Run, files: Files, fd: int, n: nat, disk: map<PageId, PageData>, counter: map<int, int>,
                          fd': int)
    requires Good(r) && AllBacked(Seen(r), files) && fd in files && Narrow(files[fd]) && HdrId(fd) !in r.pool.table
    requires Numbered(map[], disk, counter) && 0 <= fd' < MAX_FD
    ensures HdrFits(HdrOf(files[fd])) && 0 < Next(r.pool.counter, fd)
    ensures
      var image := FileImage(Closed(r, fd, HdrOf(files[fd])).pool.disk, fd);
      0 in image
    ensures
      var image := FileImage(Closed(r, fd, HdrOf(files[fd])).pool.disk, fd);
      var t := OpenedRun(Run(Initial(n, disk, counter), {}, 0, map[], []), fd', image);
      && Good(t) && AllBacked(Seen(t), map[fd' := files[fd]]) && Inv(t.pool) && Handle(t.pool, fd') == Some(files[fd])
      && HeaderOut(t.pool, fd')
  {
    hide *;
    BackedFile(Seen(r), files, fd);
    ClosedHolds(r, fd, files[fd]);
    var image := FileImage(Closed(r, fd, HdrOf(files[fd])).pool.disk, fd);
    HoldsParts(image, files[fd]);
    InitialIsGood(n, disk, counter);
    var t := Run(Initial(n, disk, counter), {}, 0, map[], []);
    GoodInv(t);
    FreshPool(n, disk, counter);
    NothingResident(t, fd', image);
    OpenedIsBacked(t, map[], fd', image, files[fd]);
    OpenedHeaderOut(t, fd', image);
    assert map[][fd' := files[fd]] == map[fd' := files[fd]];
  }

  lemma OpenedHeaderOut(t: Run, fd: int, image: Image)
    requires ImageOk(image) && t.pool.table == map[]
    ensures HeaderOut(OpenedRun(t, fd, image).pool, fd)
  {
    hide DecodeHdr;
  }

  lemma FreshPool(n: nat, disk: map<PageId, PageData>, counter: map<int, int>)
    ensures Initial(n, disk, counter).table == map[]
  {
  }

  lemma NothingResident(t: Run, fd: int, image: Image)
    requires Good(t) && t.pool.table == map[]
    ensures Inv(t.pool) && ResidentsAgree(t.pool, fd, image) && AllBacked(Seen(t), map[])
  {
    hide FreeExact, LruExact, Numbered, Ledger, ByAge;
  }

  lemma WithPageBacks(f: Flat, pid: PageId, data: PageData, fd: int, h: H.HeapFile)
    requires Backs(f, fd, h) && pid.fd != fd
    ensures Backs(f.(pages := f.pages[pid := data], owed := OtherThan(f.owed, pid.fd)), fd, h)
  {
    hide Decode, ShapeOk;
  }

  lemma ClosedKeepsOthers(r: Run, files: Files, fd: int, hdr: FileHdr)
    requires Good(r) && AllBacked(Seen(r), files) && HdrFits(hdr) && HdrId(fd) !in r.pool.table
    requires 0 < Next(r.pool.counter, fd)
    ensures Good(Closed(r, fd, hdr)) && AllBacked(Seen(Closed(r, fd, hdr)), files - {fd})
  {
    hide *;
    ClosedOnDisk(r, fd, hdr);
    forall g | g in files && g != fd
      ensures 0 <= g < MAX_FD && H.Inv(files[g]) && Backs(Seen(Closed(r, fd, hdr)), g, files[g]) {
      BackedFile(Seen(r), files, g);
      HdrIdIs(fd);
      OwedSeen(r);
      WithPageBacks(Seen(r), HdrId(fd), HdrPage(r.pool.disk, fd, hdr), g, files[g]);
    }
    FewerBacked(Seen(Closed(r, fd, hdr)), files, fd);
  }

  lemma HdrIdIs(fd: int)
    ensures HdrId(fd) == PageId(fd, 0)
  {
  }

  lemma FewerBacked(f: Flat, files: Files, fd: int)
    requires forall g :: g in files && g != fd ==> 0 <= g < MAX_FD && H.Inv(files[g]) && Backs(f, g, files[g])
    ensures AllBacked(f, files - {fd})
  {
    hide H.Inv, Backs;
  }

  lemma OnDiskAgrees(s: State, fd: int)
    requires Inv(s) && OnDisk(s, fd)
    ensures ResidentsAgree(s, fd, FileImage(s.disk, fd))
  {
    TableInBounds(s);
    ImageAt(s.disk, fd);
    hide Inv, FileImage;
    forall pid | pid in s.table && pid.fd == fd
      ensures pid.pageNo in FileImage(s.disk, fd) && s.At(pid).data == FileImage(s.disk, fd)[pid.pageNo] {
      assert pid in Store(s) && pid == PageId(fd, pid.pageNo);
    }
  }

  lemma ClosedAgrees(r: Run, fd: int, hdr: FileHdr)
    requires Good(r) && HdrFits(hdr) && HdrId(fd) !in r.pool.table && 0 < Next(r.pool.counter, fd)
    ensures
      var c := Closed(r, fd, hdr);
      Inv(c.pool) && c.owed == OtherThan(r.owed, fd) && ResidentsAgree(c.pool, fd, FileImage(c.pool.disk, fd))
  {
    hide *;
    ClosedOnDisk(r, fd, hdr);
    var c := Closed(r, fd, hdr);
    GoodInv(c);
    OnDiskAgrees(c.pool, fd);
  }

  lemma NoneOwed(owed: set<PageId>, fd: int)
    ensures forall pid :: pid in OtherThan(owed, fd) ==> pid.fd != fd
  {
  }

  /** Close a file and open it again in the same pool under the same descriptor: what is still resident is its
      own. */
  lemma ReopenedInSamePool(r: Run, files: Files, fd: int)
    requires Good(r) && AllBacked(Seen(r), files) && fd in files && Narrow(files[fd]) && HdrId(fd) !in r.pool.table
    ensures HdrFits(HdrOf(files[fd])) && 0 < Next(r.pool.counter, fd)
    ensures 0 in FileImage(Closed(r, fd, HdrOf(files[fd])).pool.disk, fd)
    ensures
      var c := Closed(r, fd, HdrOf(files[fd]));
      var t := OpenedRun(c, fd, FileImage(c.pool.disk, fd));
      Good(t) && AllBacked(Seen(t), files) && Inv(t.pool) && Handle(t.pool, fd) == Some(files[fd])
  {
    hide *;
    var hdr := HdrOf(files[fd]);
    BackedFile(Seen(r), files, fd);
    BackedPages(Seen(r), fd, files[fd]);
    ClosedHolds(r, fd, files[fd]);
    ClosedKeepsOthers(r, files, fd, hdr);
    ClosedAgrees(r, fd, hdr);
    var c := Closed(r, fd, hdr);
    HoldsParts(FileImage(c.pool.disk, fd), files[fd]);
    NoneOwed(r.owed, fd);
    OpenedIsBacked(c, files - {fd}, fd, FileImage(c.pool.disk, fd), files[fd]);
    assert (files - {fd})[fd := files[fd]] == files;
  }

  // A whole session.

  /** The file operations never fetch page 0. */
  predicate SkipsHeader(calls: seq<Call>) {
    forall call :: call in calls && call.FetchPage? ==> call.pid.pageNo != 0
  }

  /** Page 0 of the file is in no frame, and page numbers are past it. */
  predicate HeaderOut(s: State, fd: int) {
    HdrId(fd) !in s.table && 0 < Next(s.counter, fd)
  }

  lemma ApplySkips(s: State, call: Call, fd: int)
    requires Inv(s) && Allowed(s, call) && HeaderOut(s, fd) && (call.FetchPage? ==> call.pid.pageNo != 0)
    ensures HeaderOut(Apply(s, call).0, fd)
  {
    TakeVictim(s);
    if call.FlushAllPages? {
      AllFlushed(s, call.fd);
      CountersStay(s, call.fd, |s.frames|);
    }
    hide TableInverse, FreeExact, LruExact, Numbered, Zeros, Without, SaveIfDirty, FlushAll;
  }

  lemma {:induction false} CountersStay(s: State, fd: int, n: nat)
    requires n <= |s.frames|
    ensures FlushAll(s, fd, n).counter == s.counter
  {
    if n == 0 {
    } else {
      CountersStay(s, fd, n - 1);
    }
  }

  lemma {:induction false} RunSkips(r: Run, calls: seq<Call>, fd: int)
    requires Good(r) && WellBehaved(Seen(r), calls) && SkipsHeader(calls) && HeaderOut(r.pool, fd)
    ensures HeaderOut(After(r, calls).pool, fd)
    decreases |calls|
  {
    hide Good, HeaderOut, Apply, FlatNext, FlatAllowed, FlatDisciplined, Seen;
    if calls == [] {
    } else {
      StepKeepsGood(r, calls[0]);
      GoodInv(r);
      ApplySkips(r.pool, calls[0], fd);
      RunSkips(Step(r, calls[0]), calls[1..], fd);
    }
  }

  lemma TargetPast(h: H.HeapFile, req: Request)
    requires H.Inv(h) && RequestOk(h, req) && !Refused(h, req)
    ensures Target(h, req) != 0
  {
    TargetInFile(h, req);
    OpenedOk(h, req);
    DataPagesFrom(Opened(h, req));
    hide H.Inv, Opened, Target, RequestOk, Refused;
  }

  lemma OpeningSkips(fd: int, h: H.HeapFile, req: Request)
    requires ShapeOk(ShapeOf(h)) && RequestOk(h, req) && Target(h, req) != 0
    ensures SkipsHeader(Opening(fd, h, req))
  {
    hide Target, Creates, NewBytes, ShapeOk, RequestOk;
  }

  lemma FollowingSkips(fd: int, h: H.HeapFile, req: Request, b: PageData)
    requires Shows(h, req, b)
    ensures SkipsHeader(Following(fd, h, req, b))
  {
    hide Target, Rewritten, Shows;
  }

  lemma BothSkip(a: seq<Call>, b: seq<Call>)
    requires SkipsHeader(a) && SkipsHeader(b)
    ensures SkipsHeader(a + b)
  {
  }

  lemma CallsSkip(f: Flat, fd: int, h: H.HeapFile, req: Request)
    requires Reaches(f, fd, h, req) && Target(h, req) != 0
    ensures SkipsHeader(Calls(f, fd, h, req))
  {
    hide *;
    CallsAre(f, fd, h, req);
    OpeningSkips(fd, h, req);
    FollowingSkips(fd, h, req, Before(f, fd, h, req));
    BothSkip(Opening(fd, h, req), Following(fd, h, req, Before(f, fd, h, req)));
  }

  lemma EntrySkips(f: Flat, files: Files, e: Entry)
    requires System(f, files) && EntryOk(files, e) && !EntryStarved(f, files, e)
    ensures SkipsHeader(CallsOf(f, files, e))
  {
    hide *;
    if Sent(files, e) {
      EntryParts(f, files, e);
      SentIs(files, e);
      TargetPast(files[e.fd], e.req);
      CallsSkip(f, e.fd, files[e.fd], e.req);
    } else {
      NothingSent(f, files, e);
      NoCallsSkip();
    }
  }

  lemma NoCallsSkip()
    ensures SkipsHeader([])
  {
  }

  lemma SentIs(files: Files, e: Entry)
    requires EntryOk(files, e) && Sent(files, e)
    ensures e.fd in files && !Refused(files[e.fd], e.req)
  {
  }

  lemma DataPagesFrom(h: H.HeapFile)
    requires H.Inv(h)
    ensures forall p :: p in h.pages ==> p >= H.FIRST_RECORD_PAGE
  {
    hide H.ChainOk, H.PageOk;
  }

  lemma {:induction false} RunCallsSkip(f: Flat, files: Files, es: seq<Entry>)
    requires System(f, files) && Fed(f, files, es)
    ensures SkipsHeader(RunCalls(f, files, es))
    decreases |es|
  {
    if es == [] {
    } else {
      hide System, EntryOk, EntryStarved, CallsOf, FilesAfter, SkipsHeader, PoolNext;
      NextSystem(f, files, es[0]);
      EntrySkips(f, files, es[0]);
      RunCallsSkip(PoolNext(f, files, es[0]), FilesAfter(f, files, es[0]), es[1..]);
      BothSkip(CallsOf(f, files, es[0]), RunCalls(PoolNext(f, files, es[0]), FilesAfter(f, files, es[0]), es[1..]));
    }
  }

  lemma FileStays(f: Flat, files: Files, es: seq<Entry>, fd: int)
    requires System(f, files) && Fed(f, files, es) && fd in files
    ensures fd in RunFiles(f, files, es)
  {
    FileRunsAlone(f, files, es, fd);
    hide *;
  }

  lemma HeaderIsOut(s: State, fd: int)
    ensures HeaderOut(s, fd) <==> HdrId(fd) !in s.table && 0 < Next(s.counter, fd)
  {
  }

  /** A whole session: after every run of requests that get their frames, closing a file and opening it in the next
      pool gives a handle to exactly the file that the run led to, and that pool backs it; so another session can
      follow. */
  lemma SessionSurvives(r: Run, files: Files, es: seq<Entry>, fd: int, n: nat, disk: map<PageId, PageData>,
                        counter: map<int, int>, fd': int)
    requires Good(r) && AllBacked(Seen(r), files) && PoolFed(r, files, es) && fd in files && HeaderOut(r.pool, fd)
    requires Numbered(map[], disk, counter) && 0 <= fd' < MAX_FD
    ensures System(Seen(r), files) && Fed(Seen(r), files, es) && fd in RunFiles(Seen(r), files, es)
    ensures WellBehaved(Seen(r), RunCalls(Seen(r), files, es))
    ensures
      var h, e := RunFiles(Seen(r), files, es)[fd], After(r, RunCalls(Seen(r), files, es));
      Narrow(h) ==>
        && HdrFits(HdrOf(h)) && Good(e) && HeaderOut(e.pool, fd)
        && var image := FileImage(Closed(e, fd, HdrOf(h)).pool.disk, fd);
          && 0 in image
          && var t := OpenedRun(Run(Initial(n, disk, counter), {}, 0, map[], []), fd', image);
            && Good(t) && AllBacked(Seen(t), map[fd' := h]) && Inv(t.pool) && Handle(t.pool, fd') == Some(h)
            && HeaderOut(t.pool, fd')
  {
    hide *;
    PoolServesFiles(r, files, es);
    var calls, files' := RunCalls(Seen(r), files, es), RunFiles(Seen(r), files, es);
    FileStays(Seen(r), files, es, fd);
    RunCallsSkip(Seen(r), files, es);
    RunSkips(r, calls, fd);
    HeaderIsOut(After(r, calls).pool, fd);
    if Narrow(files'[fd]) {
      ReopenedInNewPool(After(r, calls), files', fd, n, disk, counter, fd');
    }
  }
}
