/** The buffer pool manager and its disk as mutable objects. Every method holds the latch for its
    whole body, so each is one atomic step; its contract is the transition of module Pool.
    (src/storage/buffer_pool_manager.cpp, src/storage/disk_manager.cpp) */
module BufferPool {
  import opened Page
  import opened Wrappers
  import opened Values
  import opened Replacer
  import opened Pool

  /** A file on the disk: its pages by number. */
  type Image = map<int, PageData>

  /** The disk once the file is open under the descriptor. */
  function Mounted(disk: map<PageId, PageData>, fd: int, image: Image): map<PageId, PageData> {
    map pid | pid in disk.Keys + (set p | p in image :: PageId(fd, p)) && (pid.fd == fd ==> pid.pageNo in image)
      :: if pid.fd == fd then image[pid.pageNo] else disk[pid]
  }

  class DiskManager {
    var pages: map<PageId, PageData>
    var counter: map<int, int>

    constructor ()
      ensures pages == map[] && counter == map[]
    {
      pages, counter := map[], map[];
    }

    method WritePage(pid: PageId, data: PageData)
      modifies this`pages
      ensures pages == old(pages)[pid := data]
    {
      pages := pages[pid := data];
    }

    /** A page that was never written makes the read throw; `into` is what the buffer held. */
    method ReadPage(pid: PageId, into: PageData) returns (ok: bool, data: PageData)
      ensures ok <==> pid in pages
      ensures ok ==> data == pages[pid]
    {
      if pid in pages {
        return true, pages[pid];
      }
      return false, into;
    }

    /** A write shorter than a page leaves what is behind it, or a hole that reads as zeros. */
    method WriteFront(pid: PageId, raw: seq<bv8>)
      requires |raw| <= PAGE_SIZE
      modifies this`pages
      ensures pages == old(pages)[pid := Patch(if pid in old(pages) then old(pages)[pid] else Zeros(PAGE_SIZE), 0, raw)]
    {
      var page := if pid in pages then pages[pid] else Zeros(PAGE_SIZE);
      pages := pages[pid := Patch(page, 0, raw)];
    }

    /** The operating system gives the file the descriptor: its pages are what can be read and written there. */
    method Mount(fd: int, image: Image)
      modifies this`pages
      ensures pages == Mounted(old(pages), fd, image)
    {
      pages := Mounted(pages, fd, image);
    }

    /** The first bytes of a page. */
    method ReadFront(pid: PageId, n: nat) returns (r: Option<seq<bv8>>)
      requires n <= PAGE_SIZE
      ensures r == if pid in pages then Some(pages[pid][..n]) else None
    {
      return if pid in pages then Some(pages[pid][..n]) else None;
    }

    /** set_fd2pageno. */
    method SetPageCounter(fd: int, n: int)
      modifies this`counter
      ensures counter == old(counter)[fd := n]
    {
      counter := counter[fd := n];
    }

    method AllocatePage(fd: int) returns (pageNo: int)
      requires 0 <= fd < MAX_FD
      modifies this`counter
      ensures pageNo == Next(old(counter), fd) && counter == old(counter)[fd := pageNo + 1]
    {
      pageNo := Next(counter, fd);
      counter := counter[fd := pageNo + 1];
    }
  }

  class BufferPoolManager {
    const pages: array<Frame>
    const disk: DiskManager
    const replacer: LruReplacer
    var table: map<PageId, FrameId>
    var free: seq<FrameId>

    ghost function Abs(): State
      reads this, pages, disk, replacer
    {
      State(pages[..], table, free, replacer.Frames(), disk.pages, disk.counter)
    }

    ghost predicate Valid()
      reads this, pages, disk, replacer
    {
      replacer.Valid() && replacer.maxSize == pages.Length && Inv(Abs())
    }

    static ghost predicate Lost(s: State, read: PageData, s': State) {
      Take(s).1.Some? && Take(s).1.value < |s.frames| && s' == FailedFetch(s, read)
    }

    constructor (poolSize: nat, disk: DiskManager)
      requires Numbered(map[], disk.pages, disk.counter)
      ensures Valid() && fresh(pages) && fresh(replacer) && this.disk == disk
      ensures Abs() == Initial(poolSize, disk.pages, disk.counter)
    {
      pages := new Frame[poolSize](_ => Frame(PageId(0, INVALID_PAGE_ID), Zeros(PAGE_SIZE), false, 0));
      this.disk := disk;
      replacer := new LruReplacer(poolSize);
      table := map[];
      free := [];
      new;
      for i := 0 to poolSize
        invariant free == seq(i, k => k) && table == map[] && replacer.Valid() && replacer.Frames() == []
        invariant forall f :: 0 <= f < pages.Length ==>
                  pages[f] == Frame(PageId(0, INVALID_PAGE_ID), Zeros(PAGE_SIZE), false, 0)
      {
        free := free + [i];
      }
      InitialInv(poolSize, disk.pages, disk.counter);
      hide Inv;
      assert pages[..] == seq(poolSize, _ => Frame(PageId(0, INVALID_PAGE_ID), Zeros(PAGE_SIZE), false, 0));
      assert Abs() == Initial(poolSize, disk.pages, disk.counter);
    }

    method FindVictimPage() returns (victim: Option<FrameId>)
      requires replacer.Valid()
      modifies this`free, replacer
      ensures replacer.Valid()
      ensures (Abs(), victim) == Take(old(Abs()))
    {
      if free != [] {
        victim := Some(free[0]);
        free := free[1..];
      } else {
        ghost var lru := replacer.Frames();
        victim := replacer.Victim();
        assert victim.Some? ==> lru[..|lru| - 1] == replacer.Frames();
      }
    }

    /** Write a dirty victim back and drop its page from the table: the start of both page misses. */
    method Replace(f: FrameId)
      requires f < pages.Length
      modifies this`table, pages, disk`pages
      ensures Abs() == Evict(old(Abs()), f)
    {
      if pages[f].dirty {
        disk.WritePage(pages[f].id, pages[f].data);
        pages[f] := pages[f].(dirty := false);
      }
      if pages[f].id.pageNo != INVALID_PAGE_ID {
        table := table - {pages[f].id};
      }
    }

    /** Give a frame its new page, pinned once: the end of both page misses. */
    method Place(f: FrameId, pid: PageId, data: PageData)
      requires replacer.Valid() && f < pages.Length
      modifies this`table, pages, replacer
      ensures replacer.Valid() && Abs() == Install(old(Abs()), f, pid, data)
    {
      pages[f] := Frame(pid, data, false, 1);
      table := table[pid := f];
      replacer.Pin(f);
    }

    /** fetch_page. If the page can be read all is well. If not, nothing happens while every frame is pinned;
        otherwise it throws with a frame lost (Pool.FailedFetchLosesFrame). */
    method FetchPage(pid: PageId) returns (thrown: bool, frame: Option<FrameId>)
      requires Valid()
      modifies this, pages, disk`pages, replacer
      ensures thrown <==> !old(Abs()).Backed(pid) && Take(old(Abs())).1.Some?
      ensures !thrown ==> Valid()
      ensures old(Abs()).Backed(pid) ==> (Abs(), frame) == Fetch(old(Abs()), pid)
      ensures !thrown && !old(Abs()).Backed(pid) ==> Abs() == old(Abs()) && frame == None
      ensures thrown ==> exists read :: Lost(old(Abs()), read, Abs())
    {
      hide Inv;
      if Abs().Backed(pid) {
        FetchKeepsInv(Abs(), pid);
      }
      TableInBounds(Abs());
      if pid in table {
        var f := table[pid];
        pages[f] := pages[f].(pin := pages[f].pin + 1);
        replacer.Pin(f);
        return false, Some(f);
      }
      if Take(Abs()).1.Some? {
        MissingStays(Abs(), pid);
      }
      thrown, frame := FetchMiss(pid);
    }

    /** The part of fetch_page after the table look-up. */
    method FetchMiss(pid: PageId) returns (thrown: bool, frame: Option<FrameId>)
      requires replacer.Valid() && (Take(Abs()).1.Some? ==> Take(Abs()).1.value < pages.Length)
      modifies this, pages, disk`pages, replacer
      ensures replacer.Valid()
      ensures old(Take(Abs()).1).None? ==> !thrown && frame == None && Abs() == old(Abs())
      ensures old(Take(Abs()).1).Some? ==>
        var f := old(Take(Abs()).1).value;
        var s2 := Evict(old(Take(Abs()).0), f);
        && (thrown <==> pid !in s2.disk)
        && (!thrown ==> frame == Some(f) && Abs() == Install(s2, f, pid, s2.disk[pid]))
        && (thrown ==> exists read :: Lost(old(Abs()), read, Abs()))
    {
      thrown := false;
      frame := FindVictimPage();
      if frame.None? {
        return;
      }
      var f := frame.value;
      Replace(f);
      hide Install, Evict;
      var ok, data := disk.ReadPage(pid, pages[f].data);
      if !ok {
        pages[f] := pages[f].(data := data);
        assert Lost(old(Abs()), data, Abs());
        return true, None;
      }
      Place(f, pid, data);
    }

    /** new_page: the number of the new page goes with its frame. With every frame pinned no number is used up. */
    method NewPage(fd: int) returns (frame: Option<FrameId>, pageNo: int)
      requires Valid() && 0 <= fd < MAX_FD
      modifies this, pages, disk`pages, disk`counter, replacer
      ensures Valid() && (Abs(), frame) == New(old(Abs()), fd)
      ensures frame.Some? ==>
        && pageNo == Next(old(disk.counter), fd) && PageId(fd, pageNo) !in old(table) && PageId(fd, pageNo) in table
        && frame.value == table[PageId(fd, pageNo)] < pages.Length
        && pages[frame.value] == Frame(PageId(fd, pageNo), Zeros(PAGE_SIZE), false, 1)
      ensures frame.None? ==> pageNo == INVALID_PAGE_ID && disk.counter == old(disk.counter)
    {
      hide Inv;
      NewKeepsInv(Abs(), fd);
      NewIsPlaced(Abs(), fd);
      pageNo := INVALID_PAGE_ID;
      frame := FindVictimPage();
      if frame.None? {
        return;
      }
      var f := frame.value;
      Replace(f);
      hide Install, Evict;
      pageNo := disk.AllocatePage(fd);
      Place(f, PageId(fd, pageNo), Zeros(PAGE_SIZE));
    }

    method UnpinPage(pid: PageId, isDirty: bool) returns (ok: bool)
      requires Valid()
      modifies pages, replacer
      ensures Valid() && (Abs(), ok) == Unpin(old(Abs()), pid, isDirty)
    {
      hide Inv;
      UnpinKeepsInv(Abs(), pid, isDirty);
      TableInBounds(Abs());
      if pid !in table {
        return false;
      }
      var f := table[pid];
      if pages[f].pin <= 0 {
        return false;
      }
      pages[f] := pages[f].(pin := pages[f].pin - 1);
      if pages[f].pin == 0 {
        replacer.Unpin(f);
      }
      if isDirty {
        pages[f] := pages[f].(dirty := true);
      }
      assert pages[..] == old(pages[..])[f := pages[f]];
      return true;
    }

    method FlushPage(pid: PageId) returns (ok: bool)
      requires Valid()
      modifies pages, disk`pages
      ensures Valid() && (Abs(), ok) == Flush(old(Abs()), pid)
      ensures ok <==> pid in table
      ensures ok ==>
        && pid in disk.pages && disk.pages[pid] == old(pages[table[pid]]).data
        && pages[table[pid]] == old(pages[table[pid]]).(dirty := false)
      ensures forall q :: q != pid ==>
        (q in disk.pages <==> q in old(disk.pages)) && (q in disk.pages ==> disk.pages[q] == old(disk.pages)[q])
      ensures forall f :: 0 <= f < pages.Length && !(ok && f == table[pid]) ==> pages[f] == old(pages[f])
    {
      hide FreeExact, LruExact, Numbered;
      if pid !in table {
        return false;
      }
      var f := table[pid];
      WriteBackKeepsInv(Abs(), f);
      disk.WritePage(pid, pages[f].data);
      pages[f] := pages[f].(dirty := false);
      return true;
    }

    method DeletePage(pid: PageId) returns (ok: bool)
      requires Valid()
      modifies this, pages, disk`pages
      ensures Valid() && (Abs(), ok) == Delete(old(Abs()), pid)
      ensures ok <==> pid !in old(table) || old(pages[table[pid]]).pin == 0
      ensures !ok || pid !in old(table) ==> Abs() == old(Abs())
      ensures ok && pid in old(table) ==>
        && table == old(table) - {pid} && free == old(free) + [old(table[pid])]
        && !pages[old(table[pid])].Resident()
        && disk.pages == if old(pages[table[pid]]).dirty then old(disk.pages)[pid := old(pages[table[pid]]).data]
                         else old(disk.pages)
    {
      hide Inv;
      DeleteKeepsInv(Abs(), pid);
      TableInBounds(Abs());
      if pid !in table {
        return true;
      }
      var f := table[pid];
      if pages[f].pin != 0 {
        return false;
      }
      if pages[f].dirty {
        disk.WritePage(pid, pages[f].data);
        pages[f] := pages[f].(dirty := false);
      }
      table := table - {pid};
      pages[f] := Frame(PageId(pages[f].id.fd, INVALID_PAGE_ID), Zeros(PAGE_SIZE), false, 0);
      free := free + [f];
      assert pages[..] == old(pages[..])[f := pages[f]];
      return true;
    }

    method FlushAllPages(fd: int)
      requires Valid()
      modifies pages, disk`pages
      ensures Valid() && Abs() == FlushAll(old(Abs()), fd, pages.Length)
      ensures forall pid ::
        if pid in table && pid.fd == fd then pid in disk.pages && disk.pages[pid] == pages[table[pid]].data
        else (pid in disk.pages <==> pid in old(disk.pages))
             && (pid in disk.pages ==> disk.pages[pid] == old(disk.pages)[pid])
    {
      for i := 0 to pages.Length
        invariant replacer.Valid() && replacer.maxSize == pages.Length
        invariant Abs() == FlushAll(old(Abs()), fd, i)
      {
        if pages[i].id.fd == fd && pages[i].id.pageNo != INVALID_PAGE_ID {
          disk.WritePage(pages[i].id, pages[i].data);
          pages[i] := pages[i].(dirty := false);
        }
      }
      FlushAllKeepsInv(old(Abs()), fd, pages.Length);
      AllFlushed(old(Abs()), fd);
    }

    /** A holder of a pinned page writes through its `Page*`. */
    method WriteData(pid: PageId, data: PageData)
      requires Valid() && pid in table && Abs().At(pid).pin > 0
      modifies pages
      ensures Valid() && Abs() == Write(old(Abs()), pid, data)
    {
      WriteKeepsInv(Abs(), pid, data);
      pages[table[pid]] := pages[table[pid]].(data := data);
    }
  }
}
