/** The buffer pool as a state machine on values: what each operation of
    src/storage/buffer_pool_manager.cpp does to the frames, the page table, the free list, the
    replacer's list, the disk and the allocation counters, and the invariant they all keep. */
module Pool {
  import opened Page
  import opened Wrappers
  import opened Replacer

  const INVALID_PAGE_ID: int := -1
  const MAX_FD: int := 8192

  datatype PageId = PageId(fd: int, pageNo: int)

  datatype Frame = Frame(id: PageId, data: PageData, dirty: bool, pin: int) {
    predicate Resident() {
      id.pageNo != INVALID_PAGE_ID
    }
  }

  datatype State = State(
    frames: seq<Frame>,
    table: map<PageId, FrameId>,
    free: seq<FrameId>,
    lru: seq<FrameId>,
    disk: map<PageId, PageData>,
    counter: map<int, int>)
  {
    function At(pid: PageId): Frame
      requires pid in table && table[pid] < |frames|
    {
      frames[table[pid]]
    }

    /** A page can be read: it is in a frame or on disk. */
    predicate Backed(pid: PageId) {
      pid in table || pid in disk
    }
  }

  /** The next page number of a file; counters start at zero. */
  function Next(counter: map<int, int>, fd: int): int {
    if fd in counter then counter[fd] else 0
  }

  // Invariant.

  /** `page_table_` and the frames' valid `id_` fields are inverse injections. */
  ghost predicate TableInverse(frames: seq<Frame>, table: map<PageId, FrameId>) {
    && (forall pid :: pid in table ==>
         table[pid] < |frames| && frames[table[pid]].id == pid && frames[table[pid]].Resident())
    && (forall f :: 0 <= f < |frames| && frames[f].Resident() ==> frames[f].id in table && table[frames[f].id] == f)
  }

  /** The free list holds exactly the frames without a page, each once, clean and unpinned. */
  ghost predicate FreeExact(frames: seq<Frame>, free: seq<FrameId>) {
    && NoDuplicates(free)
    && (forall f :: f in free ==> f < |frames| && !frames[f].Resident())
    && (forall f :: 0 <= f < |frames| && !frames[f].Resident() ==>
         f in free && frames[f].pin == 0 && !frames[f].dirty)
  }

  /** The replacer holds every resident unpinned frame, never a pinned one, each once. It may also
      hold free frames: `delete_page` frees a frame without telling the replacer. */
  ghost predicate LruExact(frames: seq<Frame>, lru: seq<FrameId>) {
    && NoDuplicates(lru)
    && (forall f :: f in lru ==> f < |frames| && frames[f].pin == 0)
    && (forall f :: 0 <= f < |frames| ==> frames[f].pin >= 0)
    && (forall f :: 0 <= f < |frames| && frames[f].Resident() && frames[f].pin == 0 ==> f in lru)
  }

  /** Page numbers in use were handed out earlier by the allocation counter of their file. */
  ghost predicate Numbered(table: map<PageId, FrameId>, disk: map<PageId, PageData>, counter: map<int, int>) {
    && (forall pid :: pid in table || pid in disk ==> 0 <= pid.pageNo < Next(counter, pid.fd))
    && (forall fd :: Next(counter, fd) >= 0)
  }

  ghost predicate Inv(s: State) {
    && TableInverse(s.frames, s.table)
    && FreeExact(s.frames, s.free)
    && LruExact(s.frames, s.lru)
    && Numbered(s.table, s.disk, s.counter)
  }

  lemma TableInBounds(s: State)
    requires Inv(s)
    ensures forall pid :: pid in s.table ==> s.table[pid] < |s.frames| && s.frames[s.table[pid]].id == pid
  {
  }

  // Transitions.

  /** The constructor's state: every frame free, the replacer empty. */
  function Initial(n: nat, disk: map<PageId, PageData>, counter: map<int, int>): State {
    State(seq(n, _ => Frame(PageId(0, INVALID_PAGE_ID), Zeros(PAGE_SIZE), false, 0)), map[], seq(n, i => i), [],
        disk, counter)
  }

  /** find_victim_page: the free list first, then the oldest entry of the replacer. */
  function Take(s: State): (r: (State, Option<FrameId>))
    ensures r.1.Some? ==> r.1.value in s.free || r.1.value in s.lru
  {
    if s.free != [] then (s.(free := s.free[1..]), Some(s.free[0]))
    else if s.lru != [] then (s.(lru := s.lru[..|s.lru| - 1]), Some(s.lru[|s.lru| - 1]))
    else (s, None)
  }

  function DropPage(frames: seq<Frame>, table: map<PageId, FrameId>, f: FrameId): map<PageId, FrameId>
    requires f < |frames|
  {
    if frames[f].Resident() then table - {frames[f].id} else table
  }

  function SaveIfDirty(frames: seq<Frame>, disk: map<PageId, PageData>, f: FrameId): map<PageId, PageData>
    requires f < |frames|
  {
    if frames[f].dirty then disk[frames[f].id := frames[f].data] else disk
  }

  /** Write a dirty frame back and drop its page from the table. */
  function Evict(s: State, f: FrameId): State
    requires f < |s.frames|
  {
    s.(disk := SaveIfDirty(s.frames, s.disk, f),
       table := DropPage(s.frames, s.table, f),
       frames := s.frames[f := s.frames[f].(dirty := false)])
  }

  /** Put a page into a frame, pinned once. */
  function Install(s: State, f: FrameId, pid: PageId, data: PageData): State
    requires f < |s.frames|
  {
    s.(frames := s.frames[f := Frame(pid, data, false, 1)],
       table := s.table[pid := f],
       lru := Without(s.lru, f))
  }

  function Fetch(s: State, pid: PageId): (State, Option<FrameId>)
    requires Inv(s) && s.Backed(pid)
  {
    if pid in s.table then
      var f := s.table[pid];
      (s.(frames := s.frames[f := s.frames[f].(pin := s.frames[f].pin + 1)], lru := Without(s.lru, f)), Some(f))
    else
      var (s1, victim) := Take(s);
      if victim.None? then (s1, None)
      else
        var s2 := Evict(s1, victim.value);
        (Install(s2, victim.value, pid, s2.disk[pid]), victim)
  }

  /** What fetch_page leaves when the victim is gone and reading the page then throws; `read` is what the
      frame's bytes are by then. */
  function FailedFetch(s: State, read: PageData): State
    requires Take(s).1.Some? && Take(s).1.value < |s.frames|
  {
    var f := Take(s).1.value;
    var s2 := Evict(Take(s).0, f);
    s2.(frames := s2.frames[f := s2.frames[f].(data := read)])
  }

  function New(s: State, fd: int): (State, Option<FrameId>)
    requires Inv(s) && 0 <= fd < MAX_FD
  {
    var (s1, victim) := Take(s);
    if victim.None? then (s1, None)
    else
      var s2 := Evict(s1, victim.value);
      var s3 := s2.(counter := s2.counter[fd := Next(s2.counter, fd) + 1]);
      (Install(s3, victim.value, PageId(fd, Next(s2.counter, fd)), Zeros(PAGE_SIZE)), victim)
  }

  function Unpin(s: State, pid: PageId, isDirty: bool): (State, bool)
    requires Inv(s)
  {
    if pid !in s.table || s.At(pid).pin <= 0 then (s, false)
    else
      var f := s.table[pid];
      var frame := s.frames[f];
      (s.(frames := s.frames[f := frame.(pin := frame.pin - 1, dirty := frame.dirty || isDirty)],
          lru := if frame.pin == 1 then Released(s.lru, f, |s.frames|) else s.lru), true)
  }

  function WriteBack(s: State, f: FrameId): State
    requires f < |s.frames|
  {
    var frame := s.frames[f];
    s.(disk := s.disk[frame.id := frame.data], frames := s.frames[f := frame.(dirty := false)])
  }

  function Flush(s: State, pid: PageId): (State, bool)
    requires Inv(s)
  {
    if pid !in s.table then (s, false) else (WriteBack(s, s.table[pid]), true)
  }

  /** One turn of the loop of flush_all_pages. */
  function FlushFrame(s: State, fd: int, f: FrameId): (r: State)
    requires f < |s.frames|
    ensures |r.frames| == |s.frames|
  {
    var id := s.frames[f].id;
    if id.fd == fd && id.pageNo != INVALID_PAGE_ID then WriteBack(s, f) else s
  }

  /** flush_all_pages after looking at the first `n` frames. */
  function FlushAll(s: State, fd: int, n: nat): (r: State)
    requires n <= |s.frames|
    ensures |r.frames| == |s.frames|
  {
    if n == 0 then s else FlushFrame(FlushAll(s, fd, n - 1), fd, n - 1)
  }

  /** delete_page. The replacer is not told: the freed frame stays in its list. */
  function Delete(s: State, pid: PageId): (State, bool)
    requires Inv(s)
  {
    if pid !in s.table then (s, true)
    else if s.At(pid).pin != 0 then (s, false)
    else
      var f := s.table[pid];
      var frame := s.frames[f];
      (s.(disk := if frame.dirty then s.disk[pid := frame.data] else s.disk,
          table := s.table - {pid},
          frames := s.frames[f := Frame(PageId(pid.fd, INVALID_PAGE_ID), Zeros(PAGE_SIZE), false, 0)],
          free := s.free + [f]), true)
  }

  /** A holder of a pinned page overwrites its bytes through the `Page*` it was given. */
  function Write(s: State, pid: PageId, data: PageData): State
    requires Inv(s) && pid in s.table
  {
    s.(frames := s.frames[s.table[pid] := s.At(pid).(data := data)])
  }

  // The invariant is kept.

  lemma InitialInv(n: nat, disk: map<PageId, PageData>, counter: map<int, int>)
    requires Numbered(map[], disk, counter)
    ensures Inv(Initial(n, disk, counter))
  {
    var s := Initial(n, disk, counter);
    forall f | 0 <= f < n ensures f in s.free {
      assert s.free[f] == f;
    }
    assert LruExact(s.frames, s.lru);
    assert TableInverse(s.frames, s.table);
  }

  /** find_victim_page: a victim is never pinned, and there is none exactly when every frame holds a
      pinned page. A free frame is preferred, so an evicted one always holds a page. */
  lemma TakeVictim(s: State)
    requires Inv(s)
    ensures Take(s).1.None? <==> forall f :: 0 <= f < |s.frames| ==> s.frames[f].Resident() && s.frames[f].pin > 0
    ensures Take(s).1.Some? ==>
      var f := Take(s).1.value;
      && f < |s.frames| && s.frames[f].pin == 0
      && (s.frames[f].Resident() <==> s.free == [])
  {
    if s.free != [] {
      assert s.free[0] in s.free;
    } else if s.lru != [] {
      assert s.lru[|s.lru| - 1] in s.lru;
    }
  }

  lemma PlaceKeepsTable(frames: seq<Frame>, table: map<PageId, FrameId>, f: FrameId, frame: Frame)
    requires TableInverse(frames, table) && f < |frames|
    requires frame.Resident() && frame.id !in table
    ensures TableInverse(frames[f := frame], DropPage(frames, table, f)[frame.id := f])
  {
  }

  lemma RestWithoutFirst(free: seq<FrameId>)
    requires NoDuplicates(free) && free != []
    ensures NoDuplicates(free[1..])
    ensures forall g :: g in free[1..] <==> g in free && g != free[0]
  {
    forall g | g in free ensures g == free[0] || g in free[1..] {
      var i :| 0 <= i < |free| && free[i] == g;
      assert i > 0 ==> free[1..][i - 1] == g;
    }
  }

  lemma TakeFirstKeepsFree(frames: seq<Frame>, free: seq<FrameId>, frame: Frame)
    requires FreeExact(frames, free) && free != [] && free[0] < |frames| && frame.Resident()
    ensures FreeExact(frames[free[0] := frame], free[1..])
  {
    RestWithoutFirst(free);
    hide NoDuplicates;
  }

  lemma PlaceKeepsFree(s: State, f: FrameId, frame: Frame)
    requires Inv(s) && Take(s).1 == Some(f) && frame.Resident() && f < |s.frames|
    ensures FreeExact(s.frames[f := frame], Take(s).0.free)
  {
    if s.free != [] {
      TakeFirstKeepsFree(s.frames, s.free, frame);
    } else {
      assert forall g :: 0 <= g < |s.frames| ==> s.frames[g].Resident();
    }
  }

  lemma PlaceKeepsLru(s: State, f: FrameId, frame: Frame)
    requires Inv(s) && Take(s).1 == Some(f) && frame.pin == 1 && f < |s.frames|
    ensures LruExact(s.frames[f := frame], Without(Take(s).0.lru, f))
  {
    var lru := Take(s).0.lru;
    if s.free == [] {
      assert s.lru == lru + [f];
    }
    WithoutKeepsDistinct(lru, f);
    assert forall g :: g in s.lru <==> g in lru || (s.free == [] && g == f);
  }

  /** Write back, drop, install: what the tail shared by `fetch_page` and `new_page` leaves. */
  lemma PlaceParts(s: State, f: FrameId, pid: PageId, data: PageData, counter: map<int, int>)
    requires Take(s).1 == Some(f) && f < |s.frames|
    ensures Install(Evict(Take(s).0, f).(counter := counter), f, pid, data) ==
            State(s.frames[f := Frame(pid, data, false, 1)],
                  DropPage(s.frames, s.table, f)[pid := f],
                  Take(s).0.free, Without(Take(s).0.lru, f),
                  SaveIfDirty(s.frames, s.disk, f), counter)
  {
  }

  /** Replacing a victim's page by another page that is not resident keeps the invariant. */
  lemma PlaceKeepsInv(s: State, f: FrameId, pid: PageId, data: PageData, counter: map<int, int>)
    requires Inv(s) && Take(s).1 == Some(f) && pid !in s.table
    requires 0 <= pid.pageNo < Next(counter, pid.fd)
    requires forall fd :: Next(s.counter, fd) <= Next(counter, fd)
    ensures f < |s.frames| && Inv(Install(Evict(Take(s).0, f).(counter := counter), f, pid, data))
  {
    TakeVictim(s);
    var frame := Frame(pid, data, false, 1);
    PlaceKeepsTable(s.frames, s.table, f, frame);
    PlaceKeepsFree(s, f, frame);
    PlaceKeepsLru(s, f, frame);
    PlaceParts(s, f, pid, data, counter);
    var s3 := Install(Evict(Take(s).0, f).(counter := counter), f, pid, data);
    assert Numbered(s3.table, s3.disk, s3.counter) by {
      forall p | p in s3.table || p in s3.disk ensures 0 <= p.pageNo < Next(counter, p.fd) {
        assert p == pid || p in s.table || p in s.disk;
        assert Next(s.counter, p.fd) <= Next(counter, p.fd);
      }
      forall fd ensures Next(counter, fd) >= 0 {
        assert 0 <= Next(s.counter, fd) <= Next(counter, fd);
      }
    }
  }

  lemma FetchKeepsInv(s: State, pid: PageId)
    requires Inv(s) && s.Backed(pid)
    ensures Inv(Fetch(s, pid).0)
  {
    if pid in s.table {
      WithoutKeepsDistinct(s.lru, s.table[pid]);
    } else if Take(s).1.Some? {
      var f := Take(s).1.value;
      PlaceKeepsInv(s, f, pid, Evict(Take(s).0, f).disk[pid], s.counter);
    }
  }

  /** Fetching a page that cannot be read loses a frame if a frame could be taken: no page is in it, and the
      free list does not hold it. Nor does the replacer, unless it kept the frame from an earlier delete. */
  lemma FailedFetchLosesFrame(s: State, read: PageData)
    requires Inv(s) && Take(s).1.Some?
    ensures Take(s).1.value < |s.frames|
    ensures
      var f, s' := Take(s).1.value, FailedFetch(s, read);
      && !Inv(s') && f !in s'.free && (forall pid :: pid in s'.table ==> s'.table[pid] != f)
      && (f in s'.lru <==> s.free != [] && f in s.lru)
      && s'.disk == SaveIfDirty(s.frames, s.disk, f)
  {
    TakeVictim(s);
    var f, s' := Take(s).1.value, FailedFetch(s, read);
    if s.free != [] {
      assert s.free[0] !in s.free[1..];
    } else {
      assert s.lru == s'.lru + [f];
      assert s'.frames[f].Resident() && s'.frames[f].id !in s'.table;
    }
  }

  /** Writing the victim back does not bring a missing page to the disk. */
  lemma MissingStays(s: State, pid: PageId)
    requires Inv(s) && pid !in s.table && Take(s).1.Some?
    ensures Take(s).1.value < |s.frames|
    ensures pid in Evict(Take(s).0, Take(s).1.value).disk <==> s.Backed(pid)
  {
    TakeVictim(s);
  }

  /** What fetch_page delivers: a resident page in its frame, held once more; any other page in the victim's frame,
      clean, held once, with the bytes the disk has once the victim is written back. Of the other frames none
      moves, and without a frame nothing does. */
  lemma FetchIsPlaced(s: State, pid: PageId)
    requires Inv(s) && s.Backed(pid)
    ensures
      var (s', frame) := Fetch(s, pid);
      && |s'.frames| == |s.frames| && (frame == None <==> pid !in s.table && Take(s).1 == None)
      && (frame == None ==> s' == s)
      && (frame.Some? ==>
           var f := frame.value;
           && f < |s.frames| && pid in s'.table && s'.table[pid] == f
           && (forall g :: 0 <= g < |s.frames| && g != f ==> s'.frames[g] == s.frames[g])
           && if pid in s.table then s'.frames[f] == s.frames[f].(pin := s.frames[f].pin + 1) && s'.disk == s.disk
              else
                && pid in s.disk && s'.frames[f] == Frame(pid, s.disk[pid], false, 1)
                && s'.disk == if s.frames[f].dirty then s.disk[s.frames[f].id := s.frames[f].data] else s.disk)
  {
    TakeVictim(s);
    DirtyIsResident(s);
    hide FreeExact, LruExact, Without;
  }

  lemma DirtyIsResident(s: State)
    requires Inv(s)
    ensures forall f :: 0 <= f < |s.frames| && s.frames[f].dirty ==> s.frames[f].id in s.table
  {
  }

  /** The frame new_page returns is in range and holds the new page. */
  lemma NewIsPlaced(s: State, fd: int)
    requires Inv(s) && 0 <= fd < MAX_FD
    ensures
      var (s', frame) := New(s, fd);
      && |s'.frames| == |s.frames| && frame == Take(s).1 && (frame == None ==> s' == s)
      && (frame.Some? ==>
           var pid := PageId(fd, Next(s.counter, fd));
           && frame.value < |s.frames| && pid !in s.table && pid in s'.table && s'.table[pid] == frame.value
           && s'.frames[frame.value] == Frame(pid, Zeros(PAGE_SIZE), false, 1))
  {
    TakeVictim(s);
    hide TableInverse, FreeExact, LruExact, Zeros, SaveIfDirty, DropPage, Without;
  }

  lemma NewKeepsInv(s: State, fd: int)
    requires Inv(s) && 0 <= fd < MAX_FD
    ensures Inv(New(s, fd).0)
  {
    if Take(s).1.Some? {
      var f, pid := Take(s).1.value, PageId(fd, Next(s.counter, fd));
      var counter := s.counter[fd := Next(s.counter, fd) + 1];
      CounterGrows(s, fd);
      TakeVictim(s);
      hide Inv, Without, Install, SaveIfDirty, DropPage, Zeros;
      assert New(s, fd).0 == Install(Evict(Take(s).0, f).(counter := counter), f, pid, Zeros(PAGE_SIZE));
      hide *;
      PlaceKeepsInv(s, f, pid, Zeros(PAGE_SIZE), counter);
    }
  }

  lemma CounterGrows(s: State, fd: int)
    requires Inv(s)
    ensures
      var counter := s.counter[fd := Next(s.counter, fd) + 1];
      && 0 <= Next(s.counter, fd) < Next(counter, fd)
      && (forall fd' :: Next(s.counter, fd') <= Next(counter, fd'))
      && PageId(fd, Next(s.counter, fd)) !in s.table
  {
  }

  /** The capacity guard of the replacer never rejects a frame of the pool. */
  lemma GuardNeverRejects(s: State, f: FrameId)
    requires Inv(s) && f < |s.frames| && s.frames[f].pin > 0
    ensures Released(s.lru, f, |s.frames|) == [f] + s.lru
  {
    DistinctBelow([f] + s.lru, |s.frames|);
  }

  lemma UnpinKeepsInv(s: State, pid: PageId, isDirty: bool)
    requires Inv(s)
    ensures Inv(Unpin(s, pid, isDirty).0)
  {
    if pid in s.table && s.At(pid).pin > 0 {
      var f, was := s.table[pid], s.At(pid);
      var frame := was.(pin := was.pin - 1, dirty := was.dirty || isDirty);
      GuardNeverRejects(s, f);
      RepinKeepsLru(s.frames, s.lru, f, frame);
      hide LruExact, Released;
    }
  }

  /** A frame whose last pin goes joins the replacer's list; a frame still pinned stays out. */
  lemma RepinKeepsLru(frames: seq<Frame>, lru: seq<FrameId>, f: FrameId, frame: Frame)
    requires LruExact(frames, lru) && f < |frames| && frames[f].pin > 0 && frame.pin == frames[f].pin - 1
    requires frame.id == frames[f].id
    ensures LruExact(frames[f := frame], if frame.pin == 0 then [f] + lru else lru)
  {
  }

  lemma WriteBackKeepsInv(s: State, f: FrameId)
    requires Inv(s) && f < |s.frames| && s.frames[f].Resident()
    ensures Inv(WriteBack(s, f))
  {
  }

  lemma {:induction false} FlushAllKeepsInv(s: State, fd: int, n: nat)
    requires Inv(s) && n <= |s.frames|
    ensures Inv(FlushAll(s, fd, n))
  {
    hide Inv;
    if n == 0 {
    } else {
      FlushAllKeepsInv(s, fd, n - 1);
      var r := FlushAll(s, fd, n - 1);
      if r.frames[n - 1].Resident() {
        hide WriteBack;
        WriteBackKeepsInv(r, n - 1);
      }
    }
  }

  /** A page of the file that is in one of the first `n` frames. */
  predicate FlushedBy(s: State, fd: int, n: nat, pid: PageId) {
    pid in s.table && pid.fd == fd && s.table[pid] < n
  }

  /** The disk holds the frames' bytes for the pages that were flushed, and is otherwise as before. */
  ghost predicate Flushed(s: State, fd: int, n: nat, disk: map<PageId, PageData>)
    requires Inv(s)
  {
    forall pid ::
      if FlushedBy(s, fd, n, pid) then pid in disk && disk[pid] == s.At(pid).data
      else (pid in disk <==> pid in s.disk) && (pid in disk ==> disk[pid] == s.disk[pid])
  }

  lemma {:induction false} FlushAllKeepsFrames(s: State, fd: int, n: nat)
    requires n <= |s.frames|
    ensures FlushAll(s, fd, n).table == s.table && |FlushAll(s, fd, n).frames| == |s.frames|
    ensures forall f :: 0 <= f < |s.frames| ==>
              FlushAll(s, fd, n).frames[f].id == s.frames[f].id && FlushAll(s, fd, n).frames[f].data == s.frames[f].data
  {
    if n == 0 {
    } else {
      FlushAllKeepsFrames(s, fd, n - 1);
    }
  }

  /** flush_all_pages writes every resident page of the file, and no other page. */
  lemma {:induction false} FlushAllWrites(s: State, fd: int, n: nat)
    requires Inv(s) && n <= |s.frames|
    ensures Flushed(s, fd, n, FlushAll(s, fd, n).disk)
  {
    TableInBounds(s);
    hide Inv;
    if n == 0 {
    } else {
      hide Flushed, FlushAll;
      FlushAllWrites(s, fd, n - 1);
      FrameFlushed(s, fd, n);
      FlushNext(s, fd, n);
      FlushedNext(s, fd, n, FlushAll(s, fd, n - 1).disk);
    }
  }

  lemma FrameFlushed(s: State, fd: int, n: nat)
    requires 0 < n <= |s.frames|
    ensures
      var frame, disk := s.frames[n - 1], FlushAll(s, fd, n - 1).disk;
      FlushAll(s, fd, n).disk == if frame.id.fd == fd && frame.Resident() then disk[frame.id := frame.data] else disk
  {
    FlushAllKeepsFrames(s, fd, n - 1);
  }

  lemma FlushedNext(s: State, fd: int, n: nat, disk: map<PageId, PageData>)
    requires Inv(s) && 0 < n <= |s.frames| && Flushed(s, fd, n - 1, disk)
    ensures
      var frame := s.frames[n - 1];
      Flushed(s, fd, n, if frame.id.fd == fd && frame.Resident() then disk[frame.id := frame.data] else disk)
  {
    FlushNext(s, fd, n);
    TableInBounds(s);
    hide Inv, FlushedBy;
  }

  /** One frame more: its page joins those that are flushed, if it is one of the file's. */
  lemma FlushNext(s: State, fd: int, n: nat)
    requires Inv(s) && 0 < n <= |s.frames|
    ensures
      var id := s.frames[n - 1].id;
      forall pid :: FlushedBy(s, fd, n, pid) <==>
        FlushedBy(s, fd, n - 1, pid) || (pid == id && id.fd == fd && s.frames[n - 1].Resident())
    ensures s.frames[n - 1].Resident() ==>
              s.frames[n - 1].id in s.table && s.table[s.frames[n - 1].id] == n - 1
  {
  }

  /** After the whole loop: exactly the resident pages of the file were written. */
  lemma AllFlushed(s: State, fd: int)
    requires Inv(s)
    ensures
      var r := FlushAll(s, fd, |s.frames|);
      && r.table == s.table
      && (forall pid :: pid in s.table ==> s.table[pid] < |s.frames| && r.frames[s.table[pid]].data == s.At(pid).data)
      && forall pid ::
           if pid in s.table && pid.fd == fd then pid in r.disk && r.disk[pid] == s.At(pid).data
           else (pid in r.disk <==> pid in s.disk) && (pid in r.disk ==> r.disk[pid] == s.disk[pid])
  {
    TableInBounds(s);
    FlushAllKeepsFrames(s, fd, |s.frames|);
    FlushAllWrites(s, fd, |s.frames|);
    hide Inv, FlushAll;
  }

  lemma DeleteKeepsInv(s: State, pid: PageId)
    requires Inv(s)
    ensures Inv(Delete(s, pid).0)
  {
  }

  lemma WriteKeepsInv(s: State, pid: PageId, data: PageData)
    requires Inv(s) && pid in s.table
    ensures Inv(Write(s, pid, data))
  {
  }
}
