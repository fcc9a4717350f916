/** What calls on the buffer pool do to the pages: when a page survives, which answers are given, and that
    the page evicted is the one released longest ago
    (src/storage/buffer_pool_manager.cpp, src/replacer/lru_replacer.cpp). */
module PoolRuns {
  import opened Page
  import opened Replacer
  import opened Pool

  ghost predicate InRange(frames: seq<Frame>, table: map<PageId, FrameId>) {
    forall pid :: pid in table ==> table[pid] < |frames|
  }

  /** The contents a caller can rely on: the frame's bytes if resident, else the disk's. */
  ghost function View(frames: seq<Frame>, table: map<PageId, FrameId>, disk: map<PageId, PageData>)
    : map<PageId, PageData>
    requires InRange(frames, table)
  {
    map pid | pid in table.Keys + disk.Keys :: if pid in table then frames[table[pid]].data else disk[pid]
  }

  ghost function Store(s: State): map<PageId, PageData>
    requires Inv(s)
  {
    View(s.frames, s.table, s.disk)
  }

  /** Dropping the frame loses nothing: it will be written back, or the disk already agrees. */
  predicate Safe(frame: Frame, disk: map<PageId, PageData>) {
    frame.Resident() ==> frame.dirty || (frame.id in disk && disk[frame.id] == frame.data)
  }

  // Exactly when a page survives.

  lemma DropKeepsViewIffSafe(frames: seq<Frame>, table: map<PageId, FrameId>, disk: map<PageId, PageData>, f: FrameId)
    requires TableInverse(frames, table) && f < |frames| && (frames[f].dirty ==> frames[f].Resident())
    ensures forall pid :: pid in DropPage(frames, table, f) ==> table[pid] != f
    ensures View(frames, DropPage(frames, table, f), SaveIfDirty(frames, disk, f)) == View(frames, table, disk)
            <==> Safe(frames[f], disk)
  {
    var frame, disk' := frames[f], SaveIfDirty(frames, disk, f);
    if frame.Resident() {
      assert frame.id in table && table[frame.id] == f;
      DropKeepsOthers(frames, table, disk, disk', frame.id);
      DroppedView(frames, table, disk, disk', frame.id);
      var before, after := View(frames, table, disk), View(frames, table - {frame.id}, disk');
      hide View, TableInverse;
      assert after == before <==> frame.id in after && after[frame.id] == before[frame.id];
    }
  }

  lemma DroppedView(frames: seq<Frame>, table: map<PageId, FrameId>, disk: map<PageId, PageData>,
                    disk': map<PageId, PageData>, pid: PageId)
    requires InRange(frames, table) && pid in table
    ensures
      var before, after := View(frames, table, disk), View(frames, table - {pid}, disk');
      && pid in before && before[pid] == frames[table[pid]].data
      && (pid in after <==> pid in disk') && (pid in after ==> after[pid] == disk'[pid])
  {
  }

  /** Taking one page out of the table changes no other page's bytes. */
  lemma DropKeepsOthers(frames: seq<Frame>, table: map<PageId, FrameId>, disk: map<PageId, PageData>,
                        disk': map<PageId, PageData>, dropped: PageId)
    requires InRange(frames, table)
    requires forall pid :: pid != dropped ==> (pid in disk' <==> pid in disk)
    requires forall pid :: pid != dropped && pid in disk ==> disk'[pid] == disk[pid]
    ensures
      var before, after := View(frames, table, disk), View(frames, table - {dropped}, disk');
      && (forall pid :: pid != dropped ==> (pid in after <==> pid in before))
      && (forall pid :: pid != dropped && pid in before ==> after[pid] == before[pid])
  {
  }

  /** Frames that agree on their bytes show the same pages. */
  lemma SameBytesSameView(frames: seq<Frame>, frames': seq<Frame>, table: map<PageId, FrameId>,
                          disk: map<PageId, PageData>)
    requires InRange(frames, table) && |frames'| == |frames|
    requires forall f :: 0 <= f < |frames| ==> frames'[f].data == frames[f].data
    ensures InRange(frames', table) && View(frames', table, disk) == View(frames, table, disk)
  {
  }

  lemma OverwriteView(frames: seq<Frame>, table: map<PageId, FrameId>, disk: map<PageId, PageData>, pid: PageId,
                      data: PageData)
    requires TableInverse(frames, table) && pid in table
    ensures
      var frames' := frames[table[pid] := frames[table[pid]].(data := data)];
      InRange(frames', table) && View(frames', table, disk) == View(frames, table, disk)[pid := data]
  {
  }

  lemma WriteBackView(frames: seq<Frame>, table: map<PageId, FrameId>, disk: map<PageId, PageData>, f: FrameId)
    requires TableInverse(frames, table) && f < |frames| && frames[f].Resident()
    ensures
      var frames' := frames[f := frames[f].(dirty := false)];
      && InRange(frames', table)
      && View(frames', table, disk[frames[f].id := frames[f].data]) == View(frames, table, disk)
  {
  }

  lemma InstallView(frames: seq<Frame>, table: map<PageId, FrameId>, disk: map<PageId, PageData>,
                    f: FrameId, frame: Frame)
    requires InRange(frames, table) && f < |frames|
    requires forall pid :: pid in table ==> table[pid] != f
    ensures InRange(frames[f := frame], table[frame.id := f])
    ensures View(frames[f := frame], table[frame.id := f], disk) == View(frames, table, disk)[frame.id := frame.data]
  {
  }

  lemma FreeView(frames: seq<Frame>, table: map<PageId, FrameId>, disk: map<PageId, PageData>, f: FrameId, frame: Frame)
    requires InRange(frames, table) && f < |frames|
    requires forall pid :: pid in table ==> table[pid] != f
    ensures InRange(frames[f := frame], table)
    ensures View(frames[f := frame], table, disk) == View(frames, table, disk)
  {
  }

  lemma PlaceViewIffSafe(frames: seq<Frame>, table: map<PageId, FrameId>, disk: map<PageId, PageData>,
                         f: FrameId, frame: Frame)
    requires TableInverse(frames, table) && f < |frames| && (frames[f].dirty ==> frames[f].Resident())
    requires frame.id !in table
    requires
      var disk' := SaveIfDirty(frames, disk, f);
      if frame.id in disk' then frame.data == disk'[frame.id] else frame.id !in disk
    ensures InRange(frames[f := frame], DropPage(frames, table, f)[frame.id := f])
    ensures View(frames[f := frame], DropPage(frames, table, f)[frame.id := f], SaveIfDirty(frames, disk, f))
            == View(frames, table, disk)[frame.id := frame.data]
            <==> Safe(frames[f], disk)
  {
    var table', disk' := DropPage(frames, table, f), SaveIfDirty(frames, disk, f);
    DropKeepsViewIffSafe(frames, table, disk, f);
    InstallView(frames, table', disk', f, frame);
    var before, after := View(frames, table, disk), View(frames, table', disk');
    AddBoth(before, after, frame.id, frame.data);
  }

  lemma AddBoth(a: map<PageId, PageData>, b: map<PageId, PageData>, pid: PageId, data: PageData)
    requires (pid !in a && pid !in b) || (pid in a && pid in b && a[pid] == b[pid])
    ensures a[pid := data] == b[pid := data] <==> a == b
  {
    assert a == if pid in a then a[pid := data][pid := a[pid]] else a[pid := data] - {pid};
    assert b == if pid in b then b[pid := data][pid := b[pid]] else b[pid := data] - {pid};
  }

  /** A page miss leaves the store as it was if and only if the victim's frame is safe. */
  lemma FetchMissKeepsStoreIffVictimSafe(s: State, pid: PageId)
    requires Inv(s) && s.Backed(pid) && pid !in s.table && Take(s).1.Some?
    ensures Inv(Fetch(s, pid).0) && Take(s).1.value < |s.frames|
    ensures Store(Fetch(s, pid).0) == Store(s) <==> Safe(s.frames[Take(s).1.value], s.disk)
  {
    hide View, Safe, Fetch, Take, DropPage, FreeExact, LruExact, Numbered;
    FetchKeepsInv(s, pid);
    TakeVictim(s);
    VictimClean(s);
    FetchMissParts(s, pid);
    var f := Take(s).1.value;
    var data := Fetch(s, pid).0.disk[pid];
    FetchMissSees(s, pid);
    hide Store, Inv, SaveIfDirty;
    PlaceViewIffSafe(s.frames, s.table, s.disk, f, Frame(pid, data, false, 1));
    StoreIsView(s);
    StoreIsView(Fetch(s, pid).0);
  }

  lemma StoreIsView(s: State)
    requires Inv(s)
    ensures InRange(s.frames, s.table) && Store(s) == View(s.frames, s.table, s.disk)
  {
  }

  /** Only a frame with a page is dirty. */
  lemma VictimClean(s: State)
    requires Inv(s)
    ensures forall f :: 0 <= f < |s.frames| && s.frames[f].dirty ==> s.frames[f].Resident()
  {
  }

  /** A page miss reads the stored bytes. */
  lemma FetchMissSees(s: State, pid: PageId)
    requires Inv(s) && s.Backed(pid) && pid !in s.table && Take(s).1.Some?
    ensures pid in Fetch(s, pid).0.disk && Store(s)[pid := Fetch(s, pid).0.disk[pid]] == Store(s)
  {
    FetchMissParts(s, pid);
  }

  /** The parts of the state that a page miss leaves. */
  lemma FetchMissParts(s: State, pid: PageId)
    requires Inv(s) && s.Backed(pid) && pid !in s.table && Take(s).1.Some?
    ensures
      var f, s' := Take(s).1.value, Fetch(s, pid).0;
      && f < |s.frames| && s'.disk == SaveIfDirty(s.frames, s.disk, f)
      && pid in s'.disk && s'.frames == s.frames[f := Frame(pid, s'.disk[pid], false, 1)]
      && s'.table == DropPage(s.frames, s.table, f)[pid := f]
  {
    hide TableInverse, FreeExact, LruExact, DropPage, Without;
    TakeVictim(s);
  }

  /** `new_page` only adds a zeroed page to the store if and only if the victim's frame is safe. */
  lemma NewKeepsStoreIffVictimSafe(s: State, fd: int)
    requires Inv(s) && 0 <= fd < MAX_FD && Take(s).1.Some?
    ensures Inv(New(s, fd).0) && Take(s).1.value < |s.frames|
    ensures !s.Backed(PageId(fd, Next(s.counter, fd)))
    ensures Store(New(s, fd).0) == Store(s)[PageId(fd, Next(s.counter, fd)) := Zeros(PAGE_SIZE)]
            <==> Safe(s.frames[Take(s).1.value], s.disk)
  {
    NewKeepsInv(s, fd);
    TakeVictim(s);
    var f, pid := Take(s).1.value, PageId(fd, Next(s.counter, fd));
    PlaceParts(s, f, pid, Zeros(PAGE_SIZE), s.counter[fd := Next(s.counter, fd) + 1]);
    PlaceViewIffSafe(s.frames, s.table, s.disk, f, Frame(pid, Zeros(PAGE_SIZE), false, 1));
  }

  /** A successful `delete_page` keeps the page's bytes on disk if and only if its frame is safe. */
  lemma DeleteKeepsStoreIffSafe(s: State, pid: PageId)
    requires Inv(s) && pid in s.table && s.At(pid).pin == 0
    ensures Inv(Delete(s, pid).0)
    ensures Store(Delete(s, pid).0) == Store(s) <==> Safe(s.At(pid), s.disk)
  {
    DeleteKeepsInv(s, pid);
    var f := s.table[pid];
    DropKeepsViewIffSafe(s.frames, s.table, s.disk, f);
    var after := Delete(s, pid).0;
    FreeView(s.frames, after.table, after.disk, f, after.frames[f]);
  }

  // Calls and the callers' discipline.

  datatype Call =
    | FetchPage(pid: PageId)
    | NewPage(fd: int)
    | UnpinPage(pid: PageId, isDirty: bool)
    | FlushPage(pid: PageId)
    | FlushAllPages(fd: int)
    | DeletePage(pid: PageId)
    | Overwrite(pid: PageId, data: PageData)

  datatype Answer = Got(pid: PageId, data: PageData) | NoFrame | Flag(ok: bool) | Done

  /** What a call needs: a fetched page exists, a file handle is in range, a writer holds a pin. */
  predicate Allowed(s: State, call: Call)
    requires Inv(s)
  {
    match call
    case FetchPage(pid) => s.Backed(pid)
    case NewPage(fd) => 0 <= fd < MAX_FD
    case Overwrite(pid, _) => pid in s.table && s.At(pid).pin > 0
    case _ => true
  }

  function Apply(s: State, call: Call): (State, Answer)
    requires Inv(s) && Allowed(s, call)
  {
    match call
    case FetchPage(pid) =>
      var (s', f) := Fetch(s, pid);
      (s', if f.Some? && f.value < |s'.frames| then Got(s'.frames[f.value].id, s'.frames[f.value].data) else NoFrame)
    case NewPage(fd) =>
      var (s', f) := New(s, fd);
      (s', if f.Some? && f.value < |s'.frames| then Got(s'.frames[f.value].id, s'.frames[f.value].data) else NoFrame)
    case UnpinPage(pid, isDirty) => var (s', ok) := Unpin(s, pid, isDirty); (s', Flag(ok))
    case FlushPage(pid) => var (s', ok) := Flush(s, pid); (s', Flag(ok))
    case FlushAllPages(fd) => (FlushAll(s, fd, |s.frames|), Done)
    case DeletePage(pid) => var (s', ok) := Delete(s, pid); (s', Flag(ok))
    case Overwrite(pid, data) => (Write(s, pid, data), Done)
  }

  lemma ApplyKeepsInv(s: State, call: Call)
    requires Inv(s) && Allowed(s, call)
    ensures Inv(Apply(s, call).0)
  {
    match call
    case FetchPage(pid) => FetchKeepsInv(s, pid);
    case NewPage(fd) => NewKeepsInv(s, fd);
    case UnpinPage(pid, isDirty) => UnpinKeepsInv(s, pid, isDirty);
    case FlushPage(pid) => if pid in s.table { WriteBackKeepsInv(s, s.table[pid]); }
    case FlushAllPages(fd) => FlushAllKeepsInv(s, fd, |s.frames|);
    case DeletePage(pid) => DeleteKeepsInv(s, pid);
    case Overwrite(pid, data) => WriteKeepsInv(s, pid, data);
  }

  /** The pages of other files. */
  function OtherThan(owed: set<PageId>, fd: int): set<PageId> {
    set pid | pid in owed && pid.fd != fd
  }

  /** The pages whose current bytes nobody has reported as dirty or flushed yet: written to, or fresh from
      `new_page`, since the last unpin with `is_dirty` set and the last flush. */
  function Owed(s: State, owed: set<PageId>, call: Call): set<PageId>
    requires Inv(s) && Allowed(s, call)
  {
    match call
    case NewPage(_) => (var a := Apply(s, call).1; if a.Got? then owed + {a.pid} else owed)
    case Overwrite(pid, _) => owed + {pid}
    case UnpinPage(pid, isDirty) => if isDirty then owed - {pid} else owed
    case FlushPage(pid) => owed - {pid}
    case FlushAllPages(fd) => OtherThan(owed, fd)
    case _ => owed
  }

  /** The last holder does not let go of a page with unreported bytes. */
  predicate Disciplined(s: State, owed: set<PageId>, call: Call)
    requires Inv(s)
  {
    call.UnpinPage? && !call.isDirty && call.pid in s.table && s.At(call.pid).pin == 1 ==> call.pid !in owed
  }

  ghost predicate Held(frames: seq<Frame>, table: map<PageId, FrameId>, owed: set<PageId>) {
    forall pid :: pid in owed ==> pid in table && table[pid] < |frames| && frames[table[pid]].pin > 0
  }

  ghost predicate Covered(frames: seq<Frame>, disk: map<PageId, PageData>, owed: set<PageId>) {
    forall f :: 0 <= f < |frames| && frames[f].id !in owed ==> Safe(frames[f], disk)
  }

  /** Unreported pages are pinned, and every other frame is safe to drop. */
  ghost predicate Ledger(s: State, owed: set<PageId>) {
    Held(s.frames, s.table, owed) && Covered(s.frames, s.disk, owed)
  }

  /** A frame whose page and bytes stay: its pin count or its dirty flag moves. */
  lemma RepinKeepsLedger(frames: seq<Frame>, table: map<PageId, FrameId>, disk: map<PageId, PageData>,
                         owed: set<PageId>, f: FrameId, frame: Frame, owed': set<PageId>)
    requires TableInverse(frames, table) && f < |frames|
    requires Held(frames, table, owed) && Covered(frames, disk, owed)
    requires frame.id == frames[f].id && frame.data == frames[f].data && (frames[f].dirty ==> frame.dirty)
    requires owed' == owed || (owed' == owed - {frame.id} && frame.dirty)
    requires frame.pin > 0 || frame.id !in owed'
    ensures Held(frames[f := frame], table, owed') && Covered(frames[f := frame], disk, owed')
  {
  }

  lemma WriteBackKeepsLedger(frames: seq<Frame>, table: map<PageId, FrameId>, disk: map<PageId, PageData>,
                             owed: set<PageId>, f: FrameId)
    requires TableInverse(frames, table) && f < |frames| && frames[f].Resident()
    requires Held(frames, table, owed) && Covered(frames, disk, owed)
    ensures Held(frames[f := frames[f].(dirty := false)], table, owed - {frames[f].id})
    ensures Covered(frames[f := frames[f].(dirty := false)], disk[frames[f].id := frames[f].data],
                    owed - {frames[f].id})
  {
  }

  lemma DeleteKeepsLedger(frames: seq<Frame>, table: map<PageId, FrameId>, disk: map<PageId, PageData>,
                          owed: set<PageId>, f: FrameId, frame: Frame)
    requires TableInverse(frames, table) && f < |frames| && frames[f].Resident() && frames[f].pin == 0
    requires Held(frames, table, owed) && Covered(frames, disk, owed) && !frame.Resident()
    ensures Held(frames[f := frame], DropPage(frames, table, f), owed)
    ensures Covered(frames[f := frame], SaveIfDirty(frames, disk, f), owed)
  {
    forall g | 0 <= g < |frames| && g != f && frames[g].id !in owed
      ensures Safe(frames[g], SaveIfDirty(frames, disk, f))
    {
      assert Safe(frames[g], disk);
    }
  }

  lemma PlaceKeepsLedger(frames: seq<Frame>, table: map<PageId, FrameId>, disk: map<PageId, PageData>,
                         owed: set<PageId>, f: FrameId, frame: Frame, owed': set<PageId>)
    requires TableInverse(frames, table) && f < |frames| && frames[f].pin == 0
    requires frames[f].dirty ==> frames[f].Resident()
    requires Held(frames, table, owed) && Covered(frames, disk, owed)
    requires frame.id !in table && frame.pin > 0 && owed <= owed' <= owed + {frame.id}
    requires frame.id in owed' || Safe(frame, SaveIfDirty(frames, disk, f))
    ensures Held(frames[f := frame], DropPage(frames, table, f)[frame.id := f], owed')
    ensures Covered(frames[f := frame], SaveIfDirty(frames, disk, f), owed')
  {
    var disk' := SaveIfDirty(frames, disk, f);
    forall g | 0 <= g < |frames| && g != f && frames[g].id !in owed' ensures Safe(frames[g], disk') {
      assert Safe(frames[g], disk);
      if frames[g].Resident() && frames[f].dirty {
        assert table[frames[f].id] == f && table[frames[g].id] == g;
      }
    }
  }

  // The store under each call.

  /** What a call does to the pages and how it may answer about them. */
  ghost predicate StoreLegal(pages: map<PageId, PageData>, call: Call, answer: Answer) {
    match call
    case FetchPage(pid) => answer == NoFrame || (pid in pages && answer == Got(pid, pages[pid]))
    case NewPage(fd) =>
      || answer == NoFrame
      || (answer.Got? && answer.pid.fd == fd && answer.pid !in pages && answer.data == Zeros(PAGE_SIZE))
    case _ => true
  }

  ghost function StoreNext(pages: map<PageId, PageData>, call: Call, answer: Answer): map<PageId, PageData> {
    match call
    case NewPage(_) => if answer.Got? then pages[answer.pid := Zeros(PAGE_SIZE)] else pages
    case Overwrite(pid, data) => pages[pid := data]
    case _ => pages
  }

  lemma WriteBackInStep(s: State, owed: set<PageId>, f: FrameId)
    requires Inv(s) && Ledger(s, owed) && f < |s.frames| && s.frames[f].Resident()
    ensures Inv(WriteBack(s, f)) && Store(WriteBack(s, f)) == Store(s)
    ensures Ledger(WriteBack(s, f), owed - {s.frames[f].id})
  {
    WriteBackKeepsInv(s, f);
    WriteBackView(s.frames, s.table, s.disk, f);
    WriteBackKeepsLedger(s.frames, s.table, s.disk, owed, f);
  }

  /** What is still unreported once the frame has been passed. */
  function OwedPast(owed: set<PageId>, fd: int, frame: Frame): set<PageId> {
    if frame.id.fd == fd && frame.Resident() then owed - {frame.id} else owed
  }

  lemma FlushFrameInStep(s: State, owed: set<PageId>, fd: int, f: FrameId)
    requires Inv(s) && Ledger(s, owed) && f < |s.frames|
    ensures
      var r := FlushFrame(s, fd, f);
      Inv(r) && Store(r) == Store(s) && Ledger(r, OwedPast(owed, fd, s.frames[f]))
  {
    if s.frames[f].Resident() {
      WriteBackInStep(s, owed, f);
    }
  }

  /** What is still unreported once the first `n` frames have been passed. */
  function OwedAfter(frames: seq<Frame>, owed: set<PageId>, fd: int, n: nat): set<PageId>
    requires n <= |frames|
  {
    if n == 0 then owed else OwedPast(OwedAfter(frames, owed, fd, n - 1), fd, frames[n - 1])
  }

  lemma {:induction false} FlushAllKeepsStore(s: State, fd: int, n: nat, owed: set<PageId>)
    requires Inv(s) && Ledger(s, owed) && n <= |s.frames|
    ensures
      var r := FlushAll(s, fd, n);
      Inv(r) && Store(r) == Store(s) && Ledger(r, OwedAfter(s.frames, owed, fd, n))
  {
    hide Inv, Ledger, OwedPast, FlushFrame;
    if n == 0 {
    } else {
      FlushAllKeepsStore(s, fd, n - 1, owed);
      FlushAllKeepsFrames(s, fd, n - 1);
      FlushFrameInStep(FlushAll(s, fd, n - 1), OwedAfter(s.frames, owed, fd, n - 1), fd, n - 1);
      SameIdOwed(OwedAfter(s.frames, owed, fd, n - 1), fd, s.frames[n - 1], FlushAll(s, fd, n - 1).frames[n - 1]);
    }
  }

  lemma SameIdOwed(owed: set<PageId>, fd: int, frame: Frame, frame': Frame)
    requires frame'.id == frame.id
    ensures OwedPast(owed, fd, frame') == OwedPast(owed, fd, frame)
  {
  }

  lemma {:induction false} OwedAfterIs(frames: seq<Frame>, owed: set<PageId>, fd: int, n: nat, pid: PageId)
    requires n <= |frames|
    ensures pid in OwedAfter(frames, owed, fd, n) <==>
            pid in owed && !(pid.fd == fd && exists f :: 0 <= f < n && frames[f].id == pid && frames[f].Resident())
  {
    if n == 0 {
    } else {
      OwedAfterIs(frames, owed, fd, n - 1, pid);
    }
  }

  /** After the whole loop nothing of the file is unreported. */
  lemma AllReported(s: State, owed: set<PageId>, fd: int)
    requires Inv(s) && Ledger(s, owed)
    ensures OwedAfter(s.frames, owed, fd, |s.frames|) == OtherThan(owed, fd)
  {
    forall pid ensures pid in OwedAfter(s.frames, owed, fd, |s.frames|) <==> pid in OtherThan(owed, fd) {
      OwedAfterIs(s.frames, owed, fd, |s.frames|, pid);
      if pid in owed {
        assert s.frames[s.table[pid]].id == pid;
      }
    }
  }

  // One lemma per call: under the discipline the pool delivers the stored bytes and loses none.

  ghost predicate InStep(s: State, owed: set<PageId>, call: Call)
    requires Inv(s) && Allowed(s, call)
  {
    var (s', answer) := Apply(s, call);
    && Inv(s') && Ledger(s', Owed(s, owed, call))
    && StoreLegal(Store(s), call, answer) && Store(s') == StoreNext(Store(s), call, answer)
  }

  lemma FetchHitInStep(s: State, owed: set<PageId>, pid: PageId)
    requires Inv(s) && Ledger(s, owed) && pid in s.table
    ensures InStep(s, owed, FetchPage(pid))
  {
    FetchKeepsInv(s, pid);
    var s', f := Fetch(s, pid).0, s.table[pid];
    SameBytesSameView(s.frames, s'.frames, s.table, s.disk);
    RepinKeepsLedger(s.frames, s.table, s.disk, owed, f, s'.frames[f], owed);
  }

  lemma FetchMissKeepsLedger(s: State, owed: set<PageId>, pid: PageId)
    requires Inv(s) && Ledger(s, owed) && s.Backed(pid) && pid !in s.table && Take(s).1.Some?
    ensures Ledger(Fetch(s, pid).0, owed)
  {
    TakeVictim(s);
    var f := Take(s).1.value;
    var data := SaveIfDirty(s.frames, s.disk, f)[pid];
    PlaceParts(s, f, pid, data, s.counter);
    PlaceKeepsLedger(s.frames, s.table, s.disk, owed, f, Frame(pid, data, false, 1), owed);
  }

  /** The answer to a page miss is the page's stored bytes: the victim's write-back comes first. */
  lemma FetchMissAnswer(s: State, pid: PageId)
    requires Inv(s) && s.Backed(pid) && pid !in s.table && Take(s).1.Some?
    requires Safe(s.frames[Take(s).1.value], s.disk)
    ensures pid in Store(s) && Apply(s, FetchPage(pid)).1 == Got(pid, Store(s)[pid])
  {
    TakeVictim(s);
    var f := Take(s).1.value;
    PlaceParts(s, f, pid, SaveIfDirty(s.frames, s.disk, f)[pid], s.counter);
  }

  lemma FetchMissInStep(s: State, owed: set<PageId>, pid: PageId)
    requires Inv(s) && Ledger(s, owed) && s.Backed(pid) && pid !in s.table
    ensures InStep(s, owed, FetchPage(pid))
  {
    hide Inv;
    FetchKeepsInv(s, pid);
    if Take(s).1.Some? {
      VictimSafe(s, owed);
      FetchMissKeepsStoreIffVictimSafe(s, pid);
      FetchMissKeepsLedger(s, owed, pid);
      FetchMissAnswer(s, pid);
    }
  }

  lemma VictimSafe(s: State, owed: set<PageId>)
    requires Inv(s) && Ledger(s, owed) && Take(s).1.Some?
    ensures Take(s).1.value < |s.frames| && Safe(s.frames[Take(s).1.value], s.disk)
  {
    TakeVictim(s);
    var f := Take(s).1.value;
    if s.frames[f].Resident() {
      assert s.At(s.frames[f].id) == s.frames[f];
    }
  }

  lemma NewKeepsLedger(s: State, owed: set<PageId>, fd: int)
    requires Inv(s) && Ledger(s, owed) && 0 <= fd < MAX_FD && Take(s).1.Some?
    ensures Ledger(New(s, fd).0, owed + {PageId(fd, Next(s.counter, fd))})
    ensures Apply(s, NewPage(fd)).1 == Got(PageId(fd, Next(s.counter, fd)), Zeros(PAGE_SIZE))
  {
    TakeVictim(s);
    var f, pid := Take(s).1.value, PageId(fd, Next(s.counter, fd));
    PlaceParts(s, f, pid, Zeros(PAGE_SIZE), s.counter[fd := Next(s.counter, fd) + 1]);
    PlaceKeepsLedger(s.frames, s.table, s.disk, owed, f, Frame(pid, Zeros(PAGE_SIZE), false, 1), owed + {pid});
  }

  lemma NewInStep(s: State, owed: set<PageId>, fd: int)
    requires Inv(s) && Ledger(s, owed) && Allowed(s, NewPage(fd))
    ensures InStep(s, owed, NewPage(fd))
  {
    hide Inv;
    NewKeepsInv(s, fd);
    if Take(s).1.Some? {
      VictimSafe(s, owed);
      NewKeepsStoreIffVictimSafe(s, fd);
      NewKeepsLedger(s, owed, fd);
    }
  }

  lemma UnpinKeepsLedger(s: State, owed: set<PageId>, call: Call)
    requires call.UnpinPage? && call.pid in s.table
    requires Inv(s) && Ledger(s, owed) && s.At(call.pid).pin > 0 && Disciplined(s, owed, call)
    ensures Ledger(Unpin(s, call.pid, call.isDirty).0, Owed(s, owed, call))
  {
    var f := s.table[call.pid];
    var frame := s.frames[f].(pin := s.frames[f].pin - 1, dirty := s.frames[f].dirty || call.isDirty);
    assert Unpin(s, call.pid, call.isDirty).0.frames == s.frames[f := frame];
    RepinKeepsLedger(s.frames, s.table, s.disk, owed, f, frame, Owed(s, owed, call));
  }

  lemma UnpinKeepsStore(s: State, pid: PageId, isDirty: bool)
    requires Inv(s) && Inv(Unpin(s, pid, isDirty).0)
    ensures Store(Unpin(s, pid, isDirty).0) == Store(s)
  {
    SameBytesSameView(s.frames, Unpin(s, pid, isDirty).0.frames, s.table, s.disk);
  }

  lemma UnpinInStep(s: State, owed: set<PageId>, call: Call)
    requires call.UnpinPage?
    requires Inv(s) && Ledger(s, owed) && Disciplined(s, owed, call)
    ensures InStep(s, owed, call)
  {
    hide Inv;
    TableInBounds(s);
    UnpinKeepsInv(s, call.pid, call.isDirty);
    if call.pid in s.table && s.At(call.pid).pin > 0 {
      UnpinKeepsLedger(s, owed, call);
    }
    UnpinKeepsStore(s, call.pid, call.isDirty);
  }

  lemma FlushInStep(s: State, owed: set<PageId>, call: Call)
    requires call.FlushPage?
    requires Inv(s) && Ledger(s, owed)
    ensures InStep(s, owed, call)
  {
    if call.pid in s.table {
      WriteBackInStep(s, owed, s.table[call.pid]);
    } else {
      assert owed - {call.pid} == owed;
    }
  }

  lemma FlushAllInStep(s: State, owed: set<PageId>, call: Call)
    requires call.FlushAllPages?
    requires Inv(s) && Ledger(s, owed)
    ensures InStep(s, owed, call)
  {
    FlushAllKeepsStore(s, call.fd, |s.frames|, owed);
    AllReported(s, owed, call.fd);
    hide Inv, Ledger, FlushAll;
  }

  /** A page at rest is safe to drop. */
  lemma ResidentSafe(s: State, owed: set<PageId>, pid: PageId)
    requires Inv(s) && Ledger(s, owed) && pid in s.table && s.At(pid).pin == 0
    ensures Safe(s.At(pid), s.disk)
  {
  }

  lemma DeletedIs(s: State, pid: PageId)
    requires Inv(s) && pid in s.table && s.At(pid).pin == 0
    ensures
      var f, s' := s.table[pid], Delete(s, pid).0;
      && f < |s.frames| && s.frames[f].Resident() && Delete(s, pid).1
      && s'.frames == s.frames[f := Frame(PageId(pid.fd, INVALID_PAGE_ID), Zeros(PAGE_SIZE), false, 0)]
      && s'.table == DropPage(s.frames, s.table, f) && s'.disk == SaveIfDirty(s.frames, s.disk, f)
  {
  }

  lemma DeleteInStep(s: State, owed: set<PageId>, pid: PageId)
    requires Inv(s) && Ledger(s, owed)
    ensures InStep(s, owed, DeletePage(pid))
  {
    DeleteKeepsInv(s, pid);
    if pid in s.table && s.At(pid).pin == 0 {
      ResidentSafe(s, owed, pid);
      DeleteKeepsStoreIffSafe(s, pid);
      DeletedIs(s, pid);
      hide Delete, Store, FreeExact, LruExact, Numbered, Held, Covered, Safe;
      DeleteKeepsLedger(s.frames, s.table, s.disk, owed, s.table[pid],
                        Frame(PageId(pid.fd, INVALID_PAGE_ID), Zeros(PAGE_SIZE), false, 0));
    }
  }

  lemma OverwriteKeepsLedger(s: State, owed: set<PageId>, pid: PageId, data: PageData)
    requires Inv(s) && Ledger(s, owed) && pid in s.table && s.At(pid).pin > 0
    ensures Ledger(Write(s, pid, data), owed + {pid})
  {
  }

  lemma OverwriteInStep(s: State, owed: set<PageId>, pid: PageId, data: PageData)
    requires Inv(s) && Ledger(s, owed) && Allowed(s, Overwrite(pid, data))
    ensures InStep(s, owed, Overwrite(pid, data))
  {
    WriteKeepsInv(s, pid, data);
    OverwriteKeepsLedger(s, owed, pid, data);
    OverwriteView(s.frames, s.table, s.disk, pid, data);
  }

  lemma StepKeepsStore(s: State, owed: set<PageId>, call: Call)
    requires Inv(s) && Ledger(s, owed) && Allowed(s, call) && Disciplined(s, owed, call)
    ensures InStep(s, owed, call)
  {
    match call
    case FetchPage(pid) =>
      if pid in s.table { FetchHitInStep(s, owed, pid); } else { FetchMissInStep(s, owed, pid); }
    case NewPage(fd) => NewInStep(s, owed, fd);
    case UnpinPage(pid, isDirty) => UnpinInStep(s, owed, call);
    case FlushPage(pid) => FlushInStep(s, owed, call);
    case FlushAllPages(fd) => FlushAllInStep(s, owed, call);
    case DeletePage(pid) => DeleteInStep(s, owed, pid);
    case Overwrite(pid, data) => OverwriteInStep(s, owed, pid, data);
  }

  // Which page is evicted.

  /** The time each frame's pin count last fell to zero, with the current call at time `now`. */
  function Stamp(s: State, call: Call, now: nat, last: map<FrameId, nat>): map<FrameId, nat>
    requires Inv(s)
  {
    if call.UnpinPage? && call.pid in s.table && s.At(call.pid).pin == 1 then last[s.table[call.pid] := now] else last
  }

  /** The replacer's list is sorted by release time, latest first. */
  ghost predicate ByAge(lru: seq<FrameId>, last: map<FrameId, nat>, now: nat) {
    && (forall i :: 0 <= i < |lru| ==> lru[i] in last && last[lru[i]] < now)
    && (forall i, j :: 0 <= i < j < |lru| ==> last[lru[i]] > last[lru[j]])
  }

  lemma WithoutKeepsAge(lru: seq<FrameId>, f: FrameId, last: map<FrameId, nat>, now: nat)
    requires NoDuplicates(lru) && ByAge(lru, last, now)
    ensures ByAge(Without(lru, f), last, now)
  {
    hide *;
    if f in lru {
      var k :| 0 <= k < |lru| && lru[k] == f;
      RemoveAt(lru, k);
      WithoutSplit(lru[..k], f, lru[k + 1..]);
      SkipKeepsAge(lru, k, last, now);
    } else {
      WithoutAbsent(lru, f);
    }
  }

  lemma SkipKeepsAge(lru: seq<FrameId>, k: nat, last: map<FrameId, nat>, now: nat)
    requires ByAge(lru, last, now) && k < |lru|
    ensures ByAge(lru[..k] + lru[k + 1..], last, now)
  {
    var rest := lru[..k] + lru[k + 1..];
    assert forall i :: 0 <= i < |rest| ==> rest[i] == lru[if i < k then i else i + 1];
  }

  lemma PlaceKeepsAge(s: State, last: map<FrameId, nat>, now: nat)
    requires NoDuplicates(s.lru) && ByAge(s.lru, last, now) && Take(s).1.Some?
    ensures ByAge(Without(Take(s).0.lru, Take(s).1.value), last, now)
  {
    WithoutKeepsAge(Take(s).0.lru, Take(s).1.value, last, now);
  }

  lemma ReleaseKeepsAge(lru: seq<FrameId>, f: FrameId, last: map<FrameId, nat>, now: nat)
    requires f !in lru && ByAge(lru, last, now)
    ensures ByAge([f] + lru, last[f := now], now + 1)
  {
  }

  lemma ApplyKeepsAge(s: State, call: Call, last: map<FrameId, nat>, now: nat)
    requires Inv(s) && Allowed(s, call) && ByAge(s.lru, last, now)
    ensures ByAge(Apply(s, call).0.lru, Stamp(s, call, now, last), now + 1)
  {
    match call
    case FetchPage(pid) =>
      if pid in s.table {
        WithoutKeepsAge(s.lru, s.table[pid], last, now);
      } else if Take(s).1.Some? {
        PlaceKeepsAge(s, last, now);
      }
    case NewPage(fd) =>
      if Take(s).1.Some? {
        PlaceKeepsAge(s, last, now);
      }
    case UnpinPage(pid, _) =>
      if pid in s.table && s.At(pid).pin == 1 {
        GuardNeverRejects(s, s.table[pid]);
        ReleaseKeepsAge(s.lru, s.table[pid], last, now);
      }
    case FlushAllPages(fd) => FlushAllKeepsLru(s, fd, |s.frames|);
    case _ =>
  }

  lemma {:induction false} FlushAllKeepsLru(s: State, fd: int, n: nat)
    requires n <= |s.frames|
    ensures FlushAll(s, fd, n).lru == s.lru
  {
    if n == 0 {
    } else {
      FlushAllKeepsLru(s, fd, n - 1);
    }
  }

  /** When there is no free frame, the frame taken is the unpinned one released longest ago. */
  lemma EvictsLeastRecentlyReleased(s: State, last: map<FrameId, nat>, now: nat)
    requires Inv(s) && ByAge(s.lru, last, now)
    requires s.free == [] && Take(s).1.Some?
    ensures
      var f := Take(s).1.value;
      && f < |s.frames| && f in last && s.frames[f].Resident() && s.frames[f].pin == 0
      && forall g :: 0 <= g < |s.frames| && g != f && s.frames[g].pin == 0 ==> g in last && last[f] < last[g]
  {
    TakeVictim(s);
    var f := Take(s).1.value;
    forall g | 0 <= g < |s.frames| && g != f && s.frames[g].pin == 0 ensures g in last && last[f] < last[g] {
      assert g in s.lru;
      var i :| 0 <= i < |s.lru| && s.lru[i] == g;
    }
  }
}
