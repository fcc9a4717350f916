/** The buffer pool as its callers see it: over every run of calls it is a flat map from page id to bytes,
    with pin counts and page counters (src/storage/buffer_pool_manager.cpp). */
module PoolFlat {
  import opened Page
  import opened Wrappers
  import opened Replacer
  import opened Pool
  import opened PoolRuns

  // Pins.

  /** The pages held, with their pin counts. */
  ghost function PinsOf(frames: seq<Frame>, table: map<PageId, FrameId>): map<PageId, int>
    requires InRange(frames, table)
  {
    map pid | pid in table && frames[table[pid]].pin > 0 :: frames[table[pid]].pin
  }

  lemma SamePins(frames: seq<Frame>, frames': seq<Frame>, table: map<PageId, FrameId>)
    requires InRange(frames, table) && |frames'| == |frames|
    requires forall f :: 0 <= f < |frames| ==> frames'[f].pin == frames[f].pin
    ensures InRange(frames', table) && PinsOf(frames', table) == PinsOf(frames, table)
  {
  }

  /** One resident frame's pin count moves. */
  lemma RepinPins(frames: seq<Frame>, table: map<PageId, FrameId>, pid: PageId, frame: Frame)
    requires TableInverse(frames, table) && pid in table && frame.id == pid
    ensures
      var frames' := frames[table[pid] := frame];
      && InRange(frames', table)
      && PinsOf(frames', table)
         == if frame.pin > 0 then PinsOf(frames, table)[pid := frame.pin] else PinsOf(frames, table) - {pid}
  {
    var frames' := frames[table[pid] := frame];
    assert forall p :: p in table && p != pid ==> table[p] != table[pid];
    assert forall p :: p in table && p != pid ==> frames'[table[p]] == frames[table[p]];
  }

  /** A new page takes an unpinned frame. */
  lemma PlacePins(frames: seq<Frame>, table: map<PageId, FrameId>, f: FrameId, frame: Frame)
    requires TableInverse(frames, table) && f < |frames| && frames[f].pin == 0
    requires frame.pin > 0 && frame.id !in table
    ensures
      var frames', table' := frames[f := frame], DropPage(frames, table, f)[frame.id := f];
      InRange(frames', table') && PinsOf(frames', table') == PinsOf(frames, table)[frame.id := frame.pin]
  {
    var frames', table' := frames[f := frame], DropPage(frames, table, f)[frame.id := f];
    assert forall p :: p in DropPage(frames, table, f) ==> table[p] != f;
    assert forall p :: p in table && table[p] != f ==> p in table' && frames'[table'[p]] == frames[table[p]];
  }

  /** An unpinned page leaves. */
  lemma DropPins(frames: seq<Frame>, table: map<PageId, FrameId>, pid: PageId, frame: Frame)
    requires TableInverse(frames, table) && pid in table && frames[table[pid]].pin == 0
    ensures
      var frames', table' := frames[table[pid] := frame], table - {pid};
      InRange(frames', table') && PinsOf(frames', table') == PinsOf(frames, table)
  {
    assert forall p :: p in table && p != pid ==> table[p] != table[pid];
  }

  // Every frame is pinned exactly when as many pages are pinned as there are frames.

  ghost function PinnedFrames(frames: seq<Frame>): set<int> {
    set f | 0 <= f < |frames| && frames[f].Resident() && frames[f].pin > 0
  }

  ghost function Indices(n: nat): (r: set<int>)
    ensures |r| == n && forall f :: f in r <==> 0 <= f < n
  {
    if n == 0 then {} else Indices(n - 1) + {n - 1}
  }

  lemma {:induction false} ImageSize(pids: set<PageId>, table: map<PageId, FrameId>)
    requires pids <= table.Keys
    requires forall p, q :: p in pids && q in pids && p != q ==> table[p] != table[q]
    ensures |set p | p in pids :: table[p]| == |pids|
  {
    var image: set<int> := set p | p in pids :: table[p];
    if pids == {} {
      assert image == {};
    } else {
      var p :| p in pids;
      ImageSize(pids - {p}, table);
      assert image == (set q | q in pids - {p} :: table[q]) + {table[p]};
    }
  }

  lemma PinsCountFrames(frames: seq<Frame>, table: map<PageId, FrameId>)
    requires TableInverse(frames, table)
    ensures |PinsOf(frames, table)| == |PinnedFrames(frames)|
  {
    var pins, fs := PinsOf(frames, table), PinnedFrames(frames);
    ImageSize(pins.Keys, table);
    assert fs == set p | p in pins.Keys :: table[p] by {
      forall f | f in fs ensures frames[f].id in pins.Keys && table[frames[f].id] == f {
      }
    }
  }

  lemma AllPinnedCount(frames: seq<Frame>)
    ensures |PinnedFrames(frames)| <= |frames|
    ensures |PinnedFrames(frames)| == |frames|
       <==> forall f :: 0 <= f < |frames| ==> frames[f].Resident() && frames[f].pin > 0
  {
    var fs, all := PinnedFrames(frames), Indices(|frames|);
    assert all == fs + (all - fs);
    assert |all| == |fs| + |all - fs|;
    if f :| 0 <= f < |frames| && !(frames[f].Resident() && frames[f].pin > 0) {
      assert f in all - fs;
    } else {
      assert all - fs == {};
    }
  }

  lemma AllPinnedIff(frames: seq<Frame>, table: map<PageId, FrameId>)
    requires TableInverse(frames, table)
    ensures |PinsOf(frames, table)| <= |frames|
    ensures |PinsOf(frames, table)| == |frames|
       <==> forall f :: 0 <= f < |frames| ==> frames[f].Resident() && frames[f].pin > 0
  {
    PinsCountFrames(frames, table);
    AllPinnedCount(frames);
    hide TableInverse, PinsOf, PinnedFrames;
  }

  // The flat map.

  /** All that callers need to know of a pool: the pages, which are held and how often, the page counters,
      the pages with unreported bytes, and the number of frames. */
  datatype Flat = Flat(
    pages: map<PageId, PageData>,
    pins: map<PageId, int>,
    counter: map<int, int>,
    owed: set<PageId>,
    size: nat)

  ghost function FlatOf(s: State, owed: set<PageId>): Flat
    requires Inv(s)
  {
    Flat(Store(s), PinsOf(s.frames, s.table), s.counter, owed, |s.frames|)
  }

  /** Every frame holds a pinned page. */
  predicate Full(f: Flat) {
    |f.pins| == f.size
  }

  /** What a call needs: a fetched page exists, a file handle is in range, a writer holds a pin. */
  predicate FlatAllowed(f: Flat, call: Call) {
    match call
    case FetchPage(pid) => pid in f.pages
    case NewPage(fd) => 0 <= fd < MAX_FD
    case Overwrite(pid, _) => pid in f.pins
    case _ => true
  }

  /** The last holder does not let go of a page with unreported bytes. */
  predicate FlatDisciplined(f: Flat, call: Call) {
    call.UnpinPage? && !call.isDirty && call.pid in f.pins && f.pins[call.pid] == 1 ==> call.pid !in f.owed
  }

  /** The answer: a page is delivered unless every frame is pinned and it is not held already. Only whether a
      flushed page was resident is left open. */
  predicate FlatAnswer(f: Flat, call: Call, answer: Answer) {
    match call
    case FetchPage(pid) =>
      pid in f.pages && answer == if pid !in f.pins && Full(f) then NoFrame else Got(pid, f.pages[pid])
    case NewPage(fd) => answer == if Full(f) then NoFrame else Got(PageId(fd, Next(f.counter, fd)), Zeros(PAGE_SIZE))
    case UnpinPage(pid, _) => answer == Flag(pid in f.pins)
    case FlushPage(pid) => answer.Flag? && (pid in f.pins ==> answer.ok) && (answer.ok ==> pid in f.pages)
    case FlushAllPages(_) => answer == Done
    case DeletePage(pid) => answer == Flag(pid !in f.pins)
    case Overwrite(_, _) => answer == Done
  }

  function PinsNext(pins: map<PageId, int>, counter: map<int, int>, full: bool, call: Call): map<PageId, int> {
    match call
    case FetchPage(pid) =>
      if pid in pins then pins[pid := pins[pid] + 1] else if full then pins else pins[pid := 1]
    case NewPage(fd) => if full then pins else pins[PageId(fd, Next(counter, fd)) := 1]
    case UnpinPage(pid, _) =>
      if pid !in pins then pins else if pins[pid] > 1 then pins[pid := pins[pid] - 1] else pins - {pid}
    case _ => pins
  }

  function CounterNext(counter: map<int, int>, full: bool, call: Call): map<int, int> {
    if call.NewPage? && !full then counter[call.fd := Next(counter, call.fd) + 1] else counter
  }

  function FlatNext(f: Flat, call: Call): Flat {
    Flat(match call
         case NewPage(fd) => if Full(f) then f.pages else f.pages[PageId(fd, Next(f.counter, fd)) := Zeros(PAGE_SIZE)]
         case Overwrite(pid, data) => f.pages[pid := data]
         case _ => f.pages,
         PinsNext(f.pins, f.counter, Full(f), call),
         CounterNext(f.counter, Full(f), call),
         match call
         case NewPage(fd) => if Full(f) then f.owed else f.owed + {PageId(fd, Next(f.counter, fd))}
         case Overwrite(pid, _) => f.owed + {pid}
         case UnpinPage(pid, isDirty) => if isDirty then f.owed - {pid} else f.owed
         case FlushPage(pid) => f.owed - {pid}
         case FlushAllPages(fd) => OtherThan(f.owed, fd)
         case _ => f.owed,
         f.size)
  }

  // One call.

  /** The pins and counters after a call. */
  ghost predicate PinsInStep(s: State, call: Call)
    requires Inv(s) && Allowed(s, call)
  {
    PinsMove(s, Apply(s, call).0, call)
  }

  ghost predicate PinsMove(s: State, s': State, call: Call)
    requires Inv(s)
  {
    var pins, full := PinsOf(s.frames, s.table), Take(s).1.None?;
    && |s'.frames| == |s.frames| && InRange(s'.frames, s'.table)
    && PinsOf(s'.frames, s'.table) == PinsNext(pins, s.counter, full, call)
    && s'.counter == CounterNext(s.counter, full, call)
  }

  lemma FullIff(s: State, owed: set<PageId>)
    requires Inv(s)
    ensures Full(FlatOf(s, owed)) <==> Take(s).1.None?
  {
    TakeVictim(s);
    AllPinnedIff(s.frames, s.table);
  }

  lemma FetchHitPins(s: State, pid: PageId)
    requires Inv(s) && pid in s.table
    ensures PinsInStep(s, FetchPage(pid))
  {
    FetchHitParts(s, pid);
    PinOf(s, pid);
    TableOf(s);
    hide Fetch, Take, Inv, TableInverse, PinsOf;
    RepinPins(s.frames, s.table, pid, s.At(pid).(pin := s.At(pid).pin + 1));
  }

  lemma TableOf(s: State)
    requires Inv(s)
    ensures TableInverse(s.frames, s.table) && InRange(s.frames, s.table)
  {
  }

  lemma FetchHitParts(s: State, pid: PageId)
    requires Inv(s) && pid in s.table
    ensures
      var s', was := Fetch(s, pid).0, s.At(pid);
      && s'.frames == s.frames[s.table[pid] := was.(pin := was.pin + 1)]
      && s'.table == s.table && s'.counter == s.counter
  {
  }

  lemma FetchKeepsCounter(s: State, pid: PageId)
    requires Inv(s) && s.Backed(pid)
    ensures Fetch(s, pid).0.counter == s.counter
  {
  }

  lemma FetchMissPins(s: State, pid: PageId)
    requires Inv(s) && s.Backed(pid) && pid !in s.table
    ensures PinsInStep(s, FetchPage(pid))
  {
    if Take(s).1.Some? {
      TakeVictim(s);
      FetchMissParts(s, pid);
      FetchKeepsCounter(s, pid);
      TableOf(s);
      hide Fetch, Take, Inv, TableInverse, PinsOf, DropPage;
      var f, s' := Take(s).1.value, Fetch(s, pid).0;
      PlacePins(s.frames, s.table, f, Frame(pid, s'.disk[pid], false, 1));
      PinOf(s, pid);
    }
  }

  lemma NewPins(s: State, fd: int)
    requires Inv(s) && Allowed(s, NewPage(fd))
    ensures PinsInStep(s, NewPage(fd))
  {
    TableOf(s);
    hide Inv, TableInverse, PinsOf;
    if Take(s).1.Some? {
      hide PinsMove;
      NewMovesPins(s, fd);
    }
  }

  lemma NewMovesPins(s: State, fd: int)
    requires Inv(s) && 0 <= fd < MAX_FD && Take(s).1.Some?
    ensures PinsMove(s, New(s, fd).0, NewPage(fd))
  {
    TakeVictim(s);
    NewParts(s, fd);
    TableOf(s);
    hide *;
    var frame := Frame(PageId(fd, Next(s.counter, fd)), Zeros(PAGE_SIZE), false, 1);
    PlacePins(s.frames, s.table, Take(s).1.value, frame);
    NewPinsNext(s, New(s, fd).0, fd);
  }

  lemma NewPinsNext(s: State, s': State, fd: int)
    requires Inv(s) && Take(s).1.Some? && InRange(s.frames, s.table)
    requires |s'.frames| == |s.frames| && InRange(s'.frames, s'.table)
    requires PinsOf(s'.frames, s'.table) == PinsOf(s.frames, s.table)[PageId(fd, Next(s.counter, fd)) := 1]
    requires s'.counter == s.counter[fd := Next(s.counter, fd) + 1]
    ensures PinsMove(s, s', NewPage(fd))
  {
    hide Inv, PinsOf, InRange;
  }

  lemma NewParts(s: State, fd: int)
    requires Inv(s) && 0 <= fd < MAX_FD && Take(s).1.Some?
    ensures
      var f, s', pid := Take(s).1.value, New(s, fd).0, PageId(fd, Next(s.counter, fd));
      && f < |s.frames| && pid !in s.table && s'.counter == s.counter[fd := Next(s.counter, fd) + 1]
      && s'.frames == s.frames[f := Frame(pid, Zeros(PAGE_SIZE), false, 1)]
      && s'.table == DropPage(s.frames, s.table, f)[pid := f]
  {
    TakeVictim(s);
    CounterGrows(s, fd);
    PlaceParts(s, Take(s).1.value, PageId(fd, Next(s.counter, fd)), Zeros(PAGE_SIZE),
               s.counter[fd := Next(s.counter, fd) + 1]);
  }

  lemma UnpinParts(s: State, pid: PageId, isDirty: bool)
    requires Inv(s) && pid in s.table && s.At(pid).pin > 0
    ensures
      var s', was := Unpin(s, pid, isDirty).0, s.At(pid);
      && s'.frames == s.frames[s.table[pid] := was.(pin := was.pin - 1, dirty := was.dirty || isDirty)]
      && s'.table == s.table && s'.counter == s.counter
  {
  }

  lemma UnpinOk(s: State, pid: PageId, isDirty: bool)
    requires Inv(s)
    ensures Unpin(s, pid, isDirty).1 <==> pid in s.table && s.At(pid).pin > 0
    ensures !Unpin(s, pid, isDirty).1 ==> Unpin(s, pid, isDirty).0 == s
  {
  }

  lemma PinOf(s: State, pid: PageId)
    requires Inv(s)
    ensures InRange(s.frames, s.table)
    ensures pid in PinsOf(s.frames, s.table) <==> pid in s.table && s.At(pid).pin > 0
    ensures pid in PinsOf(s.frames, s.table) ==> PinsOf(s.frames, s.table)[pid] == s.At(pid).pin
    ensures pid in s.table ==> s.At(pid).pin >= 0
  {
  }

  lemma UnpinPins(s: State, pid: PageId, isDirty: bool)
    requires Inv(s)
    ensures PinsInStep(s, UnpinPage(pid, isDirty))
    ensures Unpin(s, pid, isDirty).1 <==> pid in PinsOf(s.frames, s.table)
  {
    PinOf(s, pid);
    UnpinOk(s, pid, isDirty);
    hide Unpin, PinsOf, FreeExact, LruExact, Numbered, Take;
    if pid in s.table && s.At(pid).pin > 0 {
      UnpinParts(s, pid, isDirty);
      var was := s.At(pid);
      var now := was.(pin := was.pin - 1, dirty := was.dirty || isDirty);
      RepinPins(s.frames, s.table, pid, now);
      hide Inv, TableInverse;
      assert Unpin(s, pid, isDirty).0.frames == s.frames[s.table[pid] := now];
    }
  }

  lemma FlushPins(s: State, pid: PageId)
    requires Inv(s)
    ensures PinsInStep(s, FlushPage(pid))
  {
    if pid in s.table {
      WriteBackKeepsInv(s, s.table[pid]);
      SamePins(s.frames, WriteBack(s, s.table[pid]).frames, s.table);
    }
  }

  lemma {:induction false} FlushAllSamePins(s: State, fd: int, n: nat)
    requires Inv(s) && n <= |s.frames|
    ensures
      var r := FlushAll(s, fd, n);
      && r.table == s.table && r.counter == s.counter && |r.frames| == |s.frames|
      && forall f :: 0 <= f < |s.frames| ==> r.frames[f].pin == s.frames[f].pin
  {
    hide Inv;
    if n == 0 {
    } else {
      FlushAllSamePins(s, fd, n - 1);
    }
  }

  lemma FlushAllPins(s: State, fd: int)
    requires Inv(s)
    ensures PinsInStep(s, FlushAllPages(fd))
  {
    hide FlushAll, Inv, TableInverse, PinsOf, Take;
    TableOf(s);
    FlushAllSamePins(s, fd, |s.frames|);
    SamePins(s.frames, FlushAll(s, fd, |s.frames|).frames, s.table);
  }

  lemma DeletePins(s: State, pid: PageId)
    requires Inv(s)
    ensures PinsInStep(s, DeletePage(pid))
    ensures Delete(s, pid).1 <==> pid !in PinsOf(s.frames, s.table)
  {
    PinOf(s, pid);
    hide PinsOf, FreeExact, LruExact, Numbered;
    if pid in s.table && s.At(pid).pin == 0 {
      DropPins(s.frames, s.table, pid, Frame(PageId(pid.fd, INVALID_PAGE_ID), Zeros(PAGE_SIZE), false, 0));
    }
  }

  lemma OverwritePins(s: State, pid: PageId, data: PageData)
    requires Inv(s) && Allowed(s, Overwrite(pid, data))
    ensures PinsInStep(s, Overwrite(pid, data))
  {
    WriteKeepsInv(s, pid, data);
    SamePins(s.frames, Write(s, pid, data).frames, s.table);
  }

  lemma StepKeepsPins(s: State, call: Call)
    requires Inv(s) && Allowed(s, call)
    ensures PinsInStep(s, call)
  {
    hide PinsInStep, Inv;
    match call
    case FetchPage(pid) =>
      if pid in s.table { FetchHitPins(s, pid); } else { FetchMissPins(s, pid); }
    case NewPage(fd) => NewPins(s, fd);
    case UnpinPage(pid, isDirty) => UnpinPins(s, pid, isDirty);
    case FlushPage(pid) => FlushPins(s, pid);
    case FlushAllPages(fd) => FlushAllPins(s, fd);
    case DeletePage(pid) => DeletePins(s, pid);
    case Overwrite(pid, data) => OverwritePins(s, pid, data);
  }

  /** A call that is allowed in terms of the flat map is allowed of the pool. */
  lemma AllowedByFlat(s: State, owed: set<PageId>, call: Call)
    requires Inv(s) && FlatAllowed(FlatOf(s, owed), call) && FlatDisciplined(FlatOf(s, owed), call)
    ensures Allowed(s, call) && Disciplined(s, owed, call)
  {
    if call.UnpinPage? || call.Overwrite? {
      PinOf(s, call.pid);
    }
  }

  lemma NoFrameIff(s: State, call: Call)
    requires Inv(s) && Allowed(s, call)
    ensures Apply(s, call).1 == NoFrame <==>
            Take(s).1.None? && (call.NewPage? || (call.FetchPage? && call.pid !in s.table))
  {
    TakeVictim(s);
  }

  /** When no frame can be taken every resident page is pinned. */
  lemma FullPins(s: State, pid: PageId)
    requires Inv(s) && Take(s).1.None?
    ensures pid in s.table <==> pid in PinsOf(s.frames, s.table)
  {
    TakeVictim(s);
  }

  lemma FetchAnswers(s: State, owed: set<PageId>, pid: PageId)
    requires Inv(s) && Allowed(s, FetchPage(pid)) && StoreLegal(Store(s), FetchPage(pid), Apply(s, FetchPage(pid)).1)
    ensures FlatAnswer(FlatOf(s, owed), FetchPage(pid), Apply(s, FetchPage(pid)).1)
  {
    NoFrameIff(s, FetchPage(pid));
    FullIff(s, owed);
    if Take(s).1.None? {
      FullPins(s, pid);
    }
    assert pid in Store(s);
    hide Inv, Ledger, PinsOf, Take, Apply, Full, Store;
  }

  lemma NewAnswers(s: State, owed: set<PageId>, fd: int)
    requires Inv(s) && Ledger(s, owed) && Allowed(s, NewPage(fd))
    ensures FlatAnswer(FlatOf(s, owed), NewPage(fd), Apply(s, NewPage(fd)).1)
  {
    NoFrameIff(s, NewPage(fd));
    FullIff(s, owed);
    if Take(s).1.Some? {
      NewKeepsLedger(s, owed, fd);
    }
    hide Inv, Ledger, PinsOf, Take, Apply, Full, Store;
  }

  lemma FlushAnswers(s: State, owed: set<PageId>, pid: PageId)
    requires Inv(s)
    ensures FlatAnswer(FlatOf(s, owed), FlushPage(pid), Apply(s, FlushPage(pid)).1)
  {
    PinOf(s, pid);
    assert pid in s.table ==> pid in Store(s);
    assert Apply(s, FlushPage(pid)).1 == Flag(pid in s.table);
    hide Inv, PinsOf, Apply, Store;
  }

  lemma UnpinAnswers(s: State, owed: set<PageId>, pid: PageId, isDirty: bool)
    requires Inv(s)
    ensures FlatAnswer(FlatOf(s, owed), UnpinPage(pid, isDirty), Apply(s, UnpinPage(pid, isDirty)).1)
  {
    UnpinPins(s, pid, isDirty);
    hide Inv, PinsOf, Unpin, Store, PinsInStep;
  }

  lemma DeleteAnswers(s: State, owed: set<PageId>, pid: PageId)
    requires Inv(s)
    ensures FlatAnswer(FlatOf(s, owed), DeletePage(pid), Apply(s, DeletePage(pid)).1)
  {
    DeletePins(s, pid);
    hide Inv, PinsOf, Delete, Store, PinsInStep;
  }

  lemma StepAnswers(s: State, owed: set<PageId>, call: Call)
    requires Inv(s) && Ledger(s, owed) && Allowed(s, call) && StoreLegal(Store(s), call, Apply(s, call).1)
    ensures FlatAnswer(FlatOf(s, owed), call, Apply(s, call).1)
  {
    hide Inv, Ledger, FlatOf, Store, Take;
    match call
    case FetchPage(pid) => FetchAnswers(s, owed, pid);
    case NewPage(fd) => NewAnswers(s, owed, fd);
    case UnpinPage(pid, isDirty) => UnpinAnswers(s, owed, pid, isDirty);
    case FlushPage(pid) => FlushAnswers(s, owed, pid);
    case DeletePage(pid) => DeleteAnswers(s, owed, pid);
    case _ =>
  }

  lemma StepOwes(s: State, owed: set<PageId>, call: Call)
    requires Inv(s) && Allowed(s, call) && FlatAnswer(FlatOf(s, owed), call, Apply(s, call).1)
    ensures Owed(s, owed, call) == FlatNext(FlatOf(s, owed), call).owed
  {
    hide Inv, Store, PinsOf, Full, Apply, PinsNext;
  }

  lemma StepPages(s: State, owed: set<PageId>, call: Call)
    requires Inv(s) && Allowed(s, call) && FlatAnswer(FlatOf(s, owed), call, Apply(s, call).1)
    ensures StoreNext(Store(s), call, Apply(s, call).1) == FlatNext(FlatOf(s, owed), call).pages
  {
    hide Inv, Store, PinsOf, Full, Apply, PinsNext;
  }

  /** One disciplined call: the pool answers as the flat map does, and stays in step with it. */
  lemma StepRefinesFlat(s: State, owed: set<PageId>, call: Call)
    requires Inv(s) && Ledger(s, owed) && FlatAllowed(FlatOf(s, owed), call) && FlatDisciplined(FlatOf(s, owed), call)
    ensures Allowed(s, call) && Disciplined(s, owed, call)
    ensures
      var (s', answer) := Apply(s, call);
      && Inv(s') && Ledger(s', Owed(s, owed, call)) && FlatAnswer(FlatOf(s, owed), call, answer)
      && FlatOf(s', Owed(s, owed, call)) == FlatNext(FlatOf(s, owed), call)
  {
    AllowedByFlat(s, owed, call);
    StepKeepsStore(s, owed, call);
    StepKeepsPins(s, call);
    FullIff(s, owed);
    StepAnswers(s, owed, call);
    StepOwes(s, owed, call);
    hide Inv, Ledger, Take, Owed, Full, PinsNext;
    StepPages(s, owed, call);
  }

  // Whole runs.

  datatype Run = Run(pool: State, owed: set<PageId>, now: nat, last: map<FrameId, nat>, answers: seq<Answer>)

  ghost predicate Good(r: Run) {
    Inv(r.pool) && Ledger(r.pool, r.owed) && ByAge(r.pool.lru, r.last, r.now)
  }

  /** The flat map a run has reached. */
  ghost function Seen(r: Run): Flat
    requires Good(r)
  {
    FlatOf(r.pool, r.owed)
  }

  lemma HeldFit(r: Run)
    requires Good(r)
    ensures |Seen(r).pins| <= Seen(r).size == |r.pool.frames|
  {
    hide Store, PinsOf, TableInverse, FreeExact, LruExact, Numbered, Ledger, ByAge;
    AllPinnedIff(r.pool.frames, r.pool.table);
  }

  ghost function Step(r: Run, call: Call): Run
    requires Inv(r.pool) && Allowed(r.pool, call)
  {
    var (pool, answer) := Apply(r.pool, call);
    Run(pool, Owed(r.pool, r.owed, call), r.now + 1, Stamp(r.pool, call, r.now, r.last), r.answers + [answer])
  }

  /** Callers that respect the flat map: each call is allowed and disciplined when it is made. */
  predicate WellBehaved(f: Flat, calls: seq<Call>)
    decreases |calls|
  {
    calls == []
    || (FlatAllowed(f, calls[0]) && FlatDisciplined(f, calls[0]) && WellBehaved(FlatNext(f, calls[0]), calls[1..]))
  }

  function FlatAfter(f: Flat, calls: seq<Call>): Flat
    decreases |calls|
  {
    if calls == [] then f else FlatAfter(FlatNext(f, calls[0]), calls[1..])
  }

  /** The flat map gives these answers to the calls. */
  predicate FlatAnswers(f: Flat, calls: seq<Call>, answers: seq<Answer>)
    decreases |calls|
  {
    && |answers| == |calls|
    && (calls != [] ==>
          FlatAnswer(f, calls[0], answers[0]) && FlatAnswers(FlatNext(f, calls[0]), calls[1..], answers[1..]))
  }

  lemma StepKeepsGood(r: Run, call: Call)
    requires Good(r) && FlatAllowed(Seen(r), call) && FlatDisciplined(Seen(r), call)
    ensures Allowed(r.pool, call) && Good(Step(r, call))
    ensures FlatAnswer(Seen(r), call, Apply(r.pool, call).1) && Seen(Step(r, call)) == FlatNext(Seen(r), call)
  {
    hide Inv, Ledger, ByAge, FlatOf, FlatNext, FlatAnswer, FlatAllowed, FlatDisciplined;
    StepRefinesFlat(r.pool, r.owed, call);
    ApplyKeepsAge(r.pool, call, r.last, r.now);
  }

  ghost function After(r: Run, calls: seq<Call>): Run
    requires Good(r) && WellBehaved(Seen(r), calls)
    decreases |calls|
  {
    if calls == [] then r
    else
      StepKeepsGood(r, calls[0]);
      After(Step(r, calls[0]), calls[1..])
  }

  /** Every run of well-behaved callers: the invariants hold at the end, the answers given are those of the
      flat map, and the pool ends in step with it. */
  lemma {:induction false} RunRefinesFlatMap(r: Run, calls: seq<Call>)
    requires Good(r) && WellBehaved(Seen(r), calls)
    ensures
      var e := After(r, calls);
      && Good(e) && r.answers <= e.answers
      && FlatAnswers(Seen(r), calls, e.answers[|r.answers|..]) && Seen(e) == FlatAfter(Seen(r), calls)
    decreases |calls|
  {
    hide Inv, Ledger, ByAge, FlatOf, FlatAnswer, FlatAllowed, FlatDisciplined, FlatNext, Apply;
    if calls == [] {
    } else {
      StepKeepsGood(r, calls[0]);
      var next := Step(r, calls[0]);
      RunRefinesFlatMap(next, calls[1..]);
      var e := After(next, calls[1..]);
      var answers := e.answers[|r.answers|..];
      assert answers[0] == next.answers[|r.answers|];
      assert answers[1..] == e.answers[|next.answers|..];
    }
  }

  /** A flat map never forgets a page: what exists can be fetched for ever after. */
  lemma {:induction false} FlatKeepsPages(f: Flat, calls: seq<Call>)
    ensures f.pages.Keys <= FlatAfter(f, calls).pages.Keys
    decreases |calls|
  {
    if calls == [] {
    } else {
      FlatKeepsPages(FlatNext(f, calls[0]), calls[1..]);
    }
  }

  /** A new pool is in good order and shows what is on the disk. */
  lemma InitialIsGood(n: nat, disk: map<PageId, PageData>, counter: map<int, int>)
    requires Numbered(map[], disk, counter)
    ensures
      var r := Run(Initial(n, disk, counter), {}, 0, map[], []);
      Good(r) && Seen(r) == Flat(disk, map[], counter, {}, n)
  {
    var s := Initial(n, disk, counter);
    InitialInv(n, disk, counter);
    InitialShows(n, disk, counter);
    hide Inv, View, PinsOf, Zeros;
  }

  lemma InitialShows(n: nat, disk: map<PageId, PageData>, counter: map<int, int>)
    ensures
      var s := Initial(n, disk, counter);
      && InRange(s.frames, s.table) && View(s.frames, s.table, s.disk) == disk && PinsOf(s.frames, s.table) == map[]
      && Ledger(s, {})
  {
    var s := Initial(n, disk, counter);
    assert View(s.frames, s.table, s.disk) == disk;
  }

  /** After flush_all_pages a pool that starts on the same disk shows every page of the file as it was. */
  lemma FlushedSurvives(s: State, fd: int, n: nat, counter: map<int, int>)
    requires Inv(s)
    requires
      var disk := FlushAll(s, fd, |s.frames|).disk;
      Numbered(map[], disk, counter)
    ensures Inv(Initial(n, FlushAll(s, fd, |s.frames|).disk, counter))
    ensures
      var shown := Store(Initial(n, FlushAll(s, fd, |s.frames|).disk, counter));
      forall pid: PageId :: pid.fd == fd ==>
        (pid in shown <==> pid in Store(s)) && (pid in shown ==> shown[pid] == Store(s)[pid])
  {
    AllFlushed(s, fd);
    InitialInv(n, FlushAll(s, fd, |s.frames|).disk, counter);
    InitialShows(n, FlushAll(s, fd, |s.frames|).disk, counter);
    hide FlushAll, Inv, Initial, Numbered, PinsOf, Ledger;
  }

  /** `fetch_page` and `new_page` give up exactly when every frame holds a pinned page. */
  lemma NoFrameIffAllPinned(s: State, call: Call)
    requires Inv(s) && Allowed(s, call)
    requires call.NewPage? || (call.FetchPage? && call.pid !in s.table)
    ensures Apply(s, call).1 == NoFrame <==>
            forall f :: 0 <= f < |s.frames| ==> s.frames[f].Resident() && s.frames[f].pin > 0
    ensures Apply(s, call).1 == NoFrame ==> Apply(s, call).0 == s
  {
    TakeVictim(s);
  }

  lemma FirstCall(f: Flat, call: Call, rest: seq<Call>)
    ensures WellBehaved(f, [call] + rest)
       <==> FlatAllowed(f, call) && FlatDisciplined(f, call) && WellBehaved(FlatNext(f, call), rest)
    ensures FlatAfter(f, [call] + rest) == FlatAfter(FlatNext(f, call), rest)
  {
    hide FlatNext, FlatAllowed, FlatDisciplined;
    assert ([call] + rest)[1..] == rest;
  }

  lemma {:induction false} CallsConcat(f: Flat, a: seq<Call>, b: seq<Call>)
    ensures WellBehaved(f, a + b) <==> WellBehaved(f, a) && WellBehaved(FlatAfter(f, a), b)
    ensures FlatAfter(f, a + b) == FlatAfter(FlatAfter(f, a), b)
    decreases |a|
  {
    hide FlatNext, FlatAllowed, FlatDisciplined;
    if a == [] {
      assert a + b == b;
    } else {
      assert a == [a[0]] + a[1..] && a + b == [a[0]] + (a[1..] + b);
      FirstCall(f, a[0], a[1..]);
      FirstCall(f, a[0], a[1..] + b);
      CallsConcat(FlatNext(f, a[0]), a[1..], b);
    }
  }

  /** Writing over one page, and making new ones, leaves the bytes of a numbered page alone. */
  lemma {:induction false} FlatKeepsBytes(f: Flat, calls: seq<Call>, pid: PageId)
    requires pid in f.pages && pid.pageNo < Next(f.counter, pid.fd)
    requires forall call :: call in calls && call.Overwrite? ==> call.pid != pid
    ensures pid in FlatAfter(f, calls).pages && FlatAfter(f, calls).pages[pid] == f.pages[pid]
    decreases |calls|
  {
    if calls == [] {
    } else {
      assert calls[0] in calls;
      hide PinsNext, Full;
      FlatKeepsBytes(FlatNext(f, calls[0]), calls[1..], pid);
    }
  }

  /** A write that is flushed and then unpinned as clean: well behaved, and the page has its bytes ever after. */
  lemma FlushedWriteSurvives(r: Run, pid: PageId, b: PageData, rest: seq<Call>)
    requires Good(r) && pid in Seen(r).pins
    requires forall call :: call in rest && call.Overwrite? ==> call.pid != pid
    ensures WellBehaved(Seen(r), [Overwrite(pid, b), FlushPage(pid), UnpinPage(pid, false)])
    ensures
      var f := FlatAfter(Seen(r), [Overwrite(pid, b), FlushPage(pid), UnpinPage(pid, false)]);
      WellBehaved(f, rest) ==>
        var calls := [Overwrite(pid, b), FlushPage(pid), UnpinPage(pid, false)] + rest;
        && WellBehaved(Seen(r), calls) && Good(After(r, calls))
        && pid in Seen(After(r, calls)).pages && Seen(After(r, calls)).pages[pid] == b
  {
    hide *;
    var calls := [Overwrite(pid, b), FlushPage(pid), UnpinPage(pid, false)];
    HeldIsNumbered(r, pid);
    FlushedWrite(Seen(r), pid, b);
    if WellBehaved(FlatAfter(Seen(r), calls), rest) {
      CallsConcat(Seen(r), calls, rest);
      RunRefinesFlatMap(r, calls + rest);
      FlatKeepsBytes(FlatAfter(Seen(r), calls), rest, pid);
    }
  }

  lemma FlushedWrite(f: Flat, pid: PageId, b: PageData)
    requires pid in f.pins
    ensures
      var calls := [Overwrite(pid, b), FlushPage(pid), UnpinPage(pid, false)];
      && WellBehaved(f, calls) && FlatAfter(f, calls).counter == f.counter
      && pid in FlatAfter(f, calls).pages && FlatAfter(f, calls).pages[pid] == b
  {
    var calls := [Overwrite(pid, b), FlushPage(pid), UnpinPage(pid, false)];
    var f1 := FlatNext(f, Overwrite(pid, b));
    var f2 := FlatNext(f1, FlushPage(pid));
    var f3 := FlatNext(f2, UnpinPage(pid, false));
    ThreeCalls(f, calls);
    hide WellBehaved, FlatAfter, Full;
    assert pid !in f2.owed;
    assert f1.pages == f.pages[pid := b] && f3.pages == f1.pages && f3.counter == f.counter;
    assert WellBehaved(f, calls);
    assert FlatAfter(f, calls) == f3;
  }

  lemma HeldIsNumbered(r: Run, pid: PageId)
    requires Good(r) && pid in Seen(r).pins
    ensures pid in Seen(r).pages && pid.pageNo < Next(Seen(r).counter, pid.fd)
  {
    hide FreeExact, LruExact, TableInverse, Ledger, ByAge;
  }

  lemma ThreeCalls(f: Flat, calls: seq<Call>)
    requires |calls| == 3
    ensures
      var f1 := FlatNext(f, calls[0]);
      var f2 := FlatNext(f1, calls[1]);
      && FlatAfter(f, calls) == FlatNext(f2, calls[2])
      && (WellBehaved(f, calls) <==>
           && FlatAllowed(f, calls[0]) && FlatDisciplined(f, calls[0])
           && FlatAllowed(f1, calls[1]) && FlatDisciplined(f1, calls[1])
           && FlatAllowed(f2, calls[2]) && FlatDisciplined(f2, calls[2]))
  {
    hide FlatNext, FlatAllowed, FlatDisciplined;
    var f1 := FlatNext(f, calls[0]);
    var f2 := FlatNext(f1, calls[1]);
    FirstCall(f, calls[0], [calls[1], calls[2]]);
    FirstCall(f1, calls[1], [calls[2]]);
    FirstCall(f2, calls[2], []);
    assert calls == [calls[0]] + [calls[1], calls[2]] && [calls[1], calls[2]] == [calls[1]] + [calls[2]];
    assert [calls[2]] + [] == [calls[2]];
  }

  /** Without the discipline a page is lost: in a pool of one frame, a page that is created, written
      and released clean is gone once another page takes the frame. */
  lemma UnreportedWriteIsLost(data: PageData)
    ensures
      var s0 := Initial(1, map[], map[]);
      var page := PageId(0, 0);
      Inv(s0) &&
      (var s1 := New(s0, 0).0;
       Inv(s1) && page in s1.table &&
       (var s2 := Write(s1, page, data);
        Inv(s2) &&
        (var s3 := Unpin(s2, page, false).0;
         Inv(s3) && s3.Backed(page) && !New(s3, 0).0.Backed(page))))
  {
    InitialIsGood(1, map[], map[]);
    var s0 := Initial(1, map[], map[]);
    var page := PageId(0, 0);
    NewKeepsInv(s0, 0);
    var s1 := New(s0, 0).0;
    assert Take(s0).1 == Some(0);
    PlaceParts(s0, 0, page, Zeros(PAGE_SIZE), map[0 := 1]);
    assert s1.table[page] == 0;
    WriteKeepsInv(s1, page, data);
    var s2 := Write(s1, page, data);
    UnpinKeepsInv(s2, page, false);
    var s3 := Unpin(s2, page, false).0;
    TakeVictim(s3);
    assert Take(s3).1 == Some(0);
    PlaceParts(s3, 0, PageId(0, 1), Zeros(PAGE_SIZE), map[0 := 2]);
  }
}
