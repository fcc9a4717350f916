/** Runs that only read, over any number of files: look-ups, which never give their pin back, and visits, which
    do. Exactly when such a run gets a frame for every page
    (src/record/rm_file_handle.cpp, src/record/rm_scan.cpp). */
module ReadRuns {
  import opened Pool
  import opened PoolFlat
  import opened RecordPool
  import opened RecordRuns
  import H = HeapFile

  /** The page a look-up or visit is about. */
  function PageOf(e: Entry): int {
    match e.req
    case Lookup(rid) => rid.pageNo
    case Visit(p) => p
    case Change(_) => H.NO_PAGE
  }

  function PageIdOf(e: Entry): PageId {
    PageId(e.fd, PageOf(e))
  }

  /** A look-up or visit on a page of an open file. */
  predicate Reading(files: Files, e: Entry) {
    && e.fd in files && Narrow(files[e.fd]) && !e.req.Change? && PageOf(e) in files[e.fd].pages
    && (e.req.Lookup? ==> 0 <= e.req.rid.slotNo < files[e.fd].capacity)
  }

  predicate ReadOnly(files: Files, es: seq<Entry>) {
    forall e :: e in es ==> Reading(files, e)
  }

  // One request.

  lemma ReadingOk(f: Flat, files: Files, e: Entry)
    requires System(f, files) && Reading(files, e)
    ensures EntryOk(files, e) && Sent(files, e) && FilesAfter(f, files, e) == files
    ensures EntryStarved(f, files, e) <==> Full(f) && PageIdOf(e) !in f.pins
  {
    H.DataPages(files[e.fd]);
    hide H.Inv, Backs, Sane, Full;
    assert files[e.fd := files[e.fd]] == files;
  }

  lemma KeepsIfLookup(f: Flat, files: Files, e: Entry)
    requires System(f, files) && Reading(files, e) && EntryOk(files, e) && Sent(files, e)
    ensures forall pid :: KeepsPin(f, files, e, pid) <==> e.req.Lookup? && pid == PageIdOf(e)
  {
    KeepsOfSent(f, files, e);
    hide System, Sent, EntryOk, KeepsPin;
  }

  lemma KeysFollow(f: Flat, f': Flat, pid: PageId, kept: bool)
    requires Sane(f) && Sane(f')
    requires forall q :: PinCount(f', q) == PinCount(f, q) + if kept && q == pid then 1 else 0
    ensures f'.pins.Keys == f.pins.Keys + if kept then {pid} else {}
  {
    forall q ensures q in f'.pins <==> q in f.pins || (kept && q == pid) {
      assert PinCount(f', q) == PinCount(f, q) + if kept && q == pid then 1 else 0;
    }
  }

  /** The pins a request leaves: one more if it is a look-up. */
  lemma ReadingServed(f: Flat, files: Files, e: Entry)
    requires System(f, files) && Reading(files, e) && !(Full(f) && PageIdOf(e) !in f.pins)
    ensures EntryOk(files, e) && !EntryStarved(f, files, e) && FilesAfter(f, files, e) == files
    ensures
      var f' := PoolNext(f, files, e);
      System(f', files) && f'.size == f.size && f'.pins.Keys == HeldNext(f.pins.Keys, e)
  {
    ReadingOk(f, files, e);
    EntryServed(f, files, e);
    PoolNextIs(f, files, e);
    KeepsIfLookup(f, files, e);
    var f' := PoolNext(f, files, e);
    FilesBacked(f, files);
    FilesBacked(f', files);
    HeldNextIs(f.pins.Keys, e);
    hide *;
    KeysFollow(f, f', PageIdOf(e), e.req.Lookup?);
  }

  // Which pages are held.

  /** The pages held after a request. */
  function HeldNext(held: set<PageId>, e: Entry): set<PageId> {
    if e.req.Lookup? then held + {PageIdOf(e)} else held
  }

  lemma HeldNextIs(held: set<PageId>, e: Entry)
    ensures HeldNext(held, e) == held + if e.req.Lookup? then {PageIdOf(e)} else {}
  {
  }

  function HeldAfter(held: set<PageId>, es: seq<Entry>): set<PageId>
    decreases |es|
  {
    if es == [] then held else HeldAfter(HeldNext(held, es[0]), es[1..])
  }

  /** A frame for the page. */
  predicate Room(held: set<PageId>, size: nat, pid: PageId) {
    pid in held || |held| != size
  }

  /** Every request finds a frame. */
  predicate FedBy(held: set<PageId>, size: nat, es: seq<Entry>)
    decreases |es|
  {
    es == [] || (Room(held, size, PageIdOf(es[0])) && FedBy(HeldNext(held, es[0]), size, es[1..]))
  }

  lemma FirstReading(files: Files, es: seq<Entry>)
    requires es != [] && ReadOnly(files, es)
    ensures Reading(files, es[0]) && ReadOnly(files, es[1..]) && es == [es[0]] + es[1..]
  {
    hide Reading;
  }

  lemma RoomIs(f: Flat, pid: PageId)
    ensures Room(f.pins.Keys, f.size, pid) <==> !(Full(f) && pid !in f.pins)
  {
  }

  lemma FedByIs(held: set<PageId>, size: nat, es: seq<Entry>)
    requires es != []
    ensures FedBy(held, size, es)
       <==> Room(held, size, PageIdOf(es[0])) && FedBy(HeldNext(held, es[0]), size, es[1..])
    ensures HeldAfter(held, es) == HeldAfter(HeldNext(held, es[0]), es[1..])
  {
  }

  lemma NothingHeld(held: set<PageId>, size: nat)
    ensures FedBy(held, size, []) && HeldAfter(held, []) == held
  {
  }

  lemma StarvedNotFed(f: Flat, files: Files, e: Entry, rest: seq<Entry>)
    requires System(f, files) && EntryOk(files, e) && EntryStarved(f, files, e)
    ensures !Fed(f, files, [e] + rest)
  {
    hide System, EntryStarved, EntryOk;
  }

  lemma NothingAsked(f: Flat, files: Files)
    requires System(f, files)
    ensures Fed(f, files, []) && RunFiles(f, files, []) == files && FlatAfter(f, RunCalls(f, files, [])) == f
  {
  }

  /** Of a run that only reads nothing matters but which pages are held. */
  lemma {:induction false} ReadOnlyFed(f: Flat, files: Files, es: seq<Entry>)
    requires System(f, files) && ReadOnly(files, es)
    ensures Fed(f, files, es) <==> FedBy(f.pins.Keys, f.size, es)
    ensures Fed(f, files, es) ==>
              && RunFiles(f, files, es) == files
              && FlatAfter(f, RunCalls(f, files, es)).pins.Keys == HeldAfter(f.pins.Keys, es)
    decreases |es|
  {
    hide *;
    if es == [] {
      NothingAsked(f, files);
      NothingHeld(f.pins.Keys, f.size);
    } else {
      var e := es[0];
      FirstReading(files, es);
      FedByIs(f.pins.Keys, f.size, es);
      RoomIs(f, PageIdOf(e));
      ReadingOk(f, files, e);
      if EntryStarved(f, files, e) {
        StarvedNotFed(f, files, e, es[1..]);
      } else {
        ReadingServed(f, files, e);
        FirstOfRun(f, files, e, es[1..]);
        PoolNextIs(f, files, e);
        ReadOnlyFed(PoolNext(f, files, e), files, es[1..]);
        if Fed(f, files, es) {
          CallsConcat(f, CallsOf(f, files, e), RunCalls(PoolNext(f, files, e), files, es[1..]));
        }
      }
    }
  }

  lemma {:induction false} FedByConcat(held: set<PageId>, size: nat, a: seq<Entry>, b: seq<Entry>)
    ensures FedBy(held, size, a + b) <==> FedBy(held, size, a) && FedBy(HeldAfter(held, a), size, b)
    ensures HeldAfter(held, a + b) == HeldAfter(HeldAfter(held, a), b)
    decreases |a|
  {
    hide Room, HeldNext, PageOf;
    if a == [] {
      assert a + b == b;
    } else {
      assert (a + b)[1..] == a[1..] + b;
      FedByConcat(HeldNext(held, a[0]), size, a[1..], b);
    }
  }

  // When a run gets its frames.

  /** The pages of which some record is looked up. */
  function LookedUp(es: seq<Entry>): set<PageId> {
    set e | e in es && e.req.Lookup? :: PageIdOf(e)
  }

  /** The run visits a page that it never holds when `all` pages are held. */
  predicate VisitsWhen(held: set<PageId>, all: set<PageId>, es: seq<Entry>)
    decreases |es|
  {
    es != [] && ((held == all && PageIdOf(es[0]) !in all) || VisitsWhen(HeldNext(held, es[0]), all, es[1..]))
  }

  lemma {:induction false} HeldIsLookedUp(held: set<PageId>, es: seq<Entry>)
    ensures HeldAfter(held, es) == held + LookedUp(es)
    decreases |es|
  {
    if es == [] {
    } else {
      HeldIsLookedUp(HeldNext(held, es[0]), es[1..]);
      LookedUpFirst(es);
      hide LookedUp, HeldAfter;
    }
  }

  lemma LookedUpFirst(es: seq<Entry>)
    requires es != []
    ensures LookedUp(es) == (if es[0].req.Lookup? then {PageIdOf(es[0])} else {}) + LookedUp(es[1..])
  {
    hide PageIdOf;
    assert es == [es[0]] + es[1..];
  }

  lemma SmallerSet(a: set<PageId>, b: set<PageId>)
    requires a <= b
    ensures |a| <= |b| && (|a| == |b| ==> a == b)
  {
    assert b == a + (b - a);
    assert |b| == |a| + |b - a|;
  }

  lemma HeldGrows(held: set<PageId>, es: seq<Entry>)
    ensures held <= HeldAfter(held, es)
  {
    HeldIsLookedUp(held, es);
  }

  lemma FedByFirst(held: set<PageId>, size: nat, es: seq<Entry>, all: set<PageId>)
    requires es != [] && |held| <= size && all == HeldAfter(held, es)
    ensures !Room(held, size, PageIdOf(es[0])) ==> !(|all| <= size && (|all| == size ==> !VisitsWhen(held, all, es)))
    ensures Room(held, size, PageIdOf(es[0])) ==> |HeldNext(held, es[0])| <= size
    ensures Room(held, size, PageIdOf(es[0])) && |all| == size ==>
              (VisitsWhen(held, all, es) <==> VisitsWhen(HeldNext(held, es[0]), all, es[1..]))
  {
    var e, next := es[0], HeldNext(held, es[0]);
    FedByIs(held, size, es);
    HeldGrows(next, es[1..]);
    hide HeldAfter, PageOf;
    SmallerSet(held, all);
    SmallerSet(next, all);
    if PageIdOf(e) in held {
      assert next == held;
    }
  }

  /** Every run that only reads: it finds its frames if and only if the pages held before and those it looks up
      have frames enough; should they take every frame, it must visit no other page once they have them. */
  lemma {:induction false} FedByIff(held: set<PageId>, size: nat, es: seq<Entry>)
    requires |held| <= size
    ensures
      var all := HeldAfter(held, es);
      FedBy(held, size, es) <==> |all| <= size && (|all| == size ==> !VisitsWhen(held, all, es))
    decreases |es|
  {
    if es == [] {
    } else {
      var all := HeldAfter(held, es);
      FedByIs(held, size, es);
      FedByFirst(held, size, es, all);
      hide Room, HeldNext, PageOf, FedBy, HeldAfter, VisitsWhen;
      if Room(held, size, PageIdOf(es[0])) {
        FedByIff(HeldNext(held, es[0]), size, es[1..]);
      }
    }
  }

  /** A run that looks up a record of every page it visits visits no page that it never holds. */
  lemma {:induction false} NoOtherVisit(held: set<PageId>, all: set<PageId>, es: seq<Entry>)
    requires forall e :: e in es ==> PageIdOf(e) in all
    ensures !VisitsWhen(held, all, es)
    decreases |es|
  {
    hide PageIdOf, HeldNext;
    if es == [] {
    } else {
      NoOtherVisit(HeldNext(held, es[0]), all, es[1..]);
    }
  }

  /** Over the pool and any files: exactly when a run that only reads gets all its frames. */
  lemma ReadOnlyFedIff(f: Flat, files: Files, es: seq<Entry>)
    requires System(f, files) && ReadOnly(files, es) && |f.pins| <= f.size
    ensures
      var held := f.pins.Keys;
      var all := held + LookedUp(es);
      && (Fed(f, files, es) <==> |all| <= f.size && (|all| == f.size ==> !VisitsWhen(held, all, es)))
      && (Fed(f, files, es) ==>
            RunFiles(f, files, es) == files && FlatAfter(f, RunCalls(f, files, es)).pins.Keys == all)
  {
    PinsAre(f);
    hide *;
    ReadOnlyFed(f, files, es);
    FedByIff(f.pins.Keys, f.size, es);
    HeldIsLookedUp(f.pins.Keys, es);
  }

  lemma PinsAre(f: Flat)
    ensures |f.pins.Keys| == |f.pins|
  {
  }
}
