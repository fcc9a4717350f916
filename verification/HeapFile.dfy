/** The record file: slotted pages with a bitmap and a counter each, and a chain of pages with room
    threaded through the page headers (src/record/rm_file_handle.cpp). Pages are typed here; module
    PageLayout ties them to bytes, module RecordPool ties the page map and the counter to the buffer pool. */
module HeapFile {
  import opened Wrappers

  const NO_PAGE: int := -1
  const FIRST_RECORD_PAGE: int := 1

  type Record = seq<bv8>

  datatype Rid = Rid(pageNo: int, slotNo: int)

  datatype Error = PageNotExist(pageNo: int)

  datatype RmPage = RmPage(nextFree: int, numRecords: int, bitmap: seq<bool>, slots: seq<Record>)

  /** `counter` is the allocation counter the pool keeps for this file. */
  datatype HeapFile = HeapFile(
    recordSize: nat,
    capacity: nat,
    numPages: int,
    firstFree: int,
    pages: map<int, RmPage>,
    counter: int)

  // Bitmaps.

  function Count(bitmap: seq<bool>): nat {
    if bitmap == [] then 0 else (if bitmap[|bitmap| - 1] then 1 else 0) + Count(bitmap[..|bitmap| - 1])
  }

  /** Bitmap::next_bit: the first position after `curr` holding `bit`, or the length. */
  function NextBit(bit: bool, bitmap: seq<bool>, curr: int): (r: nat)
    requires -1 <= curr
    ensures r <= |bitmap|
    ensures r < |bitmap| ==> curr < r && bitmap[r] == bit
    ensures forall i :: curr < i < r && i < |bitmap| ==> bitmap[i] != bit
    decreases |bitmap| - curr
  {
    if curr + 1 >= |bitmap| then |bitmap|
    else if bitmap[curr + 1] == bit then curr + 1
    else NextBit(bit, bitmap, curr + 1)
  }

  lemma {:induction false} CountAll(bitmap: seq<bool>)
    ensures Count(bitmap) <= |bitmap|
    ensures Count(bitmap) == |bitmap| <==> forall i :: 0 <= i < |bitmap| ==> bitmap[i]
    ensures Count(bitmap) == 0 <==> forall i :: 0 <= i < |bitmap| ==> !bitmap[i]
  {
    if bitmap == [] {
    } else {
      CountAll(bitmap[..|bitmap| - 1]);
    }
  }

  lemma {:induction false} CountUpdate(bitmap: seq<bool>, i: nat, bit: bool)
    requires i < |bitmap|
    ensures Count(bitmap[i := bit]) == Count(bitmap) + (if bit then 1 else 0) - (if bitmap[i] then 1 else 0)
  {
    var n := |bitmap| - 1;
    if i == n {
      assert bitmap[i := bit][..n] == bitmap[..n];
    } else {
      assert bitmap[i := bit][..n] == bitmap[..n][i := bit];
      CountUpdate(bitmap[..n], i, bit);
    }
  }

  // Invariant.

  ghost predicate PageOk(h: HeapFile, page: RmPage) {
    && |page.bitmap| == |page.slots| == h.capacity
    && page.numRecords == Count(page.bitmap)
    && (forall s :: 0 <= s < |page.slots| ==> |page.slots[s]| == h.recordSize)
  }

  /** The data pages are exactly 1 .. numPages - 1, and the pool will hand out numPages next. */
  ghost predicate PagesOk(h: HeapFile) {
    && 0 < h.capacity && 1 <= h.numPages == h.counter
    && (forall p :: p in h.pages <==> FIRST_RECORD_PAGE <= p < h.numPages)
    && (forall p :: p in h.pages ==> PageOk(h, h.pages[p]))
  }

  lemma DataPages(h: HeapFile)
    requires PagesOk(h)
    ensures 0 < h.capacity
    ensures forall p :: p in h.pages <==> FIRST_RECORD_PAGE <= p < h.numPages
    ensures forall p :: p in h.pages ==> |h.pages[p].bitmap| == |h.pages[p].slots| == h.capacity
  {
  }

  /** Following `first_free_page_no` and the headers' `next_free_page_no` visits exactly `chain`. */
  ghost predicate Linked(pages: map<int, RmPage>, firstFree: int, chain: seq<int>) {
    && firstFree == (if chain == [] then NO_PAGE else chain[0])
    && (forall i {:trigger chain[i]} :: 0 <= i < |chain| ==>
         chain[i] in pages && pages[chain[i]].nextFree == (if i + 1 < |chain| then chain[i + 1] else NO_PAGE))
    && (forall i, j :: 0 <= i < j < |chain| ==> chain[i] != chain[j])
  }

  /** The chain visits each page with room exactly once, and no full page. */
  ghost predicate ChainOk(h: HeapFile, chain: seq<int>) {
    && Linked(h.pages, h.firstFree, chain)
    && (forall p :: p in h.pages ==> (p in chain <==> h.pages[p].numRecords < h.capacity))
  }

  ghost predicate Inv(h: HeapFile) {
    PagesOk(h) && exists chain :: ChainOk(h, chain)
  }

  /** The map the file stands for. */
  ghost function Contents(h: HeapFile): map<Rid, Record>
    requires PagesOk(h)
  {
    map p, s | p in h.pages && 0 <= s < h.capacity && h.pages[p].bitmap[s] :: Rid(p, s) := h.pages[p].slots[s]
  }

  ghost predicate Stored(h: HeapFile, rid: Rid)
    requires PagesOk(h)
  {
    rid.pageNo in h.pages && 0 <= rid.slotNo < h.capacity && h.pages[rid.pageNo].bitmap[rid.slotNo]
  }

  lemma ContentsAt(h: HeapFile)
    requires PagesOk(h)
    ensures forall rid :: rid in Contents(h) <==> Stored(h, rid)
    ensures forall rid :: rid in Contents(h) ==> Contents(h)[rid] == h.pages[rid.pageNo].slots[rid.slotNo]
  {
    forall rid | Stored(h, rid) ensures rid in Contents(h) {
      assert rid == Rid(rid.pageNo, rid.slotNo);
    }
  }

  lemma ReplacePage(h: HeapFile, p: int, page: RmPage)
    requires PagesOk(h) && p in h.pages && PageOk(h, page)
    ensures PagesOk(h.(pages := h.pages[p := page]))
  {
  }

  lemma HeadIrrelevant(h: HeapFile, firstFree: int)
    requires PagesOk(h)
    ensures PagesOk(h.(firstFree := firstFree)) && Contents(h.(firstFree := firstFree)) == Contents(h)
  {
  }

  // Operations.

  /** The page new_page zeroed, with its header and bitmap initialised. */
  function EmptyPage(h: HeapFile): RmPage {
    RmPage(NO_PAGE, 0, seq(h.capacity, _ => false), seq(h.capacity, _ => seq(h.recordSize, _ => 0)))
  }

  /** create_new_page_handle: the page number comes from the pool's counter. */
  function CreateNewPage(h: HeapFile): (HeapFile, int) {
    (h.(counter := h.counter + 1,
        pages := h.pages[h.counter := EmptyPage(h)],
        numPages := h.numPages + 1,
        firstFree := h.counter), h.counter)
  }

  function CreatePage(h: HeapFile): (HeapFile, int) {
    if h.firstFree == NO_PAGE then CreateNewPage(h) else (h, h.firstFree)
  }

  predicate ValidSlot(capacity: nat, rid: Rid) {
    FIRST_RECORD_PAGE <= rid.pageNo && 0 <= rid.slotNo < capacity
  }

  function Get(h: HeapFile, rid: Rid): Result<Option<Record>, Error>
    requires PagesOk(h) && ValidSlot(h.capacity, rid)
  {
    if rid.pageNo >= h.numPages then Err(PageNotExist(rid.pageNo))
    else
      var page := h.pages[rid.pageNo];
      Ok(if page.bitmap[rid.slotNo] then Some(page.slots[rid.slotNo]) else None)
  }

  function FillSlot(page: RmPage, slot: nat, record: Record): RmPage
    requires slot < |page.bitmap| == |page.slots|
  {
    page.(slots := page.slots[slot := record], bitmap := page.bitmap[slot := true], numRecords := page.numRecords + 1)
  }

  /** Put a page back as the head of the chain, or unlink it if it is full now. */
  function WithHead(h: HeapFile, page: RmPage): HeapFile {
    h.(pages := h.pages[h.firstFree := page],
       firstFree := if page.numRecords == h.capacity then page.nextFree else h.firstFree)
  }

  function Insert(h: HeapFile, buf: Record): (HeapFile, Rid)
    requires Inv(h) && |buf| >= h.recordSize
  {
    InsertHasRoom(h);
    var (h1, p) := CreatePage(h);
    var slot := NextBit(false, h1.pages[p].bitmap, -1);
    (WithHead(h1, FillSlot(h1.pages[p], slot, buf[..h.recordSize])), Rid(p, slot))
  }

  /** Free a used slot; a page that was full becomes the head of the chain. */
  function ClearSlot(h: HeapFile, p: int, slot: nat): HeapFile
    requires p in h.pages && slot < |h.pages[p].bitmap|
  {
    var page := h.pages[p];
    var wasFull := page.numRecords == h.capacity;
    h.(pages := h.pages[p := page.(bitmap := page.bitmap[slot := false], numRecords := page.numRecords - 1,
                                   nextFree := if wasFull then h.firstFree else page.nextFree)],
       firstFree := if wasFull then p else h.firstFree)
  }

  function Delete(h: HeapFile, rid: Rid): Result<HeapFile, Error>
    requires PagesOk(h) && ValidSlot(h.capacity, rid)
  {
    if rid.pageNo >= h.numPages then Err(PageNotExist(rid.pageNo))
    else if !h.pages[rid.pageNo].bitmap[rid.slotNo] then Ok(h)
    else Ok(ClearSlot(h, rid.pageNo, rid.slotNo))
  }

  function Update(h: HeapFile, rid: Rid, buf: Record): Result<HeapFile, Error>
    requires PagesOk(h) && ValidSlot(h.capacity, rid) && |buf| >= h.recordSize
  {
    if rid.pageNo >= h.numPages then Err(PageNotExist(rid.pageNo))
    else
      var page := h.pages[rid.pageNo];
      if !page.bitmap[rid.slotNo] then Ok(h)
      else Ok(h.(pages := h.pages[rid.pageNo := page.(slots := page.slots[rid.slotNo := buf[..h.recordSize]])]))
  }

  // A fresh page.

  lemma EmptyPageOk(h: HeapFile)
    ensures PageOk(h, EmptyPage(h))
  {
    CountAll(EmptyPage(h).bitmap);
  }

  lemma NewPageOk(h: HeapFile)
    requires PagesOk(h)
    ensures PagesOk(CreateNewPage(h).0) && CreateNewPage(h).1 == h.numPages && h.numPages !in h.pages
    ensures Count(EmptyPage(h).bitmap) == 0
  {
    EmptyPageOk(h);
  }

  lemma NewPageKeepsPages(h: HeapFile)
    requires PagesOk(h)
    ensures PagesOk(CreateNewPage(h).0) && Contents(CreateNewPage(h).0) == Contents(h)
    ensures CreateNewPage(h).1 == h.numPages && h.numPages !in h.pages
  {
    NewPageOk(h);
    ContentsAt(h);
    ContentsAt(CreateNewPage(h).0);
    hide Contents, Count;
    assert forall rid :: Stored(CreateNewPage(h).0, rid) <==> Stored(h, rid);
  }

  /** `create_new_page_handle` is public. It keeps the chain exactly when the chain was empty: called
      while some page has room it drops every such page from the chain. */
  lemma NewPageKeepsChainIffNoneFree(h: HeapFile)
    requires Inv(h)
    ensures Inv(CreateNewPage(h).0) <==> h.firstFree == NO_PAGE
  {
    NewPageKeepsPages(h);
    var (h1, p) := CreateNewPage(h);
    var chain :| ChainOk(h, chain);
    if chain == [] {
      assert Linked(h1.pages, h1.firstFree, [p]);
      assert ChainOk(h1, [p]);
    } else {
      assert chain[0] in chain && chain[0] in h.pages;
      forall c1 | Linked(h1.pages, h1.firstFree, c1) ensures !ChainOk(h1, c1) {
        LastOfChain(h1.pages, p, c1);
        assert chain[0] !in c1 && chain[0] in h1.pages;
      }
    }
  }

  /** One data page of two slots, one of them used. */
  function HalfFull(): HeapFile {
    HeapFile(1, 2, 2, 1, map[1 := RmPage(NO_PAGE, 1, [true, false], [[7], [0]])], 2)
  }

  /** A new page on top of a half-full one: no chain starting at the new page reaches the free slot. */
  lemma HalfFullPageIsDropped()
    ensures Inv(HalfFull()) && HalfFull().firstFree != NO_PAGE && !Inv(CreateNewPage(HalfFull()).0)
    ensures
      var h1 := CreateNewPage(HalfFull()).0;
      && h1.pages[1].numRecords < h1.capacity
      && forall chain :: Linked(h1.pages, h1.firstFree, chain) ==> chain == [2]
  {
    var h := HalfFull();
    assert [true, false][..1] == [true] && [true][..0] == [];
    assert Count([true, false]) == 1;
    assert ChainOk(h, [1]);
    NewPageKeepsChainIffNoneFree(h);
    var h1 := CreateNewPage(h).0;
    forall chain | Linked(h1.pages, h1.firstFree, chain) ensures chain == [2] {
      LastOfChain(h1.pages, 2, chain);
    }
  }

  lemma LastOfChain(pages: map<int, RmPage>, p: int, chain: seq<int>)
    requires Linked(pages, p, chain) && NO_PAGE !in pages && p in pages && pages[p].nextFree == NO_PAGE
    ensures chain == [p]
  {
    assert chain[0] == p;
    assert |chain| == 1;
  }

  lemma LinkAt(pages: map<int, RmPage>, p: int, chain: seq<int>, i: nat)
    requires Linked(pages, p, chain) && i < |chain|
    ensures chain[i] in pages && pages[chain[i]].nextFree == if i + 1 < |chain| then chain[i + 1] else NO_PAGE
    ensures i + 1 < |chain| ==> chain[i + 1] in pages
  {
    assert chain[i] in pages;
    if i + 1 < |chain| {
      assert chain[i + 1] in pages;
    }
  }

  /** The page an insert works on exists, heads the chain and has a free slot. */
  /** Which slot an insertion takes: the first free one of the page at the head of the chain, or the first of a new
      page if the chain is empty. The page leaves the chain if and only if it is full now. */
  lemma InsertTakesFirstGap(h: HeapFile, buf: Record)
    requires Inv(h) && |buf| >= h.recordSize
    ensures
      var (h', rid) := Insert(h, buf);
      if h.firstFree == NO_PAGE then
        && rid == Rid(h.numPages, 0) && h'.numPages == h.numPages + 1
        && h'.firstFree == if h.capacity == 1 then NO_PAGE else h.numPages
      else
        && rid.pageNo == h.firstFree && h.firstFree in h.pages && 0 <= rid.slotNo < |h.pages[h.firstFree].bitmap|
        && !h.pages[h.firstFree].bitmap[rid.slotNo] && h'.numPages == h.numPages
        && (forall s :: 0 <= s < rid.slotNo ==> h.pages[h.firstFree].bitmap[s])
        && h'.firstFree == if h.pages[h.firstFree].numRecords + 1 == h.capacity then h.pages[h.firstFree].nextFree
                           else h.firstFree
  {
    InsertHasRoom(h);
    hide ChainOk, Contents;
  }

  /** A deletion puts a page that was full at the head of the chain, in front of what was there; the other pages
      keep their place. */
  lemma DeleteLinksFull(h: HeapFile, rid: Rid)
    requires Inv(h) && Stored(h, rid)
    ensures
      var page := h.pages[rid.pageNo];
      && Delete(h, rid).Ok?
      && var h' := Delete(h, rid).value;
        && rid.pageNo in h'.pages
        && (page.numRecords == h.capacity ==>
             h'.firstFree == rid.pageNo && h'.pages[rid.pageNo].nextFree == h.firstFree)
        && (page.numRecords != h.capacity ==>
             h'.firstFree == h.firstFree && h'.pages[rid.pageNo].nextFree == page.nextFree)
  {
    hide ChainOk;
  }

  lemma InsertHasRoom(h: HeapFile)
    requires Inv(h)
    ensures
      var (h1, p) := CreatePage(h);
      && Inv(h1) && Contents(h1) == Contents(h) && h1.capacity == h.capacity && h1.recordSize == h.recordSize
      && p == h1.firstFree && p in h1.pages && h1.pages[p].numRecords < h.capacity
      && NextBit(false, h1.pages[p].bitmap, -1) < |h1.pages[p].bitmap|
  {
    var (h1, p) := CreatePage(h);
    if h.firstFree == NO_PAGE {
      NewPageKeepsPages(h);
      NewPageKeepsChainIffNoneFree(h);
    }
    var chain :| ChainOk(h1, chain);
    assert chain[0] in chain && chain[0] == p;
    CountAll(h1.pages[p].bitmap);
  }

  // Each operation keeps the invariant and acts on the map.

  /** Changing one page's slots and counter, not its link, keeps the chain if its fullness stays. */
  lemma ChainUnmoved(h: HeapFile, chain: seq<int>, p: int, page: RmPage)
    requires ChainOk(h, chain) && p in h.pages
    requires page.nextFree == h.pages[p].nextFree
    requires page.numRecords < h.capacity <==> h.pages[p].numRecords < h.capacity
    ensures ChainOk(h.(pages := h.pages[p := page]), chain)
  {
  }

  /** A head page that fills up is unlinked. */
  lemma ChainPop(h: HeapFile, chain: seq<int>, page: RmPage)
    requires ChainOk(h, chain) && h.firstFree in h.pages
    requires page.nextFree == h.pages[h.firstFree].nextFree && page.numRecords == h.capacity
    ensures chain != [] && ChainOk(h.(pages := h.pages[h.firstFree := page], firstFree := page.nextFree), chain[1..])
    requires NO_PAGE !in h.pages
  {
    assert chain != [] && chain[0] in h.pages;
    var p, rest := h.firstFree, chain[1..];
    var h1 := h.(pages := h.pages[p := page], firstFree := page.nextFree);
    assert chain == [p] + rest;
    LinkAt(h.pages, p, chain, 0);
    assert rest != [] ==> rest[0] == chain[1];
    forall i | 0 <= i < |rest|
      ensures rest[i] != p && rest[i] in h1.pages
      ensures h1.pages[rest[i]].nextFree == if i + 1 < |rest| then rest[i + 1] else NO_PAGE
    {
      assert rest[i] == chain[i + 1] && chain[0] != chain[i + 1];
      assert h1.pages[rest[i]] == h.pages[chain[i + 1]];
      LinkAt(h.pages, p, chain, i + 1);
      assert i + 1 < |rest| ==> rest[i + 1] == chain[i + 2];
    }
    assert Linked(h1.pages, h1.firstFree, rest);
    assert forall q :: q in chain <==> q == p || q in rest;
  }

  /** A full page that gains room becomes the head. */
  lemma ChainPush(h: HeapFile, chain: seq<int>, p: int, page: RmPage)
    requires ChainOk(h, chain) && p in h.pages && h.pages[p].numRecords == h.capacity
    requires page.nextFree == h.firstFree && page.numRecords < h.capacity
    ensures ChainOk(h.(pages := h.pages[p := page], firstFree := p), [p] + chain)
  {
    var c1, h1 := [p] + chain, h.(pages := h.pages[p := page], firstFree := p);
    assert p !in chain;
    forall i | 0 <= i < |c1|
      ensures c1[i] in h1.pages && h1.pages[c1[i]].nextFree == if i + 1 < |c1| then c1[i + 1] else NO_PAGE
    {
      if i > 0 {
        LinkAt(h.pages, h.firstFree, chain, i - 1);
        assert c1[i] == chain[i - 1] && h1.pages[c1[i]] == h.pages[chain[i - 1]];
      }
      if i + 1 < |c1| {
        assert c1[i + 1] == chain[i];
      }
    }
    assert Linked(h1.pages, h1.firstFree, c1);
    forall q ensures q in c1 <==> q == p || q in chain {
      if q in chain {
        assert c1[1..] == chain;
      }
    }
    assert c1[0] == p;
  }

  lemma FillChain(h: HeapFile, page: RmPage)
    requires Inv(h) && h.firstFree in h.pages && h.pages[h.firstFree].numRecords < h.capacity
    requires page.nextFree == h.pages[h.firstFree].nextFree && page.numRecords <= h.capacity
    ensures exists chain :: ChainOk(WithHead(h, page), chain)
  {
    var chain :| ChainOk(h, chain);
    if page.numRecords == h.capacity {
      ChainPop(h, chain, page);
      assert ChainOk(WithHead(h, page), chain[1..]);
    } else {
      ChainUnmoved(h, chain, h.firstFree, page);
      assert ChainOk(WithHead(h, page), chain);
    }
  }

  /** Filling a free slot of the head page. */
  lemma FillHead(h: HeapFile, slot: nat, record: Record)
    requires Inv(h) && h.firstFree in h.pages && |record| == h.recordSize
    requires slot < |h.pages[h.firstFree].bitmap| && !h.pages[h.firstFree].bitmap[slot]
    ensures
      var h' := WithHead(h, FillSlot(h.pages[h.firstFree], slot, record));
      && Inv(h') && Rid(h.firstFree, slot) !in Contents(h)
      && Contents(h') == Contents(h)[Rid(h.firstFree, slot) := record]
  {
    var p := h.firstFree;
    var page := FillSlot(h.pages[p], slot, record);
    CountUpdate(h.pages[p].bitmap, slot, true);
    CountAll(h.pages[p].bitmap);
    CountAll(page.bitmap);
    FillContents(h, p, slot, page);
    hide Contents, ChainOk;
    HeadIrrelevant(h.(pages := h.pages[p := page]), page.nextFree);
    FillChain(h, page);
    ContentsAt(h);
  }

  /** Inserting puts the record under a Rid that was not in use. */
  lemma InsertRefines(h: HeapFile, buf: Record)
    requires Inv(h) && |buf| >= h.recordSize
    ensures
      var (h', rid) := Insert(h, buf);
      && Inv(h') && rid !in Contents(h)
      && Contents(h') == Contents(h)[rid := buf[..h.recordSize]]
      && h'.recordSize == h.recordSize && h'.capacity == h.capacity
  {
    InsertHasRoom(h);
    var (h1, p) := CreatePage(h);
    FillHead(h1, NextBit(false, h1.pages[p].bitmap, -1), buf[..h.recordSize]);
  }

  lemma FillContents(h: HeapFile, p: int, slot: nat, page: RmPage)
    requires PagesOk(h) && p in h.pages && slot < h.capacity && PageOk(h, page)
    requires page.bitmap == h.pages[p].bitmap[slot := true]
    requires forall s :: 0 <= s < h.capacity && s != slot ==> page.slots[s] == h.pages[p].slots[s]
    ensures PagesOk(h.(pages := h.pages[p := page]))
    ensures Contents(h.(pages := h.pages[p := page])) == Contents(h)[Rid(p, slot) := page.slots[slot]]
  {
    hide Contents;
    var h' := h.(pages := h.pages[p := page]);
    ReplacePage(h, p, page);
    ContentsAt(h);
    ContentsAt(h');
    assert forall rid :: Stored(h', rid) <==> Stored(h, rid) || rid == Rid(p, slot);
  }

  lemma ClearContents(h: HeapFile, p: int, slot: nat, page: RmPage)
    requires PagesOk(h) && p in h.pages && slot < h.capacity && PageOk(h, page)
    requires page.bitmap == h.pages[p].bitmap[slot := false] && page.slots == h.pages[p].slots
    ensures PagesOk(h.(pages := h.pages[p := page]))
    ensures Contents(h.(pages := h.pages[p := page])) == Contents(h) - {Rid(p, slot)}
  {
    hide Contents;
    var h' := h.(pages := h.pages[p := page]);
    ReplacePage(h, p, page);
    ContentsAt(h);
    ContentsAt(h');
    forall rid ensures Stored(h', rid) <==> Stored(h, rid) && rid != Rid(p, slot) {
    }
  }

  lemma ClearChain(h: HeapFile, rid: Rid)
    requires Inv(h) && ValidSlot(h.capacity, rid) && rid.pageNo < h.numPages && h.pages[rid.pageNo].bitmap[rid.slotNo]
    ensures exists chain :: ChainOk(Delete(h, rid).value, chain)
  {
    var page, page' := h.pages[rid.pageNo], Delete(h, rid).value.pages[rid.pageNo];
    CountAll(page.bitmap);
    var chain :| ChainOk(h, chain);
    if page.numRecords == h.capacity {
      ChainPush(h, chain, rid.pageNo, page');
    } else {
      ChainUnmoved(h, chain, rid.pageNo, page');
    }
  }

  /** Clearing a used slot; a page that was full goes back on the chain. */
  lemma ClearUsed(h: HeapFile, rid: Rid)
    requires Inv(h) && ValidSlot(h.capacity, rid) && rid.pageNo < h.numPages && h.pages[rid.pageNo].bitmap[rid.slotNo]
    ensures Inv(Delete(h, rid).value) && Contents(Delete(h, rid).value) == Contents(h) - {rid}
  {
    CountUpdate(h.pages[rid.pageNo].bitmap, rid.slotNo, false);
    var page := Delete(h, rid).value.pages[rid.pageNo];
    ClearContents(h, rid.pageNo, rid.slotNo, page);
    hide Contents, ChainOk;
    HeadIrrelevant(h.(pages := h.pages[rid.pageNo := page]), Delete(h, rid).value.firstFree);
    ClearChain(h, rid);
  }

  /** Deleting removes the record; a page number the file does not have is the only error. */
  lemma DeleteRefines(h: HeapFile, rid: Rid)
    requires Inv(h) && ValidSlot(h.capacity, rid)
    ensures Delete(h, rid).Err? <==> rid.pageNo >= h.numPages
    ensures Delete(h, rid).Ok? ==>
      var h' := Delete(h, rid).value;
      && Inv(h') && Contents(h') == Contents(h) - {rid}
      && h'.recordSize == h.recordSize && h'.capacity == h.capacity && h'.numPages == h.numPages
  {
    if rid.pageNo < h.numPages {
      if h.pages[rid.pageNo].bitmap[rid.slotNo] {
        ClearUsed(h, rid);
      } else {
        assert Contents(h) - {rid} == Contents(h);
      }
    }
  }

  /** Updating replaces an existing record and never creates one. */
  lemma UpdateRefines(h: HeapFile, rid: Rid, buf: Record)
    requires Inv(h) && ValidSlot(h.capacity, rid) && |buf| >= h.recordSize
    ensures Update(h, rid, buf).Err? <==> rid.pageNo >= h.numPages
    ensures Update(h, rid, buf).Ok? ==>
      var h' := Update(h, rid, buf).value;
      && Inv(h')
      && Contents(h') == (if rid in Contents(h) then Contents(h)[rid := buf[..h.recordSize]] else Contents(h))
      && h'.recordSize == h.recordSize && h'.capacity == h.capacity && h'.numPages == h.numPages
  {
    if rid.pageNo < h.numPages && h.pages[rid.pageNo].bitmap[rid.slotNo] {
      var h' := Update(h, rid, buf).value;
      var page' := h'.pages[rid.pageNo];
      var chain :| ChainOk(h, chain);
      ChainUnmoved(h, chain, rid.pageNo, page');
      assert ChainOk(h', chain);
      assert page'.bitmap == h.pages[rid.pageNo].bitmap[rid.slotNo := true];
      FillContents(h, rid.pageNo, rid.slotNo, page');
    }
  }

  lemma GetIsLookup(h: HeapFile, rid: Rid)
    requires PagesOk(h) && ValidSlot(h.capacity, rid)
    ensures Get(h, rid) ==
      if rid.pageNo >= h.numPages then Err(PageNotExist(rid.pageNo))
      else Ok(if rid in Contents(h) then Some(Contents(h)[rid]) else None)
  {
  }

  // Runs.

  datatype Op = InsertOp(buf: Record) | DeleteOp(rid: Rid) | UpdateOp(rid: Rid, buf: Record)

  predicate OpOk(recordSize: nat, capacity: nat, op: Op) {
    match op
    case InsertOp(buf) => |buf| >= recordSize
    case DeleteOp(rid) => ValidSlot(capacity, rid)
    case UpdateOp(rid, buf) => ValidSlot(capacity, rid) && |buf| >= recordSize
  }

  /** One operation; a call that throws leaves the file alone. */
  function Perform(h: HeapFile, op: Op): (HeapFile, Result<Rid, Error>)
    requires Inv(h) && OpOk(h.recordSize, h.capacity, op)
  {
    match op
    case InsertOp(buf) => var (h', rid) := Insert(h, buf); (h', Ok(rid))
    case DeleteOp(rid) =>
      (match Delete(h, rid) case Ok(h') => (h', Ok(rid)) case Err(e) => (h, Err(e)))
    case UpdateOp(rid, buf) =>
      (match Update(h, rid, buf) case Ok(h') => (h', Ok(rid)) case Err(e) => (h, Err(e)))
  }

  /** What the operation does to a finite map; an insertion chooses the key. */
  ghost function MapNext(m: map<Rid, Record>, recordSize: nat, op: Op, answer: Result<Rid, Error>): map<Rid, Record> {
    match op
    case InsertOp(buf) => if answer.Ok? && |buf| >= recordSize then m[answer.value := buf[..recordSize]] else m
    case DeleteOp(rid) => m - {rid}
    case UpdateOp(rid, buf) => if rid in m && |buf| >= recordSize then m[rid := buf[..recordSize]] else m
  }

  ghost predicate MapLegal(m: map<Rid, Record>, op: Op, answer: Result<Rid, Error>) {
    op.InsertOp? ==> answer.Ok? && answer.value !in m
  }

  lemma PerformRefines(h: HeapFile, op: Op)
    requires Inv(h) && OpOk(h.recordSize, h.capacity, op)
    ensures
      var (h', answer) := Perform(h, op);
      && Inv(h') && h'.recordSize == h.recordSize && h'.capacity == h.capacity
      && MapLegal(Contents(h), op, answer)
      && Contents(h') == MapNext(Contents(h), h.recordSize, op, answer)
  {
    hide Contents, Inv, Insert, Delete, Update;
    match op
    case InsertOp(buf) => InsertRefines(h, buf);
    case DeleteOp(rid) =>
      DeleteRefines(h, rid);
      NoRecordThere(h, rid);
    case UpdateOp(rid, buf) =>
      UpdateRefines(h, rid, buf);
      NoRecordThere(h, rid);
  }

  lemma NoRecordThere(h: HeapFile, rid: Rid)
    requires Inv(h)
    ensures rid.pageNo >= h.numPages ==> rid !in Contents(h) && Contents(h) - {rid} == Contents(h)
  {
    ContentsAt(h);
  }

  ghost function RunOps(h: HeapFile, ops: seq<Op>): (HeapFile, seq<Result<Rid, Error>>)
    requires Inv(h) && forall op :: op in ops ==> OpOk(h.recordSize, h.capacity, op)
    decreases |ops|
  {
    if ops == [] then (h, [])
    else
      PerformRefines(h, ops[0]);
      var (h1, answer) := Perform(h, ops[0]);
      var (h2, answers) := RunOps(h1, ops[1..]);
      (h2, [answer] + answers)
  }

  ghost predicate MapRun(m: map<Rid, Record>, recordSize: nat, ops: seq<Op>, answers: seq<Result<Rid, Error>>,
                         m': map<Rid, Record>)
    decreases |ops|
  {
    && |answers| == |ops|
    && if ops == [] then m' == m
       else
         && MapLegal(m, ops[0], answers[0])
         && MapRun(MapNext(m, recordSize, ops[0], answers[0]), recordSize, ops[1..], answers[1..], m')
  }

  /** Over every run the file keeps its invariant, chain and counters included, and is a finite map. */
  lemma {:induction false} RunRefinesMap(h: HeapFile, ops: seq<Op>)
    requires Inv(h) && forall op :: op in ops ==> OpOk(h.recordSize, h.capacity, op)
    ensures
      var (h', answers) := RunOps(h, ops);
      Inv(h') && MapRun(Contents(h), h.recordSize, ops, answers, Contents(h'))
    decreases |ops|
  {
    if ops == [] {
    } else {
      PerformRefines(h, ops[0]);
      hide Inv, Contents, Perform;
      RunRefinesMap(Perform(h, ops[0]).0, ops[1..]);
    }
  }

  /** A file as create_file leaves it and the handle's constructor opens it. */
  function Created(recordSize: nat, capacity: nat): HeapFile {
    HeapFile(recordSize, capacity, 1, NO_PAGE, map[], 1)
  }

  lemma CreatedOk(recordSize: nat, capacity: nat)
    requires 0 < capacity
    ensures Inv(Created(recordSize, capacity)) && Contents(Created(recordSize, capacity)) == map[]
  {
    assert ChainOk(Created(recordSize, capacity), []);
  }

  // The handle.

  /** The loop of Bitmap::next_bit. */
  method FindBit(bit: bool, bitmap: seq<bool>, curr: int) returns (pos: nat)
    requires -1 <= curr
    ensures pos == NextBit(bit, bitmap, curr)
  {
    pos := curr + 1;
    while pos < |bitmap|
      invariant curr < pos && NextBit(bit, bitmap, curr) == NextBit(bit, bitmap, pos - 1)
    {
      if bitmap[pos] == bit {
        return;
      }
      pos := pos + 1;
    }
    pos := |bitmap|;
  }

  class RmFileHandle {
    const recordSize: nat
    const capacity: nat
    var numPages: int
    var firstFree: int
    var pages: map<int, RmPage>
    var counter: int

    ghost function Abs(): HeapFile
      reads this
    {
      HeapFile(recordSize, capacity, numPages, firstFree, pages, counter)
    }

    ghost predicate Valid()
      reads this
    {
      Inv(Abs())
    }

    /** Open a file: its header says how many pages it has, and the pool's counter is set to that. */
    constructor (ghost file: HeapFile, recordSize: nat, capacity: nat, numPages: int, firstFree: int,
                 pages: map<int, RmPage>)
      requires Inv(file) && file == HeapFile(recordSize, capacity, numPages, firstFree, pages, numPages)
      ensures Valid() && Abs() == file
    {
      this.recordSize, this.capacity := recordSize, capacity;
      this.numPages, this.firstFree, this.pages := numPages, firstFree, pages;
      counter := numPages;
    }

    method GetRecord(rid: Rid) returns (r: Result<Option<Record>, Error>)
      requires PagesOk(Abs()) && ValidSlot(capacity, rid)
      ensures r == Get(Abs(), rid)
    {
      if rid.pageNo >= numPages {
        return Err(PageNotExist(rid.pageNo));
      }
      var page := pages[rid.pageNo];
      if !page.bitmap[rid.slotNo] {
        return Ok(None);
      }
      return Ok(Some(page.slots[rid.slotNo]));
    }

    method CreateNewPageHandle() returns (p: int)
      modifies this
      ensures (Abs(), p) == CreateNewPage(old(Abs()))
    {
      p := counter;
      counter := counter + 1;
      pages := pages[p := RmPage(NO_PAGE, 0, seq(capacity, _ => false), seq(capacity, _ => seq(recordSize, _ => 0)))];
      numPages := numPages + 1;
      firstFree := p;
    }

    method CreatePageHandle() returns (p: int)
      requires Valid()
      modifies this
      ensures (Abs(), p) == CreatePage(old(Abs()))
    {
      if firstFree == NO_PAGE {
        p := CreateNewPageHandle();
      } else {
        p := firstFree;
      }
    }

    method InsertRecord(buf: Record) returns (rid: Rid)
      requires Valid() && |buf| >= recordSize
      modifies this
      ensures Valid() && (Abs(), rid) == Insert(old(Abs()), buf)
    {
      InsertRefines(Abs(), buf);
      InsertHasRoom(Abs());
      hide PagesOk, ChainOk, NextBit, Count, Contents;
      var p := CreatePageHandle();
      DataPages(Abs());
      var slot := FindBit(false, pages[p].bitmap, -1);
      FillHandle(p, slot, buf);
      return Rid(p, slot);
    }

    /** The memcpy, the bitmap, the counter and the chain head of an insertion. */
    method FillHandle(p: int, slot: nat, buf: Record)
      requires p == firstFree && p in pages && slot < |pages[p].bitmap| == |pages[p].slots| && |buf| >= recordSize
      modifies this
      ensures Abs() == WithHead(old(Abs()), FillSlot(old(pages[p]), slot, buf[..recordSize]))
    {
      var page := pages[p];
      page := page.(slots := page.slots[slot := buf[..recordSize]]);
      page := page.(bitmap := page.bitmap[slot := true]);
      page := page.(numRecords := page.numRecords + 1);
      pages := pages[p := page];
      if page.numRecords == capacity {
        firstFree := page.nextFree;
      }
    }

    method ReleasePageHandle(p: int)
      requires p in pages
      modifies this
      ensures pages == old(pages)[p := old(pages[p]).(nextFree := old(firstFree))] && firstFree == p
      ensures numPages == old(numPages) && counter == old(counter)
    {
      pages := pages[p := pages[p].(nextFree := firstFree)];
      firstFree := p;
    }

    method DeleteRecord(rid: Rid) returns (r: Result<(), Error>)
      requires Valid() && ValidSlot(capacity, rid)
      modifies this
      ensures Valid()
      ensures match Delete(old(Abs()), rid)
              case Ok(h) => r == Ok(()) && Abs() == h
              case Err(e) => r == Err(e) && Abs() == old(Abs())
    {
      DeleteRefines(Abs(), rid);
      DataPages(Abs());
      hide PagesOk, ChainOk, Count, Contents;
      if rid.pageNo >= numPages {
        return Err(PageNotExist(rid.pageNo));
      }
      if !pages[rid.pageNo].bitmap[rid.slotNo] {
        return Ok(());
      }
      ClearHandle(rid.pageNo, rid.slotNo);
      return Ok(());
    }

    /** The bitmap, the counter and the chain of a deletion. */
    method ClearHandle(p: int, slot: nat)
      requires p in pages && slot < |pages[p].bitmap|
      modifies this
      ensures Abs() == ClearSlot(old(Abs()), p, slot)
    {
      var page := pages[p];
      var wasFull := page.numRecords == capacity;
      page := page.(bitmap := page.bitmap[slot := false]);
      page := page.(numRecords := page.numRecords - 1);
      pages := pages[p := page];
      if wasFull {
        ReleasePageHandle(p);
      }
    }

    method UpdateRecord(rid: Rid, buf: Record) returns (r: Result<(), Error>)
      requires Valid() && ValidSlot(capacity, rid) && |buf| >= recordSize
      modifies this
      ensures Valid()
      ensures match Update(old(Abs()), rid, buf)
              case Ok(h) => r == Ok(()) && Abs() == h
              case Err(e) => r == Err(e) && Abs() == old(Abs())
    {
      UpdateRefines(Abs(), rid, buf);
      DataPages(Abs());
      hide PagesOk, ChainOk, Count, Contents;
      if rid.pageNo >= numPages {
        return Err(PageNotExist(rid.pageNo));
      }
      var page := pages[rid.pageNo];
      if !page.bitmap[rid.slotNo] {
        return Ok(());
      }
      pages := pages[rid.pageNo := page.(slots := page.slots[rid.slotNo := buf[..recordSize]])];
      return Ok(());
    }
  }
}
