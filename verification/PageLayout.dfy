/** The bytes of a data page: log sequence number, page header, bitmap, slots
    (src/record/rm_manager.h, src/record/rm_file_handle.h, src/record/bitmap.h). */
module PageLayout {
  import opened Page
  import opened Values
  import H = HeapFile

  const BITMAP_WIDTH: nat := 8
  const MAX_RECORD_SIZE: nat := 512
  const SIZEOF_FILE_HDR: nat := 20
  const OFFSET_PAGE_HDR: nat := 4
  const SIZEOF_PAGE_HDR: nat := 8
  const BITMAP_START: nat := OFFSET_PAGE_HDR + SIZEOF_PAGE_HDR

  // Capacity.

  /** num_records_per_page as create_file computes it. */
  function Capacity(recordSize: nat): nat {
    (BITMAP_WIDTH * (PAGE_SIZE - 1 - SIZEOF_FILE_HDR) + 1) / (1 + recordSize * BITMAP_WIDTH)
  }

  function BitmapSize(capacity: nat): nat {
    (capacity + BITMAP_WIDTH - 1) / BITMAP_WIDTH
  }

  function SlotStart(recordSize: nat, capacity: nat, slot: nat): nat {
    BITMAP_START + BitmapSize(capacity) + slot * recordSize
  }

  /** A page of this shape holds everything it must. */
  predicate FitsPage(recordSize: nat, capacity: nat) {
    0 < capacity && 0 < recordSize && SlotStart(recordSize, capacity, capacity) <= PAGE_SIZE
  }

  /** For every record size create_file accepts, at least one record fits and the page is not overrun. */
  lemma CapacityFits(recordSize: nat)
    requires 1 <= recordSize <= MAX_RECORD_SIZE
    ensures FitsPage(recordSize, Capacity(recordSize))
  {
    var d := 1 + recordSize * BITMAP_WIDTH;
    var n := Capacity(recordSize);
    assert d <= 4097;
    assert n * d <= 32601 < (n + 1) * d;
    if n == 0 {
      assert false;
    }
    assert n + 8 * (n * recordSize) <= 32601;
  }

  /** What create_file's formula solves: the file header's size, a bit and a record for each slot. */
  predicate Solves(recordSize: nat, n: nat) {
    20 + (n + 7) / 8 + n * recordSize <= 4096
  }

  /** The capacity solves it, and nothing larger does but perhaps one more. */
  lemma CapacityClosest(recordSize: nat, n: nat)
    requires 1 <= recordSize <= MAX_RECORD_SIZE
    ensures Solves(recordSize, Capacity(recordSize))
    ensures n > Capacity(recordSize) + 1 ==> !Solves(recordSize, n)
  {
    var d, k := 1 + recordSize * BITMAP_WIDTH, Capacity(recordSize);
    assert k * d <= 32601 < (k + 1) * d;
    assert k * d == k + 8 * (k * recordSize) && n * d == n + 8 * (n * recordSize);
    if n > k + 1 {
      MulMonotone(k + 2, n, d);
      assert (k + 2) * d == (k + 1) * d + d;
    }
  }

  /** Records of one byte: one more would do. */
  lemma OneMoreSolves()
    ensures Capacity(1) == 3622 && Solves(1, 3623)
  {
  }

  lemma MulMonotone(a: nat, b: nat, c: nat)
    requires a <= b
    ensures a * c <= b * c
  {
  }

  /** Slots neither overlap each other nor the header and bitmap, and end inside the page. */
  lemma SlotsApart(recordSize: nat, capacity: nat, i: nat, j: nat)
    requires FitsPage(recordSize, capacity) && i < capacity && j < capacity
    ensures BITMAP_START + BitmapSize(capacity) <= SlotStart(recordSize, capacity, i)
    ensures SlotStart(recordSize, capacity, i) + recordSize <= PAGE_SIZE
    ensures i < j ==> SlotStart(recordSize, capacity, i) + recordSize <= SlotStart(recordSize, capacity, j)
  {
    hide BitmapSize;
    MulMonotone(i + 1, capacity, recordSize);
    assert (i + 1) * recordSize == i * recordSize + recordSize;
    if i < j {
      MulMonotone(i + 1, j, recordSize);
    }
  }

  lemma BitInBitmap(capacity: nat, i: nat)
    requires i < capacity
    ensures i / BITMAP_WIDTH < BitmapSize(capacity)
  {
  }

  // Bits.

  const HIGHEST_BIT: bv8 := 0x80

  /** get_bit. */
  function Mask(pos: nat): bv8 {
    HIGHEST_BIT >> (pos % BITMAP_WIDTH)
  }

  lemma MaskCases(pos: nat)
    ensures OneBit(Mask(pos))
    ensures
      var k := pos % BITMAP_WIDTH;
      Mask(pos) == (if k == 0 then 0x80 else if k == 1 then 0x40 else if k == 2 then 0x20 else if k == 3 then 0x10
                    else if k == 4 then 0x08 else if k == 5 then 0x04 else if k == 6 then 0x02 else 0x01)
  {
  }

  predicate BitSet(byte: bv8, pos: nat) {
    byte & Mask(pos) != 0
  }

  predicate IsSet(bm: seq<bv8>, pos: nat)
    requires pos / BITMAP_WIDTH < |bm|
  {
    BitSet(bm[pos / BITMAP_WIDTH], pos)
  }

  function SetBit(bm: seq<bv8>, pos: nat): seq<bv8>
    requires pos / BITMAP_WIDTH < |bm|
  {
    bm[pos / BITMAP_WIDTH := bm[pos / BITMAP_WIDTH] | Mask(pos)]
  }

  function ResetBit(bm: seq<bv8>, pos: nat): seq<bv8>
    requires pos / BITMAP_WIDTH < |bm|
  {
    bm[pos / BITMAP_WIDTH := bm[pos / BITMAP_WIDTH] & !Mask(pos)]
  }

  predicate OneBit(m: bv8) {
    m == 0x80 || m == 0x40 || m == 0x20 || m == 0x10 || m == 0x08 || m == 0x04 || m == 0x02 || m == 0x01
  }

  lemma MasksOneBit(byte: bv8, m: bv8, k: bv8)
    requires OneBit(m) && OneBit(k)
    ensures (byte | m) & k == (if k == m then m else byte & k)
    ensures (byte & !m) & k == (if k == m then 0 else byte & k)
  {
  }

  lemma MaskPerPosition(p: nat, q: nat)
    ensures OneBit(Mask(p)) && OneBit(Mask(q)) && Mask(p) != 0
    ensures Mask(p) == Mask(q) <==> p % BITMAP_WIDTH == q % BITMAP_WIDTH
  {
    MaskCases(p);
    MaskCases(q);
    hide Mask;
  }

  lemma SamePosition(p: nat, q: nat)
    requires p / BITMAP_WIDTH == q / BITMAP_WIDTH && p % BITMAP_WIDTH == q % BITMAP_WIDTH
    ensures p == q
  {
  }

  /** set and reset change exactly one bit. */
  lemma SetResetOneBit(bm: seq<bv8>, pos: nat, q: nat)
    requires pos / BITMAP_WIDTH < |bm| && q / BITMAP_WIDTH < |bm|
    ensures IsSet(SetBit(bm, pos), q) <==> q == pos || IsSet(bm, q)
    ensures IsSet(ResetBit(bm, pos), q) <==> q != pos && IsSet(bm, q)
  {
    MaskPerPosition(pos, q);
    MasksOneBit(bm[pos / BITMAP_WIDTH], Mask(pos), Mask(q));
    hide Mask, OneBit;
    if q / BITMAP_WIDTH == pos / BITMAP_WIDTH && q % BITMAP_WIDTH == pos % BITMAP_WIDTH {
      SamePosition(pos, q);
    }
  }

  // A page read as bytes.

  datatype Shape = Shape(recordSize: nat, capacity: nat)

  predicate ShapeOk(sh: Shape) {
    FitsPage(sh.recordSize, sh.capacity) && sh.capacity < 0x8000_0000
  }

  function Slice(b: seq<bv8>, from: nat, len: nat): (r: seq<bv8>)
    requires from + len <= |b|
    ensures |r| == len && forall i :: 0 <= i < len ==> r[i] == b[from + i]
  {
    b[from..from + len]
  }

  function Start(sh: Shape, slot: nat): nat {
    SlotStart(sh.recordSize, sh.capacity, slot)
  }

  function BitmapOf(b: seq<bv8>, sh: Shape): (bm: seq<bv8>)
    requires ShapeOk(sh) && |b| == PAGE_SIZE
    ensures |bm| == BitmapSize(sh.capacity)
  {
    SlotsApart(sh.recordSize, sh.capacity, 0, 0);
    Slice(b, BITMAP_START, BitmapSize(sh.capacity))
  }

  function NextFree(b: seq<bv8>): int
    requires |b| == PAGE_SIZE
  {
    Int32(Slice(b, OFFSET_PAGE_HDR, 4))
  }

  function NumRecords(b: seq<bv8>): int
    requires |b| == PAGE_SIZE
  {
    Int32(Slice(b, OFFSET_PAGE_HDR + 4, 4))
  }

  function BitAt(b: seq<bv8>, sh: Shape, i: nat): bool
    requires ShapeOk(sh) && |b| == PAGE_SIZE && i < sh.capacity
  {
    BitInBitmap(sh.capacity, i);
    IsSet(BitmapOf(b, sh), i)
  }

  function SlotAt(b: seq<bv8>, sh: Shape, i: nat): seq<bv8>
    requires ShapeOk(sh) && |b| == PAGE_SIZE && i < sh.capacity
  {
    SlotsApart(sh.recordSize, sh.capacity, i, i);
    Slice(b, Start(sh, i), sh.recordSize)
  }

  /** The typed page that a page's bytes stand for. */
  function Decode(b: seq<bv8>, sh: Shape): (p: H.RmPage)
    requires ShapeOk(sh) && |b| == PAGE_SIZE
    ensures |p.bitmap| == |p.slots| == sh.capacity
  {
    H.RmPage(NextFree(b), NumRecords(b),
             seq(sh.capacity, i requires 0 <= i < sh.capacity => BitAt(b, sh, i)),
             seq(sh.capacity, i requires 0 <= i < sh.capacity => SlotAt(b, sh, i)))
  }

  lemma MaskShifts(pos: nat)
    ensures Mask(pos) == (1 as bv8) << (7 - pos % 8)
  {
    MaskCases(pos);
  }

  /** Where everything stands in a page: the two ints of the page header after four bytes, then the bitmap with the
      highest bit of each byte first, then the records back to back. */
  lemma PageBytes(b: seq<bv8>, sh: Shape, i: nat)
    requires ShapeOk(sh) && |b| == PAGE_SIZE && i < sh.capacity
    ensures Decode(b, sh).nextFree == Int32(b[4..8]) && Decode(b, sh).numRecords == Int32(b[8..12])
    ensures 12 + i / 8 < |b| && (Decode(b, sh).bitmap[i] <==> b[12 + i / 8] & ((1 as bv8) << (7 - i % 8)) != 0)
    ensures
      var at := 12 + (sh.capacity + 7) / 8 + i * sh.recordSize;
      at + sh.recordSize <= |b| && Decode(b, sh).slots[i] == b[at..at + sh.recordSize]
  {
    MaskShifts(i);
    BitInBitmap(sh.capacity, i);
    SlotsApart(sh.recordSize, sh.capacity, i, i);
    hide Mask, Int32;
    assert Decode(b, sh).bitmap[i] == BitAt(b, sh, i) && Decode(b, sh).slots[i] == SlotAt(b, sh, i);
  }

  // Writes.

  lemma SliceOfPatch(b: seq<bv8>, at: nat, raw: seq<bv8>, from: nat, len: nat)
    requires at + |raw| <= |b| && from + len <= |b|
    ensures from + len <= at || at + |raw| <= from ==> Slice(Patch(b, at, raw), from, len) == Slice(b, from, len)
    ensures from == at && len == |raw| ==> Slice(Patch(b, at, raw), from, len) == raw
  {
  }

  function WriteNextFree(b: seq<bv8>, n: int): (r: seq<bv8>)
    requires |b| == PAGE_SIZE && -0x8000_0000 <= n < 0x8000_0000
    ensures |r| == |b|
  {
    Patch(b, OFFSET_PAGE_HDR, Encode(n))
  }

  function WriteNumRecords(b: seq<bv8>, n: int): (r: seq<bv8>)
    requires |b| == PAGE_SIZE && -0x8000_0000 <= n < 0x8000_0000
    ensures |r| == |b|
  {
    Patch(b, OFFSET_PAGE_HDR + 4, Encode(n))
  }

  function WriteSlot(b: seq<bv8>, sh: Shape, slot: nat, raw: seq<bv8>): (r: seq<bv8>)
    requires ShapeOk(sh) && |b| == PAGE_SIZE && slot < sh.capacity && |raw| == sh.recordSize
    ensures |r| == |b|
  {
    SlotsApart(sh.recordSize, sh.capacity, slot, slot);
    Patch(b, Start(sh, slot), raw)
  }

  /** Set or reset one bit of the bitmap in place. */
  function WriteBit(b: seq<bv8>, sh: Shape, slot: nat, bit: bool): (r: seq<bv8>)
    requires ShapeOk(sh) && |b| == PAGE_SIZE && slot < sh.capacity
    ensures |r| == |b|
  {
    SlotsApart(sh.recordSize, sh.capacity, 0, 0);
    BitInBitmap(sh.capacity, slot);
    Patch(b, BITMAP_START, if bit then SetBit(BitmapOf(b, sh), slot) else ResetBit(BitmapOf(b, sh), slot))
  }

  lemma PatchWithOne(b: seq<bv8>, at: nat, bm: seq<bv8>, k: nat, byte: bv8)
    requires at + |bm| <= |b| && k < |bm| && bm == b[at..at + |bm|]
    ensures Patch(b, at, bm[k := byte]) == b[at + k := byte]
  {
  }

  function WithBit(byte: bv8, slot: nat, bit: bool): bv8 {
    if bit then byte | Mask(slot) else byte & !Mask(slot)
  }

  /** Rewriting the bucket's byte is rewriting the bitmap. */
  lemma BitByteWrites(b: seq<bv8>, sh: Shape, slot: nat, bit: bool)
    requires ShapeOk(sh) && |b| == PAGE_SIZE && slot < sh.capacity
    ensures BITMAP_START + slot / BITMAP_WIDTH < PAGE_SIZE
    ensures WriteBit(b, sh, slot, bit)
         == b[BITMAP_START + slot / BITMAP_WIDTH := WithBit(b[BITMAP_START + slot / BITMAP_WIDTH], slot, bit)]
  {
    SlotsApart(sh.recordSize, sh.capacity, 0, 0);
    BitInBitmap(sh.capacity, slot);
    var bm := BitmapOf(b, sh);
    PatchWithOne(b, BITMAP_START, bm, slot / BITMAP_WIDTH, WithBit(bm[slot / BITMAP_WIDTH], slot, bit));
    hide Patch, Mask, SlotStart, BitmapSize;
  }

  lemma HeaderWrites(b: seq<bv8>, sh: Shape, n: int)
    requires ShapeOk(sh) && |b| == PAGE_SIZE && -0x8000_0000 <= n < 0x8000_0000
    ensures Decode(WriteNextFree(b, n), sh) == Decode(b, sh).(nextFree := n)
    ensures Decode(WriteNumRecords(b, n), sh) == Decode(b, sh).(numRecords := n)
  {
    EncodeReads(n);
    forall at: nat | at == OFFSET_PAGE_HDR || at == OFFSET_PAGE_HDR + 4
      ensures forall i :: 0 <= i < sh.capacity ==> BitAt(Patch(b, at, Encode(n)), sh, i) == BitAt(b, sh, i)
      ensures forall i :: 0 <= i < sh.capacity ==> SlotAt(Patch(b, at, Encode(n)), sh, i) == SlotAt(b, sh, i)
    {
      OutsidePatch(b, sh, at, Encode(n));
    }
    SliceOfPatch(b, OFFSET_PAGE_HDR, Encode(n), OFFSET_PAGE_HDR, 4);
    SliceOfPatch(b, OFFSET_PAGE_HDR, Encode(n), OFFSET_PAGE_HDR + 4, 4);
    SliceOfPatch(b, OFFSET_PAGE_HDR + 4, Encode(n), OFFSET_PAGE_HDR, 4);
    SliceOfPatch(b, OFFSET_PAGE_HDR + 4, Encode(n), OFFSET_PAGE_HDR + 4, 4);
    hide Encode, Int32, BitAt, SlotAt, Patch;
  }

  /** A write to the header leaves the bitmap and the slots alone. */
  lemma OutsidePatch(b: seq<bv8>, sh: Shape, at: nat, raw: seq<bv8>)
    requires ShapeOk(sh) && |b| == PAGE_SIZE && at + |raw| <= BITMAP_START
    ensures forall i :: 0 <= i < sh.capacity ==> BitAt(Patch(b, at, raw), sh, i) == BitAt(b, sh, i)
    ensures forall i :: 0 <= i < sh.capacity ==> SlotAt(Patch(b, at, raw), sh, i) == SlotAt(b, sh, i)
  {
    SlotsApart(sh.recordSize, sh.capacity, 0, 0);
    SliceOfPatch(b, at, raw, BITMAP_START, BitmapSize(sh.capacity));
    forall i | 0 <= i < sh.capacity ensures SlotAt(Patch(b, at, raw), sh, i) == SlotAt(b, sh, i) {
      SlotsApart(sh.recordSize, sh.capacity, i, i);
      SliceOfPatch(b, at, raw, Start(sh, i), sh.recordSize);
    }
    hide Patch, Slice, SlotStart, BitmapSize, IsSet;
  }

  lemma SlotWrites(b: seq<bv8>, sh: Shape, slot: nat, raw: seq<bv8>)
    requires ShapeOk(sh) && |b| == PAGE_SIZE && slot < sh.capacity && |raw| == sh.recordSize
    ensures Decode(WriteSlot(b, sh, slot, raw), sh) == Decode(b, sh).(slots := Decode(b, sh).slots[slot := raw])
  {
    var b' := WriteSlot(b, sh, slot, raw);
    SlotsApart(sh.recordSize, sh.capacity, slot, slot);
    SliceOfPatch(b, Start(sh, slot), raw, OFFSET_PAGE_HDR, 4);
    SliceOfPatch(b, Start(sh, slot), raw, OFFSET_PAGE_HDR + 4, 4);
    SliceOfPatch(b, Start(sh, slot), raw, BITMAP_START, BitmapSize(sh.capacity));
    forall i | 0 <= i < sh.capacity ensures SlotAt(b', sh, i) == if i == slot then raw else SlotAt(b, sh, i) {
      SlotsApart(sh.recordSize, sh.capacity, i, slot);
      SlotsApart(sh.recordSize, sh.capacity, slot, i);
      SliceOfPatch(b, Start(sh, slot), raw, Start(sh, i), sh.recordSize);
    }
    hide Patch, Slice, SlotStart, BitmapSize, IsSet, Int32, SlotAt;
  }

  /** A write to the whole bitmap leaves the header and the slots alone. */
  lemma BitmapWrites(b: seq<bv8>, sh: Shape, bm: seq<bv8>)
    requires ShapeOk(sh) && |b| == PAGE_SIZE && |bm| == BitmapSize(sh.capacity)
    ensures BITMAP_START + |bm| <= PAGE_SIZE
    ensures BitmapOf(Patch(b, BITMAP_START, bm), sh) == bm
    ensures NextFree(Patch(b, BITMAP_START, bm)) == NextFree(b)
    ensures NumRecords(Patch(b, BITMAP_START, bm)) == NumRecords(b)
    ensures forall i :: 0 <= i < sh.capacity ==> SlotAt(Patch(b, BITMAP_START, bm), sh, i) == SlotAt(b, sh, i)
  {
    SlotsApart(sh.recordSize, sh.capacity, 0, 0);
    SliceOfPatch(b, BITMAP_START, bm, OFFSET_PAGE_HDR, 4);
    SliceOfPatch(b, BITMAP_START, bm, OFFSET_PAGE_HDR + 4, 4);
    SliceOfPatch(b, BITMAP_START, bm, BITMAP_START, BitmapSize(sh.capacity));
    forall i | 0 <= i < sh.capacity
      ensures SlotAt(Patch(b, BITMAP_START, bm), sh, i) == SlotAt(b, sh, i)
    {
      SlotsApart(sh.recordSize, sh.capacity, i, i);
      SliceOfPatch(b, BITMAP_START, bm, Start(sh, i), sh.recordSize);
    }
    hide Patch, Slice, SlotStart, BitmapSize, Int32, SlotAt;
  }

  lemma BitWrites(b: seq<bv8>, sh: Shape, slot: nat, bit: bool)
    requires ShapeOk(sh) && |b| == PAGE_SIZE && slot < sh.capacity
    ensures Decode(WriteBit(b, sh, slot, bit), sh) == Decode(b, sh).(bitmap := Decode(b, sh).bitmap[slot := bit])
  {
    hide Patch, IsSet, NextFree, NumRecords, SlotAt;
    var b' := WriteBit(b, sh, slot, bit);
    BitInBitmap(sh.capacity, slot);
    var bm := if bit then SetBit(BitmapOf(b, sh), slot) else ResetBit(BitmapOf(b, sh), slot);
    BitmapWrites(b, sh, bm);
    forall i | 0 <= i < sh.capacity ensures BitAt(b', sh, i) == if i == slot then bit else BitAt(b, sh, i) {
      BitInBitmap(sh.capacity, i);
      SetResetOneBit(BitmapOf(b, sh), slot, i);
    }
    hide Patch, BitmapOf, ShapeOk, BitmapSize, IsSet, SetBit, ResetBit, NextFree, NumRecords, SlotAt, BitAt;
  }

  // Operations on bytes are the operations on typed pages.

  /** The page writes of insert_record. */
  function FillBytes(b: seq<bv8>, sh: Shape, slot: nat, raw: seq<bv8>): (r: seq<bv8>)
    requires ShapeOk(sh) && |b| == PAGE_SIZE && slot < sh.capacity && |raw| == sh.recordSize
    requires 0 <= NumRecords(b) < sh.capacity
    ensures |r| == |b|
  {
    WriteNumRecords(WriteBit(WriteSlot(b, sh, slot, raw), sh, slot, true), NumRecords(b) + 1)
  }

  lemma FillBytesRefines(b: seq<bv8>, sh: Shape, slot: nat, raw: seq<bv8>)
    requires ShapeOk(sh) && |b| == PAGE_SIZE && slot < sh.capacity && |raw| == sh.recordSize
    requires 0 <= NumRecords(b) < sh.capacity
    ensures Decode(FillBytes(b, sh, slot, raw), sh) == H.FillSlot(Decode(b, sh), slot, raw)
  {
    SlotWrites(b, sh, slot, raw);
    BitWrites(WriteSlot(b, sh, slot, raw), sh, slot, true);
    HeaderWrites(WriteBit(WriteSlot(b, sh, slot, raw), sh, slot, true), sh, NumRecords(b) + 1);
    DecodedCounter(b, sh);
    hide Decode, WriteSlot, WriteBit, WriteNumRecords, NumRecords;
  }

  lemma DecodedCounter(b: seq<bv8>, sh: Shape)
    requires ShapeOk(sh) && |b| == PAGE_SIZE
    ensures Decode(b, sh).numRecords == NumRecords(b) && Decode(b, sh).nextFree == NextFree(b)
  {
  }

  /** The page writes of delete_record: the bit, the counter, and for a page that was full the link. */
  function ClearBytes(b: seq<bv8>, sh: Shape, slot: nat, firstFree: int): (r: seq<bv8>)
    requires ShapeOk(sh) && |b| == PAGE_SIZE && slot < sh.capacity
    requires 0 < NumRecords(b) <= sh.capacity && -0x8000_0000 <= firstFree < 0x8000_0000
    ensures |r| == |b|
  {
    var cleared := WriteNumRecords(WriteBit(b, sh, slot, false), NumRecords(b) - 1);
    if NumRecords(b) == sh.capacity then WriteNextFree(cleared, firstFree) else cleared
  }

  lemma ClearBytesRefines(b: seq<bv8>, sh: Shape, slot: nat, h: H.HeapFile, p: int)
    requires ShapeOk(sh) && |b| == PAGE_SIZE && slot < sh.capacity == h.capacity
    requires 0 < NumRecords(b) <= sh.capacity && -0x8000_0000 <= h.firstFree < 0x8000_0000
    requires p in h.pages && h.pages[p] == Decode(b, sh)
    ensures H.ClearSlot(h, p, slot).pages[p] == Decode(ClearBytes(b, sh, slot, h.firstFree), sh)
  {
    var cleared := WriteNumRecords(WriteBit(b, sh, slot, false), NumRecords(b) - 1);
    BitWrites(b, sh, slot, false);
    HeaderWrites(WriteBit(b, sh, slot, false), sh, NumRecords(b) - 1);
    HeaderWrites(cleared, sh, h.firstFree);
    DecodedCounter(b, sh);
    hide Decode, WriteBit, WriteNumRecords, WriteNextFree, NumRecords;
  }

  // A new page.

  /** Bitmap::init. */
  function ZeroBitmap(b: seq<bv8>, sh: Shape): (r: seq<bv8>)
    requires ShapeOk(sh) && |b| == PAGE_SIZE
    ensures |r| == |b|
  {
    SlotsApart(sh.recordSize, sh.capacity, 0, 0);
    Patch(b, BITMAP_START, Zeros(BitmapSize(sh.capacity)))
  }

  lemma ZeroBitmapWrites(b: seq<bv8>, sh: Shape)
    requires ShapeOk(sh) && |b| == PAGE_SIZE
    ensures Decode(ZeroBitmap(b, sh), sh) == Decode(b, sh).(bitmap := seq(sh.capacity, _ => false))
  {
    var b' := ZeroBitmap(b, sh);
    var bm := Zeros(BitmapSize(sh.capacity));
    BitmapWrites(b, sh, bm);
    forall i | 0 <= i < sh.capacity ensures !BitAt(b', sh, i) {
      BitInBitmap(sh.capacity, i);
      ZeroHasNoBits(i);
    }
    hide Patch, BitmapOf, ShapeOk, BitmapSize, BitSet, NextFree, NumRecords, SlotAt, BitAt;
    assert Decode(b', sh).bitmap == seq(sh.capacity, _ => false);
  }

  lemma ZeroHasNoBits(pos: nat)
    ensures !BitSet(0, pos)
  {
  }

  /** The page writes of create_new_page_handle. */
  function InitBytes(b: seq<bv8>, sh: Shape): (r: seq<bv8>)
    requires ShapeOk(sh) && |b| == PAGE_SIZE
    ensures |r| == PAGE_SIZE
  {
    ZeroBitmap(WriteNumRecords(WriteNextFree(b, H.NO_PAGE), 0), sh)
  }

  /** Whatever the page held, it has no record afterwards. */
  lemma InitBytesRefines(b: seq<bv8>, sh: Shape)
    requires ShapeOk(sh) && |b| == PAGE_SIZE
    ensures Decode(InitBytes(b, sh), sh)
         == Decode(b, sh).(nextFree := H.NO_PAGE, numRecords := 0, bitmap := seq(sh.capacity, _ => false))
  {
    HeaderWrites(b, sh, H.NO_PAGE);
    HeaderWrites(WriteNextFree(b, H.NO_PAGE), sh, 0);
    ZeroBitmapWrites(WriteNumRecords(WriteNextFree(b, H.NO_PAGE), 0), sh);
    hide Decode, WriteNextFree, WriteNumRecords, ZeroBitmap, ShapeOk;
  }

  /** The zeroed page that the pool hands out becomes the empty page of the typed file. */
  lemma NewPageRefines(sh: Shape, h: H.HeapFile)
    requires ShapeOk(sh) && h.capacity == sh.capacity && h.recordSize == sh.recordSize
    ensures Decode(InitBytes(Zeros(PAGE_SIZE), sh), sh) == H.EmptyPage(h)
  {
    InitBytesRefines(Zeros(PAGE_SIZE), sh);
    ZeroSlots(sh);
    hide Decode, InitBytes, ShapeOk, Zeros;
    assert Decode(Zeros(PAGE_SIZE), sh).slots == H.EmptyPage(h).slots;
  }

  lemma ZeroSlots(sh: Shape)
    requires ShapeOk(sh)
    ensures forall i :: 0 <= i < sh.capacity ==> Decode(Zeros(PAGE_SIZE), sh).slots[i] == seq(sh.recordSize, _ => 0)
  {
    forall i | 0 <= i < sh.capacity ensures SlotAt(Zeros(PAGE_SIZE), sh, i) == seq(sh.recordSize, _ => 0) {
      SlotsApart(sh.recordSize, sh.capacity, i, i);
    }
    hide BitAt, SlotAt, NextFree, NumRecords, ShapeOk, Zeros;
  }
}
