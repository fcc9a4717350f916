/** A record page edited in place (RmPageHandle of src/record/rm_file_handle.h,
    src/record/bitmap.h): each edit of the bytes is the edit of the typed page. */
module PageHandle {
  import opened Page
  import opened Values
  import opened PageLayout
  import H = HeapFile

  class RmPageHandle {
    const shape: Shape
    const data: array<bv8>

    ghost predicate Valid() {
      ShapeOk(shape) && data.Length == PAGE_SIZE
    }

    /** The typed page that the bytes stand for. */
    ghost function Page(): (p: H.RmPage)
      requires Valid()
      reads data
      ensures |p.bitmap| == |p.slots| == shape.capacity
    {
      Decode(data[..], shape)
    }

    constructor (shape: Shape, data: array<bv8>)
      requires ShapeOk(shape) && data.Length == PAGE_SIZE
      ensures Valid() && this.shape == shape && this.data == data
    {
      this.shape, this.data := shape, data;
    }

    /** memcpy into the page. */
    method CopyIn(at: nat, raw: seq<bv8>)
      requires at + |raw| <= data.Length
      modifies data
      ensures data[..] == Patch(old(data[..]), at, raw)
    {
      var i := 0;
      while i < |raw|
        invariant 0 <= i <= |raw|
        invariant forall k :: 0 <= k < data.Length ==> data[k] == if at <= k < at + i then raw[k - at] else old(data[k])
      {
        data[at + i] := raw[i];
        i := i + 1;
      }
    }

    // Bitmap.

    method SetBitAt(slot: nat)
      requires Valid() && slot < shape.capacity
      modifies data
      ensures Page() == old(Page()).(bitmap := old(Page()).bitmap[slot := true])
    {
      ghost var was := data[..];
      BitByteWrites(was, shape, slot, true);
      BitWrites(was, shape, slot, true);
      hide Decode, Mask, WriteBit, ShapeOk;
      var bucket := BITMAP_START + slot / BITMAP_WIDTH;
      data[bucket] := data[bucket] | Mask(slot);
      assert data[..] == WriteBit(was, shape, slot, true);
    }

    method ResetBitAt(slot: nat)
      requires Valid() && slot < shape.capacity
      modifies data
      ensures Page() == old(Page()).(bitmap := old(Page()).bitmap[slot := false])
    {
      ghost var was := data[..];
      BitByteWrites(was, shape, slot, false);
      BitWrites(was, shape, slot, false);
      hide Decode, Mask, WriteBit, ShapeOk;
      var bucket := BITMAP_START + slot / BITMAP_WIDTH;
      data[bucket] := data[bucket] & !Mask(slot);
      assert data[..] == WriteBit(was, shape, slot, false);
    }

    method IsSetAt(slot: nat) returns (bit: bool)
      requires Valid() && slot < shape.capacity
      ensures bit == Page().bitmap[slot]
    {
      SlotsApart(shape.recordSize, shape.capacity, 0, 0);
      BitInBitmap(shape.capacity, slot);
      bit := data[BITMAP_START + slot / BITMAP_WIDTH] & Mask(slot) != 0;
      hide Mask, BitmapSize;
    }

    method NextBit(bit: bool, curr: int) returns (pos: nat)
      requires Valid() && -1 <= curr
      ensures pos == H.NextBit(bit, Page().bitmap, curr)
    {
      hide Valid, Decode;
      pos := curr + 1;
      while pos < shape.capacity
        invariant curr < pos
        invariant H.NextBit(bit, Page().bitmap, curr) == H.NextBit(bit, Page().bitmap, pos - 1)
      {
        var found := IsSetAt(pos);
        if found == bit {
          return;
        }
        pos := pos + 1;
      }
      pos := shape.capacity;
    }

    // Header.

    method GetNumRecords() returns (n: int)
      requires Valid()
      ensures n == Page().numRecords
    {
      n := Int32([data[8], data[9], data[10], data[11]]);
      assert [data[8], data[9], data[10], data[11]] == Slice(data[..], OFFSET_PAGE_HDR + 4, 4);
    }

    method SetNumRecords(n: int)
      requires Valid() && -0x8000_0000 <= n < 0x8000_0000
      modifies data
      ensures Page() == old(Page()).(numRecords := n)
    {
      HeaderWrites(data[..], shape, n);
      hide Decode, Encode;
      CopyIn(OFFSET_PAGE_HDR + 4, Encode(n));
    }

    method SetNextFree(n: int)
      requires Valid() && -0x8000_0000 <= n < 0x8000_0000
      modifies data
      ensures Page() == old(Page()).(nextFree := n)
    {
      HeaderWrites(data[..], shape, n);
      hide Decode, Encode;
      CopyIn(OFFSET_PAGE_HDR, Encode(n));
    }

    // Record operations.

    /** The page edits of create_new_page_handle. */
    method Init()
      requires Valid()
      modifies data
      ensures Page() == old(Page()).(nextFree := H.NO_PAGE, numRecords := 0, bitmap := seq(shape.capacity, _ => false))
    {
      SetNextFree(H.NO_PAGE);
      SetNumRecords(0);
      ZeroBitmapWrites(data[..], shape);
      SlotsApart(shape.recordSize, shape.capacity, 0, 0);
      hide Decode, BitmapSize;
      CopyIn(BITMAP_START, Zeros(BitmapSize(shape.capacity)));
    }

    /** memcpy into a slot; update_record does no more than this to a page. */
    method SetSlot(slot: nat, record: H.Record)
      requires Valid() && slot < shape.capacity && |record| == shape.recordSize
      modifies data
      ensures Page() == old(Page()).(slots := old(Page()).slots[slot := record])
    {
      SlotsApart(shape.recordSize, shape.capacity, slot, slot);
      SlotWrites(data[..], shape, slot, record);
      hide Decode, SlotStart;
      CopyIn(Start(shape, slot), record);
    }

    /** The page edits of insert_record, with the slot it picks. */
    method Fill(record: H.Record) returns (slot: nat)
      requires Valid() && |record| == shape.recordSize
      requires 0 <= Page().numRecords == H.Count(Page().bitmap) < shape.capacity
      modifies data
      ensures slot == H.NextBit(false, old(Page()).bitmap, -1) && slot < shape.capacity
      ensures Page() == H.FillSlot(old(Page()), slot, record)
    {
      H.CountAll(Page().bitmap);
      hide Decode;
      slot := NextBit(false, -1);
      SetSlot(slot, record);
      SetBitAt(slot);
      var n := GetNumRecords();
      SetNumRecords(n + 1);
    }

    /** The page edits of delete_record: a page that was full is linked in front of the chain. */
    method Clear(slot: nat, ghost h: H.HeapFile, ghost p: int, firstFree: int) returns (wasFull: bool)
      requires Valid() && slot < shape.capacity == h.capacity && h.firstFree == firstFree
      requires 0 < Page().numRecords <= shape.capacity && -0x8000_0000 <= firstFree < 0x8000_0000
      requires p in h.pages && h.pages[p] == Page()
      modifies data
      ensures Page() == H.ClearSlot(h, p, slot).pages[p]
      ensures H.ClearSlot(h, p, slot).firstFree == if wasFull then p else firstFree
    {
      hide Decode;
      var n := GetNumRecords();
      wasFull := n == shape.capacity;
      ResetBitAt(slot);
      SetNumRecords(n - 1);
      if wasFull {
        SetNextFree(firstFree);
      }
    }
  }
}
