/** The record store itself: mapped segments, the free-space index, and the public operations. */
module DmsFile {
  import opened Bytes
  import opened DmsPage
  import opened DmsPageOps
  import opened DmsMemory
  import opened FreeIndex
  import opened DmsStore

  const SEGMENT_SIZE: nat := 134217728   // DMS_FILE_SEGMENT_SIZE
  /** Largest record an empty page takes. */
  const MAX_RECORD: nat := PAGE_SIZE - HEADER - OVERHEAD

  /** Segments of 128 MB hold whole pages. */
  lemma SegmentFormat()
    ensures SEGMENT_SIZE == 128 * 1024 * 1024 == PAGES_PER_SEGMENT * PAGE_SIZE
  {
  }

  datatype Status = EDB_OK | EDB_SYS

  function Base(id: nat): nat { PAGE_SIZE * (id % PAGES_PER_SEGMENT) }

  class DmsFile {
    var size: nat                      // _header->_size, in pages
    var body: seq<array<byte>>         // _body: the mapped segments
    var index: seq<Entry>              // _freeSpaceMap

    ghost predicate Shape()
      reads this, body
    {
      && size == PAGES_PER_SEGMENT * |body|
      && (forall s :: 0 <= s < |body| ==> body[s].Length == SEGMENT_SIZE)
      && (forall s, t :: 0 <= s < t < |body| ==> body[s] != body[t])
    }

    ghost function Pages(): (pages: seq<seq<byte>>)
      requires Shape()
      reads this, body
      ensures |pages| == size
      ensures forall id :: 0 <= id < size ==> pages[id] == Window(body[id / PAGES_PER_SEGMENT][..], Base(id))
    {
      seq(size, id requires 0 <= id < size && Shape() reads this, body =>
        Window(body[id / PAGES_PER_SEGMENT][..], Base(id)))
    }

    /** The abstract store. */
    ghost function State(): Store
      requires Shape()
      reads this, body
    {
      Store(Pages(), index)
    }

    ghost predicate Valid()
      reads this, body
    {
      Shape() && StoreOk(State())
    }

    constructor ()
      ensures Valid() && State() == Store([], [])
    {
      size, body, index := 0, [], [];
    }

    /** A write to one page of one segment changes that page of the file and no other. */
    twostate lemma OnePageChanged(id: nat)
      requires old(Shape()) && Shape() && body == old(body) && size == old(size) && id < size
      requires SameOutside(old(body[id / PAGES_PER_SEGMENT][..]), body[id / PAGES_PER_SEGMENT][..], Base(id))
      requires forall s :: 0 <= s < |body| && s != id / PAGES_PER_SEGMENT ==> body[s][..] == old(body[s][..])
      ensures Pages() == old(Pages())[id := Pages()[id]]
    {
      forall k | 0 <= k < size && k != id ensures Pages()[k] == old(Pages()[k]) {
        if k / PAGES_PER_SEGMENT == id / PAGES_PER_SEGMENT {
          assert Base(k) + PAGE_SIZE <= Base(id) || Base(id) + PAGE_SIZE <= Base(k);
          OtherWindow(old(body[id / PAGES_PER_SEGMENT][..]), body[id / PAGES_PER_SEGMENT][..], Base(id), Base(k));
        }
      }
    }

    /** _searchSlot */
    method SearchSlot(seg: array<byte>, base: nat, slot: nat) returns (rc: Status, off: nat)
      requires base + PAGE_SIZE <= seg.Length && Framed(Window(seg[..], base))
      ensures rc == EDB_OK <==> slot < NumSlots(Window(seg[..], base))
      ensures rc == EDB_OK ==> off == U32(Window(seg[..], base), SlotPos(slot))
    {
      var numSlots := Load32(seg, base, NUM_SLOTS_AT);
      if numSlots <= slot {
        return EDB_SYS, 0;
      }
      off := Load32(seg, base, SlotPos(slot));
      rc := EDB_OK;
    }

    /** A copy of the BSON object at `at`, whose first word is its length. */
    method ReadBson(seg: array<byte>, base: nat, at: nat) returns (result: seq<byte>)
      requires base + PAGE_SIZE <= seg.Length && at + 4 <= PAGE_SIZE
      requires at + U32(Window(seg[..], base), at) <= PAGE_SIZE
      ensures result == Window(seg[..], base)[at..at + U32(Window(seg[..], base), at)]
    {
      hide U32;
      var n := Load32(seg, base, at);
      result := seg[base + at..base + at + n];
      assert forall k :: 0 <= k < n ==> result[k] == Window(seg[..], base)[at + k];
    }

    method Find(rid: RecordId) returns (rc: Status, result: seq<byte>)
      requires Valid()
      ensures rc == EDB_OK <==> Lookup(State(), rid).Some?
      ensures rc == EDB_OK ==> Lookup(State(), rid) == Some(result)
    {
      hide U32, Lookup, PageOk, Indexes, Slots;
      result := [];
      if rid.page >= size {
        assert Lookup(State(), rid) == None by { OutOfFile(State(), rid); }
        return EDB_SYS, [];
      }
      var seg, base := body[rid.page / PAGES_PER_SEGMENT], Base(rid.page);
      LookupEntry(State(), rid);
      var off;
      rc, off := SearchSlot(seg, base, rid.slot);
      if rc != EDB_OK {
        return;
      }
      if off == SLOT_EMPTY {
        return EDB_SYS, [];
      }
      var flag := Load32(seg, base, off + 4);
      if flag == DROPPED {
        return EDB_SYS, [];
      }
      result := ReadBson(seg, base, off + RECORD_HEADER);
    }

    /** The scan of equal_range: the page's entry under its present key, or the end. */
    method SearchEntry(freeSpace: nat, pageId: nat) returns (it: nat)
      requires Sorted(index)
      ensures it == IndexOf(index, Entry(freeSpace, pageId))
    {
      var end := UpperBound(index, freeSpace);
      it := LowerBound(index, freeSpace);
      while it != end
        invariant it <= end <= |index|
        invariant forall k :: 0 <= k < it ==> index[k] != Entry(freeSpace, pageId)
        decreases end - it
      {
        if index[it].page == pageId {
          break;
        }
        it := it + 1;
      }
      EqualRange(index, freeSpace, pageId, it, end);
      if it == end {
        it := |index|;
      }
    }

    /** _updateFreeSpace: re-keys the page's index entry and rewrites the count in the page header. */
    method UpdateFreeSpace(seg: array<byte>, base: nat, change: int, pageId: nat)
      requires base + PAGE_SIZE <= seg.Length && Sorted(index)
      requires 0 <= FreeSpace(Window(seg[..], base)) + change < TWO32
      modifies this`index, seg
      ensures Window(seg[..], base) ==
        Put32(old(Window(seg[..], base)), FREE_SPACE_AT, old(FreeSpace(Window(seg[..], base))) + change)
      ensures SameOutside(old(seg[..]), seg[..], base)
      ensures var was := old(FreeSpace(Window(seg[..], base)));
        index == Reindexed(old(index), pageId, was, was + change)
    {
      hide U32, Put32, Sorted, UpperBound, IndexOf, FreeIndex.Insert;
      var freeSpace := Load32(seg, base, FREE_SPACE_AT);
      var it := SearchEntry(freeSpace, pageId);
      if it < |index| {
        index := DropAt(index, it);
      }
      freeSpace := freeSpace + change;
      Store32(seg, base, FREE_SPACE_AT, freeSpace);
      index := FreeIndex.Insert(index, Entry(freeSpace, pageId));
    }

    /** The three writes of a removal: slot, record flag, free count. */
    method DropSlot(seg: array<byte>, base: nat, slot: nat, off: nat, pageId: nat)
      requires base + PAGE_SIZE <= seg.Length && Sorted(index)
      requires var p := Window(seg[..], base);
        && SlotPos(slot + 1) <= off && off + RECORD_HEADER <= PAGE_SIZE
        && FreeSpace(p) + U32(p, off) < TWO32
      modifies this`index, seg
      ensures var p := old(Window(seg[..], base));
        && Window(seg[..], base) == PageRemove(p, slot, off, U32(p, off))
        && index == Reindexed(old(index), pageId, FreeSpace(p), FreeSpace(p) + U32(p, off))
      ensures SameOutside(old(seg[..]), seg[..], base)
    {
      hide U32, LE32, Put32, Sorted, Reindexed;
      ghost var p := Window(seg[..], base);
      Store32(seg, base, SlotPos(slot), SLOT_EMPTY);
      Store32(seg, base, off + 4, DROPPED);
      DropOrder(p, slot, off);
      var n := Load32(seg, base, off);
      UpdateFreeSpace(seg, base, n, pageId);
    }

    method Remove(rid: RecordId) returns (rc: Status)
      requires Valid()
      modifies this, body
      ensures Valid() && body == old(body) && size == old(size)
      ensures rc == EDB_OK <==> Lookup(old(State()), rid).Some?
      ensures rc == EDB_OK ==> Removed(old(State()), State(), rid)
      ensures rc == EDB_SYS ==> State() == old(State())
    {
      hide U32, PageRemove, PageOk, Slots, Indexes, Reindexed, Lookup, Removed;
      if rid.page >= size {
        OutOfFile(State(), rid);
        return EDB_SYS;
      }
      var seg, base := body[rid.page / PAGES_PER_SEGMENT], Base(rid.page);
      LookupEntry(State(), rid);
      var off;
      rc, off := SearchSlot(seg, base, rid.slot);
      if rc != EDB_OK {
        return;
      }
      if off == SLOT_EMPTY {
        return EDB_SYS;
      }
      RemoveOk(State(), rid);
      DropSlot(seg, base, rid.slot, off, rid.page);
      OnePageChanged(rid.page);
    }

    /** The slot entry, the record header and the record body of a new record. */
    method PlaceRecord(seg: array<byte>, base: nat, slot: nat, off: nat, rec: seq<byte>)
      requires base + PAGE_SIZE <= seg.Length && RECORD_HEADER <= |rec|
      requires SlotPos(slot + 1) <= off && off + |rec| <= PAGE_SIZE
      modifies seg
      ensures Window(seg[..], base) == AddRecord(old(Window(seg[..], base)), slot, off, rec)
      ensures SameOutside(old(seg[..]), seg[..], base)
    {
      hide U32, LE32, Put32;
      ghost var p := Window(seg[..], base);
      Store32(seg, base, SlotPos(slot), off);
      Write(seg, base, off, rec[..RECORD_HEADER]);
      Write(seg, base, off + RECORD_HEADER, rec[RECORD_HEADER..]);
      BlitTwice(Put32(p, SlotPos(slot), off), off, rec[..RECORD_HEADER], rec[RECORD_HEADER..]);
      assert rec[..RECORD_HEADER] + rec[RECORD_HEADER..] == rec;
    }

    /** All writes of an insertion into a page that has room: record, header and index. */
    method AppendRecord(seg: array<byte>, base: nat, rec: seq<byte>, pageId: nat) returns (slot: nat, off: nat)
      requires base + PAGE_SIZE <= seg.Length && Sorted(index) && RECORD_HEADER <= |rec|
      requires HasRoom(Window(seg[..], base), |rec|)
      modifies this`index, seg
      ensures var p := old(Window(seg[..], base));
        && slot == NumSlots(p) && off == FreeOffset(p) - |rec|
        && Window(seg[..], base) == PageInsert(p, rec)
        && index == Reindexed(old(index), pageId, FreeSpace(p), FreeSpace(p) - |rec| - SLOT)
      ensures SameOutside(old(seg[..]), seg[..], base)
    {
      hide U32, LE32, Put32, AddRecord, Sorted, Reindexed;
      ghost var p := Window(seg[..], base);
      slot := Load32(seg, base, NUM_SLOTS_AT);
      var slotOffset := Load32(seg, base, SLOT_OFFSET_AT);
      var freeOffset := Load32(seg, base, FREE_OFFSET_AT);
      off := freeOffset - |rec|;
      HeaderOrder(p, slot, off, rec);
      PlaceRecord(seg, base, slot, off, rec);
      Store32(seg, base, NUM_SLOTS_AT, slot + 1);
      Store32(seg, base, SLOT_OFFSET_AT, slotOffset + SLOT);
      Store32(seg, base, FREE_OFFSET_AT, off);
      UpdateFreeSpace(seg, base, -(|rec| + SLOT), pageId);
    }

    /** Indexes the pages of a new segment under the ids that follow the present ones. */
    method IndexFreshPages(ghost free: seq<nat>) returns (ghost free': seq<nat>)
      requires Indexes(index, free)
      modifies this`index
      ensures |free'| == |free| + PAGES_PER_SEGMENT && Indexes(index, free') && free'[..|free|] == free
      ensures forall k :: |free| <= k < |free'| ==> free'[k] == PAGE_SIZE - HEADER
    {
      hide FreeIndex.Insert;
      free' := free;
      var freeMapSize := |index|;
      var i := 0;
      while i < PAGES_PER_SEGMENT
        invariant i <= PAGES_PER_SEGMENT && |free'| == freeMapSize + i == |free| + i
        invariant Indexes(index, free') && free'[..|free|] == free
        invariant forall k :: |free| <= k < |free'| ==> free'[k] == PAGE_SIZE - HEADER
      {
        ExtendOk(index, free', PAGE_SIZE - HEADER);
        index := FreeIndex.Insert(index, Entry(PAGE_SIZE - HEADER, freeMapSize + i));
        free' := free' + [PAGE_SIZE - HEADER];
        i := i + 1;
      }
    }

    twostate lemma SegmentAdded(new seg: array<byte>)
      requires old(Shape()) && Shape() && body == old(body) + [seg] && seg.Length == SEGMENT_SIZE
      requires forall s :: 0 <= s < old(|body|) ==> body[s][..] == old(body[s][..])
      requires forall k :: 0 <= k < PAGES_PER_SEGMENT ==> IsFresh(Window(seg[..], Base(k)))
      ensures forall id :: 0 <= id < old(size) ==> Pages()[id] == old(Pages())[id]
      ensures forall id :: old(size) <= id < size ==> IsFresh(Pages()[id])
    {
      hide IsFresh;
      forall id | old(size) <= id < size ensures IsFresh(Pages()[id]) {
        assert body[id / PAGES_PER_SEGMENT] == seg && Base(id) == Base(id % PAGES_PER_SEGMENT);
      }
    }

    /** _extendSegment: maps a new segment of empty pages and indexes each of them. */
    method ExtendSegment()
      requires Valid()
      modifies this
      ensures Valid() && SameMap(old(State()), State())
      ensures |body| == |old(body)| + 1 && body[..|old(body)|] == old(body) && fresh(body[|old(body)|])
      ensures size == old(size) + PAGES_PER_SEGMENT
      ensures forall id :: 0 <= id < old(size) ==> State().pages[id] == old(State()).pages[id]
      ensures forall id :: old(size) <= id < size ==>
        NumSlots(State().pages[id]) == 0 && FreeSpace(State().pages[id]) == PAGE_SIZE - HEADER
    {
      hide U32, PageOk, Indexes, IsFresh, FreeList, SameMap;
      var seg := FreshSegment();
      ghost var free := IndexFreshPages(FreeList(State().pages));
      body := body + [seg];
      size := size + PAGES_PER_SEGMENT;
      SegmentAdded(seg);
      ExtendedOk(old(State()), State(), free);
    }

    /** Compaction, when the page has the space but the gap alone is too small for `n` bytes and a slot. */
    method MakeRoom(pageId: nat, n: nat)
      requires Valid() && pageId < size && n + SLOT <= FreeSpace(State().pages[pageId])
      modifies body
      ensures Valid() && SameMap(old(State()), State()) && Fits(State().pages[pageId], n)
      ensures old(Fits(State().pages[pageId], n)) ==> State() == old(State())
    {
      hide U32, PageOk, Indexes, Slots, Packed, SameMap;
      var seg, base := body[pageId / PAGES_PER_SEGMENT], Base(pageId);
      var freeSpace := Load32(seg, base, FREE_SPACE_AT);
      var freeOffset := Load32(seg, base, FREE_OFFSET_AT);
      var slotOffset := Load32(seg, base, SLOT_OFFSET_AT);
      QuietOk(State(), pageId);
      if freeSpace > freeOffset - slotOffset && slotOffset + n + SLOT > freeOffset {
        RecoverSpace(seg, base);
        OnePageChanged(pageId);
        CompactedOk(old(State()), State(), pageId);
      }
    }

    /** The write of a record into a page with room. */
    method InsertInto(pageId: nat, rec: seq<byte>) returns (slot: nat, off: nat)
      requires Valid() && pageId < size && RecordOk(rec) && Fits(State().pages[pageId], |rec|)
      modifies this`index, body
      ensures Valid() && Inserted(old(State()), State(), RecordId(pageId, slot), rec[RECORD_HEADER..])
      ensures off + |rec| <= PAGE_SIZE && State().pages[pageId][off..off + |rec|] == rec
    {
      hide U32, PageOk, Indexes, Reindexed, Slots, Inserted, PageInsert;
      var seg, base := body[pageId / PAGES_PER_SEGMENT], Base(pageId);
      InsertOk(State(), pageId, rec);
      slot, off := AppendRecord(seg, base, rec, pageId);
      OnePageChanged(pageId);
    }

    /** The search of insert: extends the file, once, when no page has `n` bytes free. */
    method EnsureRoom(n: nat) returns (pageId: nat)
      requires Valid() && OVERHEAD <= n <= MAX_RECORD + OVERHEAD
      modifies this
      ensures Valid() && SameMap(old(State()), State())
      ensures pageId < size && n <= FreeSpace(State().pages[pageId])
      ensures old(body) <= body && |body| <= |old(body)| + 1
      ensures forall s :: |old(body)| <= s < |body| ==> fresh(body[s])
      ensures |body| > |old(body)| <==> forall id :: 0 <= id < old(size) ==> FreeSpace(old(State()).pages[id]) < n
    {
      hide U32, PageOk, Indexes, Slots, SameMap, FindPage;
      var found := FindPage(index, n - 1);
      FoundPage(State(), n - 1);
      QuietRefl(State());
      while found.None?
        invariant Valid() && SameMap(old(State()), State())
        invariant found == FindPage(index, n - 1)
        invariant |body| > |old(body)| ==> found.Some?
        invariant old(body) <= body && |body| <= |old(body)| + 1
        invariant forall s :: |old(body)| <= s < |body| ==> fresh(body[s])
        invariant if |body| == |old(body)| then State() == old(State()) else FindPage(old(State()).index, n - 1).None?
        decreases if found.None? then 1 else 0
      {
        ExtendSegment();
        FreshPageFits(State(), size - 1, n);
        found := FindPage(index, n - 1);
      }
      FoundPage(State(), n - 1);
      pageId := found.value;
    }

    /** insert: find a page, extending the file when none has room, and write the record there. */
    method Insert(record: seq<byte>) returns (rc: Status, outRecord: seq<byte>, rid: RecordId)
      requires Valid() && IsBson(record)
      modifies this, body
      ensures Valid()
      ensures rc == EDB_OK <==> EmptyPageTakes(record)
      ensures rc == EDB_SYS ==> body == old(body) && State() == old(State())
      ensures rc == EDB_OK ==> Inserted(old(State()), State(), rid, record) && outRecord == record
      ensures old(body) <= body && |body| <= |old(body)| + 1
      ensures forall s :: |old(body)| <= s < |body| ==> fresh(body[s])
      ensures |body| > |old(body)| <==>
        rc == EDB_OK && forall id :: 0 <= id < old(size) ==> FreeSpace(old(State()).pages[id]) < |record| + OVERHEAD
    {
      hide U32, PageOk, Indexes, Slots, SameMap, Inserted, RecordOk, EmptyPageTakes, FreeSpace, Window, StoreOk, Fits;
      outRecord, rid := [], RecordId(0, 0);
      EmptyPageTakesIff(record);
      if |record| > MAX_RECORD {
        return EDB_SYS, [], rid;
      }
      ghost var st := State();
      var rec := MakeRecord(record);
      var pageId := EnsureRoom(|rec| + SLOT);
      ghost var st1 := State();
      MakeRoom(pageId, |rec|);
      ghost var st2 := State();
      var slot, off := InsertInto(pageId, rec);
      rid := RecordId(pageId, slot);
      InsertedAfterQuiet(st1, st2, State(), rid, record);
      InsertedAfterQuiet(st, st1, State(), rid, record);
      outRecord := ReadBack(pageId, off, rec);
      rc := EDB_OK;
    }

    /** The caller's view of the stored copy. */
    method ReadBack(pageId: nat, off: nat, ghost rec: seq<byte>) returns (result: seq<byte>)
      requires Shape() && pageId < size && off + |rec| <= PAGE_SIZE && RecordOk(rec)
      requires Pages()[pageId][off..off + |rec|] == rec
      ensures result == rec[RECORD_HEADER..]
    {
      hide U32;
      var seg, base := body[pageId / PAGES_PER_SEGMENT], Base(pageId);
      U32Slice(Pages()[pageId], off, off + |rec|, RECORD_HEADER);
      result := ReadBson(seg, base, off + RECORD_HEADER);
    }

    /** _loadData: rebuilds the index from the page headers of the mapped segments. */
    method LoadData()
      requires Shape() && PagesOk(Pages())
      modifies this`index
      ensures Valid() && Pages() == old(Pages())
      ensures old(StoreOk(State())) ==> multiset(index) == multiset(old(index))
    {
      hide U32, PageOk, Indexes, FreeIndex.Insert;
      ghost var pages, was := Pages(), index;
      ghost var all := FreeList(pages);
      var numSegments := size / PAGES_PER_SEGMENT;
      index := [];
      NoPages(all);
      var i := 0;
      while i < numSegments
        invariant i <= numSegments == |body|
        invariant PAGES_PER_SEGMENT * i <= |all| && Indexes(index, all[..PAGES_PER_SEGMENT * i])
      {
        var k := 0;
        while k < PAGES_PER_SEGMENT
          invariant k <= PAGES_PER_SEGMENT
          invariant Indexes(index, all[..PAGES_PER_SEGMENT * i + k])
        {
          var id := PAGES_PER_SEGMENT * i + k;
          assert id / PAGES_PER_SEGMENT == i && id % PAGES_PER_SEGMENT == k;
          var freeSpace := Load32(body[i], PAGE_SIZE * k, FREE_SPACE_AT);
          assert all[..id] + [freeSpace] == all[..id + 1];
          ExtendOk(index, all[..id], freeSpace);
          IndexSize(index, all[..id]);
          index := FreeIndex.Insert(index, Entry(freeSpace, id));
          k := k + 1;
        }
        i := i + 1;
      }
      assert all[..|all|] == all && Pages() == pages;
      if StoreOk(Store(pages, was)) {
        IndexDetermined(index, was, all);
      }
    }
  }

  lemma OutOfFile(st: Store, rid: RecordId)
    requires |st.pages| <= rid.page
    ensures Lookup(st, rid) == None
  {
  }

  /** What a slot entry of a sound page leads to. */
  lemma LiveRecord(p: seq<byte>, i: nat)
    requires PageOk(p) && i < NumSlots(p) && Slots(p)[i].Live?
    ensures var s := Slots(p)[i];
      && SlotPos(i + 1) <= s.off && RECORD_HEADER + 4 <= |s.rec| && s.off + |s.rec| <= PAGE_SIZE
      && U32(p, s.off) == |s.rec| && U32(p, s.off + 4) == NORMAL
      && U32(p, s.off + RECORD_HEADER) == |s.rec| - RECORD_HEADER
      && s.rec[RECORD_HEADER..] == p[s.off + RECORD_HEADER..s.off + |s.rec|]
  {
    hide U32, Stacked;
    CompactBounds(p, i);
    var s := Slots(p)[i];
    assert s.rec == p[s.off..s.off + |s.rec|];
    U32Slice(p, s.off, s.off + |s.rec|, 4);
    U32Slice(p, s.off, s.off + |s.rec|, RECORD_HEADER);
  }

  /** How a lookup reads off the slot table. */
  lemma LookupEntry(st: Store, rid: RecordId)
    requires StoreOk(st) && rid.page < |st.pages|
    ensures var p := st.pages[rid.page];
      && PageOk(p) && Framed(p) && Sorted(st.index)
      && if NumSlots(p) <= rid.slot || U32(p, SlotPos(rid.slot)) == SLOT_EMPTY then Lookup(st, rid) == None
         else
           var off := U32(p, SlotPos(rid.slot));
           && Slots(p)[rid.slot].Live? && Slots(p)[rid.slot].off == off
           && SlotPos(rid.slot + 1) <= off && off + RECORD_HEADER + 4 <= PAGE_SIZE
           && U32(p, off) == |Slots(p)[rid.slot].rec| && U32(p, off + 4) == NORMAL
           && off + U32(p, off) <= PAGE_SIZE && U32(p, off + RECORD_HEADER) == U32(p, off) - RECORD_HEADER
           && Lookup(st, rid) == Some(p[off + RECORD_HEADER..off + U32(p, off)])
  {
    hide U32, Stacked;
    var p := st.pages[rid.page];
    assert PageOk(p);
    if rid.slot < NumSlots(p) && Slots(p)[rid.slot].Live? {
      LiveRecord(p, rid.slot);
    }
  }

  /** Searching the equal range for a page finds the first such entry, if any. */
  lemma EqualRange(ix: seq<Entry>, free: nat, page: nat, it: nat, end: nat)
    requires Sorted(ix) && end == UpperBound(ix, free) && it <= end
    requires forall k :: 0 <= k < it ==> ix[k] != Entry(free, page)
    requires it == end || ix[it] == Entry(free, page)
    ensures IndexOf(ix, Entry(free, page)) == if it == end then |ix| else it
  {
    var k := IndexOf(ix, Entry(free, page));
    if k < |ix| { assert k < end; }
  }

  /** The header update of remove reads words that the two writes before it left alone. */
  lemma DropOrder(p: seq<byte>, slot: nat, off: nat)
    requires |p| == PAGE_SIZE && SlotPos(slot + 1) <= off && off + RECORD_HEADER <= PAGE_SIZE
    ensures var q := DropRecord(p, slot, off);
      FreeSpace(q) == FreeSpace(p) && U32(q, off) == U32(p, off)
  {
    hide LE32;
    var q := DropRecord(p, slot, off);
    HeaderFrame(p, q);
    assert q[off..off + 4] == p[off..off + 4];
    U32Frame(p, off, q, off);
  }

  /** The store after a removal: the page change lifted to the map and the index. */
  lemma RemoveOk(st: Store, rid: RecordId)
    requires StoreOk(st) && Lookup(st, rid).Some?
    ensures var p := st.pages[rid.page]; var s := Slots(p)[rid.slot];
      && s.Live? && PageRemove.requires(p, rid.slot, s.off, |s.rec|)
      && var q := PageRemove(p, rid.slot, s.off, |s.rec|);
      && var st' := Store(st.pages[rid.page := q],
                          Reindexed(st.index, rid.page, FreeSpace(p), FreeSpace(p) + |s.rec|));
      && StoreOk(st') && Removed(st, st', rid)
  {
    hide U32, Stacked, PageRemove, Reindexed;
    var p := st.pages[rid.page];
    PageRemoveOk(p, rid.slot);
    var s := Slots(p)[rid.slot];
    var q := PageRemove(p, rid.slot, s.off, |s.rec|);
    PageStepOk(st, rid.page, q);
    RemoveStep(st, Store(st.pages[rid.page := q],
                         Reindexed(st.index, rid.page, FreeSpace(p), FreeSpace(p) + |s.rec|)), rid);
  }

  lemma BlitTwice(p: seq<byte>, at: nat, a: seq<byte>, b: seq<byte>)
    requires at + |a| + |b| <= |p|
    ensures Blit(Blit(p, at, a), at + |a|, b) == Blit(p, at, a + b)
  {
  }

  /** The header writes of an insertion end on the free count, which the writes before it left alone. */
  lemma HeaderOrder(p: seq<byte>, slot: nat, off: nat, rec: seq<byte>)
    requires |p| == PAGE_SIZE && SlotPos(slot + 1) <= off && off + |rec| <= PAGE_SIZE
    ensures var q := AddRecord(p, slot, off, rec);
      FreeSpace(Put32(Put32(Put32(q, NUM_SLOTS_AT, slot + 1), SLOT_OFFSET_AT, SlotPos(slot + 1)), FREE_OFFSET_AT, off))
        == FreeSpace(p)
  {
    hide U32, LE32, AddRecord;
    var q := AddRecord(p, slot, off, rec);
    var r := Put32(Put32(Put32(q, NUM_SLOTS_AT, slot + 1), SLOT_OFFSET_AT, SlotPos(slot + 1)), FREE_OFFSET_AT, off);
    assert r[20..24] == p[20..24];
    U32Frame(r, 20, p, 20);
  }

  /** An initialised, empty page. */
  ghost predicate IsFresh(p: seq<byte>) {
    && |p| == PAGE_SIZE
    && NumSlots(p) == 0 && SlotOffset(p) == HEADER
    && FreeSpace(p) == PAGE_SIZE - HEADER && FreeOffset(p) == PAGE_SIZE
  }

  /** An initialised page is sound, empty, and all of it past the header is free. */
  lemma FreshOk(p: seq<byte>)
    requires IsFresh(p)
    ensures PageOk(p) && NumSlots(p) == 0 && FreeSpace(p) == PAGE_SIZE - HEADER
  {
    hide U32;
    assert Slots(p) == [];
  }

  /** Any page without records has room for the object, its record header and its slot. */
  ghost predicate EmptyPageTakes(body: seq<byte>) {
    forall p :: PageOk(p) && NumSlots(p) == 0 ==> Fits(p, |body| + RECORD_HEADER)
  }

  lemma EmptyPageTakesIff(body: seq<byte>)
    ensures EmptyPageTakes(body) <==> |body| + RECORD_HEADER + SLOT <= PAGE_SIZE - HEADER
  {
    hide U32, LE32, WriteHeader, Stacked;
    forall p | PageOk(p) && NumSlots(p) == 0
      ensures Fits(p, |body| + RECORD_HEADER) <==> |body| + RECORD_HEADER + SLOT <= PAGE_SIZE - HEADER
    {
      assert Slots(p) == [];
    }
    var p := WriteHeader(seq(PAGE_SIZE, _ => 0), 0, HEADER, PAGE_SIZE, PAGE_SIZE - HEADER);
    FreshOk(p);
    assert EmptyPageTakes(body) ==> Fits(p, |body| + RECORD_HEADER);
  }

  /** The header every page of a new segment gets. */
  method FreshHeader() returns (h: seq<byte>)
    ensures |h| == HEADER && h[..4] == Ascii("PAGH") && U32(h, 4) == PAGE_SIZE && U32(h, 8) == 0
    ensures U32(h, NUM_SLOTS_AT) == 0 && U32(h, SLOT_OFFSET_AT) == HEADER
    ensures U32(h, FREE_SPACE_AT) == PAGE_SIZE - HEADER && U32(h, FREE_OFFSET_AT) == PAGE_SIZE
  {
    hide LE32, U32;
    var eyeCatcher: seq<byte> := [80, 65, 71, 72];   // "PAGH"
    var size, flag, numSlots := LE32(PAGE_SIZE), LE32(0), LE32(0);
    var slotOffset, freeSpace, freeOffset := LE32(HEADER), LE32(PAGE_SIZE - HEADER), LE32(PAGE_SIZE);
    h := eyeCatcher + size + flag + numSlots + slotOffset + freeSpace + freeOffset;
    assert h[..4] == eyeCatcher && h[4..8] == size[0..4] && h[8..12] == flag[0..4];
    U32Frame(h, 4, size, 0);
    U32Frame(h, 8, flag, 0);
    assert h[12..16] == numSlots[0..4] && h[16..20] == slotOffset[0..4];
    assert h[20..24] == freeSpace[0..4] && h[24..28] == freeOffset[0..4];
    U32Frame(h, 12, numSlots, 0);
    U32Frame(h, 16, slotOffset, 0);
    U32Frame(h, 20, freeSpace, 0);
    U32Frame(h, 24, freeOffset, 0);
  }

  lemma FreshPage(p: seq<byte>, h: seq<byte>)
    requires |p| == PAGE_SIZE && |h| == HEADER && p[0..HEADER] == h
    requires U32(h, NUM_SLOTS_AT) == 0 && U32(h, SLOT_OFFSET_AT) == HEADER
    requires U32(h, FREE_SPACE_AT) == PAGE_SIZE - HEADER && U32(h, FREE_OFFSET_AT) == PAGE_SIZE
    ensures IsFresh(p)
  {
    hide U32;
    U32Slice(p, 0, HEADER, 12);
    U32Slice(p, 0, HEADER, 16);
    U32Slice(p, 0, HEADER, 20);
    U32Slice(p, 0, HEADER, 24);
  }

  method FreshSegment() returns (seg: array<byte>)
    ensures fresh(seg) && seg.Length == SEGMENT_SIZE
    ensures forall k :: 0 <= k < PAGES_PER_SEGMENT ==> IsFresh(Window(seg[..], Base(k)))
  {
    hide U32, IsFresh, Blit;
    var header := FreshHeader();
    seg := new byte[SEGMENT_SIZE](_ => 0);
    var i := 0;
    while i < PAGES_PER_SEGMENT
      invariant i <= PAGES_PER_SEGMENT
      invariant forall k :: 0 <= k < i ==> IsFresh(Window(seg[..], Base(k)))
    {
      ghost var m := seg[..];
      Write(seg, Base(i), 0, header);
      FreshPage(Window(seg[..], Base(i)), header);
      forall k | 0 <= k < i ensures IsFresh(Window(seg[..], Base(k))) {
        OtherWindow(m, seg[..], Base(i), Base(k));
      }
      i := i + 1;
    }
  }

  lemma OtherWindow(m: seq<byte>, m': seq<byte>, base: nat, other: nat)
    requires SameOutside(m, m', base) && other + PAGE_SIZE <= |m|
    requires other + PAGE_SIZE <= base || base + PAGE_SIZE <= other
    ensures Window(m', other) == Window(m, other)
  {
  }

  lemma ExtendedOk(st: Store, st': Store, free: seq<nat>)
    requires StoreOk(st) && |st.pages| <= |st'.pages| == |free|
    requires free[..|st.pages|] == FreeList(st.pages) && Indexes(st'.index, free)
    requires forall id :: 0 <= id < |st.pages| ==> st'.pages[id] == st.pages[id]
    requires forall id :: |st.pages| <= id < |free| ==> IsFresh(st'.pages[id]) && free[id] == PAGE_SIZE - HEADER
    ensures StoreOk(st') && SameMap(st, st')
    ensures forall id :: |st.pages| <= id < |free| ==>
      NumSlots(st'.pages[id]) == 0 && FreeSpace(st'.pages[id]) == PAGE_SIZE - HEADER
  {
    hide U32, Indexes, IsFresh, Issued, Lookup, Stacked, Slots;
    forall id | 0 <= id < |free|
      ensures PageOk(st'.pages[id]) && free[id] == FreeSpace(st'.pages[id])
      ensures |st.pages| <= id ==> Framed(st'.pages[id]) && NumSlots(st'.pages[id]) == 0
    {
      if id < |st.pages| {
        assert free[id] == free[..|st.pages|][id];
      } else {
        FreshOk(st'.pages[id]);
      }
    }
    assert FreeList(st'.pages) == free;
    ExtendStep(st, st');
  }

  lemma QuietRefl(st: Store)
    ensures SameMap(st, st)
  {
  }

  /** What the two tests of insert amount to: without compaction, the gap already suffices. */
  lemma QuietOk(st: Store, id: nat)
    requires StoreOk(st) && id < |st.pages|
    ensures PageOk(st.pages[id]) && SameMap(st, st) && FreeSpace(st.pages[id]) <= PAGE_SIZE
    ensures SlotOffset(st.pages[id]) <= FreeOffset(st.pages[id])
    ensures FreeOffset(st.pages[id]) - SlotOffset(st.pages[id]) <= FreeSpace(st.pages[id])
  {
    hide U32, Stacked;
    CompactionNeedsDeadSlot(st.pages[id]);
  }

  /** Compaction of one page is invisible, keeps the index exact, and makes all free space contiguous. */
  lemma CompactedOk(st: Store, st': Store, id: nat)
    requires StoreOk(st) && id < |st.pages| && |st'.pages| == |st.pages|
    requires st' == Store(st.pages[id := st'.pages[id]], st.index)
    requires var p, q := st.pages[id], st'.pages[id];
      PageOk(q) && Used(Slots(p)) <= PAGE_SIZE && Slots(q) == Packed(Slots(p)) && FreeSpace(q) == FreeSpace(p)
    ensures StoreOk(st') && SameMap(st, st')
  {
    hide U32, Stacked, SlotAt, Slots, Packed, Indexes, Issued, Lookup;
    CompactStep(st, st', id);
    assert FreeList(st'.pages) == FreeList(st.pages);
  }

  /** The store after a record is written to a page with room. */
  lemma InsertOk(st: Store, id: nat, rec: seq<byte>)
    requires StoreOk(st) && id < |st.pages| && RecordOk(rec) && Fits(st.pages[id], |rec|)
    ensures Sorted(st.index) && HasRoom(st.pages[id], |rec|)
    ensures var p := st.pages[id]; var q := PageInsert(p, rec); var off := FreeOffset(p) - |rec|;
      && off + |rec| <= PAGE_SIZE && q[off..off + |rec|] == rec
      && var st' := Store(st.pages[id := q], Reindexed(st.index, id, FreeSpace(p), FreeSpace(p) - |rec| - SLOT));
      && StoreOk(st') && Inserted(st, st', RecordId(id, NumSlots(p)), rec[RECORD_HEADER..])
  {
    hide U32, LE32, Stacked, PageInsert, Reindexed, SlotAt;
    var p := st.pages[id];
    PageInsertOk(p, rec);
    var q, n := PageInsert(p, rec), NumSlots(p);
    PageStepOk(st, id, q);
    InsertStep(st, Store(st.pages[id := q], Reindexed(st.index, id, FreeSpace(p), FreeSpace(q))), id, rec[RECORD_HEADER..]);
    StoredBytes(p, rec);
  }

  lemma StoredBytes(p: seq<byte>, rec: seq<byte>)
    requires HasRoom(p, |rec|)
    ensures var q := PageInsert(p, rec); var off := FreeOffset(p) - |rec|;
      q[off..off + |rec|] == rec
  {
    hide U32, AddRecord, WriteHeader;
    var off := FreeOffset(p) - |rec|;
    Subslice(AddRecord(p, NumSlots(p), off, rec), PageInsert(p, rec), HEADER, PAGE_SIZE, off, off + |rec|);
  }

  lemma InsertedAfterQuiet(st: Store, st': Store, st'': Store, rid: RecordId, body: seq<byte>)
    requires SameMap(st, st') && Inserted(st', st'', rid, body)
    ensures Inserted(st, st'', rid, body)
  {
    hide Issued, Lookup;
  }

  lemma FoundPage(st: Store, required: nat)
    requires StoreOk(st)
    ensures match FindPage(st.index, required)
      case None => forall id :: 0 <= id < |st.pages| ==> FreeSpace(st.pages[id]) <= required
      case Some(p) => p < |st.pages| && required < FreeSpace(st.pages[p])
  {
    hide U32, Indexes, FindPage, Stacked, Slots;
    FindPageBestFit(st.index, FreeList(st.pages), required);
  }

  /** An empty page takes any record within the limit. */
  lemma FreshPageFits(st: Store, id: nat, n: nat)
    requires StoreOk(st) && id < |st.pages| && 0 < n <= MAX_RECORD + OVERHEAD
    requires FreeSpace(st.pages[id]) == PAGE_SIZE - HEADER
    ensures FindPage(st.index, n - 1).Some?
  {
    hide U32, Indexes, FindPage, PageOk;
    FoundPage(st, n - 1);
  }

  lemma NoPages(all: seq<nat>)
    ensures Indexes([], all[..0])
  {
  }

  lemma IndexSize(ix: seq<Entry>, free: seq<nat>)
    requires Indexes(ix, free)
    ensures |ix| == |free|
  {
  }
}
