/** Places where the source departs from the store that `DmsFile` models: what the text does there, an input
    that shows the difference, and exactly when there is none. */
module DmsAsWritten {
  import opened Bytes
  import opened DmsPage
  import opened DmsPageOps
  import opened FreeIndex
  import opened DmsStore

  // ---------------------------------------------------------------- _recoverSpace: the live test is inverted

  /** The loop as written: an empty slot is followed as if it were an offset, which leaves the page (None); a live
      slot is passed over, so `right` never moves. */
  function RecoverLoop(p: seq<byte>, i: nat): Option<seq<byte>>
    requires |p| == PAGE_SIZE && i <= NumSlots(p) && SlotPos(NumSlots(p)) <= PAGE_SIZE
    decreases NumSlots(p) - i
  {
    if i == NumSlots(p) then Some(Put32(p, FREE_OFFSET_AT, PAGE_SIZE))
    else if U32(p, SlotPos(i)) == SLOT_EMPTY then None
    else RecoverLoop(p, i + 1)
  }

  lemma {:induction false} RecoverLoopStays(p: seq<byte>, i: nat)
    requires Framed(p) && i <= NumSlots(p)
    ensures RecoverLoop(p, i).Some? <==> forall j :: i <= j < NumSlots(p) ==> Slots(p)[j].Live?
    ensures RecoverLoop(p, i).Some? ==> RecoverLoop(p, i).value == Put32(p, FREE_OFFSET_AT, PAGE_SIZE)
    decreases NumSlots(p) - i
  {
    hide U32, Put32;
    if i < NumSlots(p) {
      assert Slots(p)[i] == SlotAt(p, i);
      RecoverLoopStays(p, i + 1);
    }
  }

  /** Whenever insert asks for compaction, the loop as written leaves the page. */
  lemma RecoverAlwaysLeavesPage(p: seq<byte>)
    requires PageOk(p) && FreeSpace(p) > FreeOffset(p) - SlotOffset(p)
    ensures RecoverLoop(p, 0) == None
  {
    hide U32, Stacked;
    CompactionNeedsDeadSlot(p);
    RecoverLoopStays(p, 0);
  }

  /** On the pages where it does return, it keeps the page sound exactly when there is nothing to compact. */
  lemma RecoverSoundIff(p: seq<byte>)
    requires PageOk(p) && RecoverLoop(p, 0).Some?
    ensures PageOk(RecoverLoop(p, 0).value) <==> NumSlots(p) == 0
  {
    hide U32, Stacked, SlotAt, RecoverLoop;
    RecoverLoopStays(p, 0);
    var q := RecoverLoop(p, 0).value;
    HeaderFrame(p, q);
    if NumSlots(p) == 0 {
      assert Slots(p) == [] && Slots(q) == [];
    } else if PageOk(q) {
      StoredOffsetKept(p, q);
      LowIsLowest(Slots(q), NumSlots(q) - 1);
    }
  }

  lemma StoredOffsetKept(p: seq<byte>, q: seq<byte>)
    requires PageOk(p) && Framed(q) && q == Put32(p, FREE_OFFSET_AT, PAGE_SIZE) && NumSlots(q) == NumSlots(p)
    ensures forall i :: 0 <= i < NumSlots(p) && Slots(p)[i].Live? ==> Slots(q)[i].Live?
  {
    hide U32, LE32, Stacked;
    forall i | 0 <= i < NumSlots(p) && Slots(p)[i].Live? ensures Slots(q)[i].Live? {
      LowIsLowest(Slots(p), i);
      SameAbove(p, q, i);
    }
  }

  // ---------------------------------------------------------------- _updateFreeSpace: erase by key

  /** multimap::erase(key): drops every entry with that key. */
  function EraseKey(ix: seq<Entry>, key: nat): (iy: seq<Entry>)
    ensures |iy| <= |ix|
    ensures forall e :: e in iy <==> e in ix && e.free != key
  {
    if ix == [] then []
    else if ix[0].free == key then EraseKey(ix[1..], key)
    else [ix[0]] + EraseKey(ix[1..], key)
  }

  /** The page's own id is passed where the iterator belongs. */
  function ReindexedAsWritten(ix: seq<Entry>, id: nat, was: nat, now: nat): seq<Entry> {
    Insert(if Entry(was, id) in ix then EraseKey(ix, id) else ix, Entry(now, id))
  }

  lemma {:induction false} EraseKeyOne(ix: seq<Entry>, k: nat)
    requires k < |ix| && forall i :: 0 <= i < |ix| && i != k ==> ix[i].free != ix[k].free
    ensures EraseKey(ix, ix[k].free) == DropAt(ix, k)
  {
    if k == 0 {
      EraseKeyNone(ix[1..], ix[k].free);
    } else {
      EraseKeyOne(ix[1..], k - 1);
      DropBehind(ix, k);
    }
  }

  lemma DropBehind(ix: seq<Entry>, k: nat)
    requires 0 < k < |ix|
    ensures DropAt(ix, k) == [ix[0]] + DropAt(ix[1..], k - 1)
  {
  }

  lemma {:induction false} EraseKeyNone(ix: seq<Entry>, key: nat)
    requires forall i :: 0 <= i < |ix| ==> ix[i].free != key
    ensures EraseKey(ix, key) == ix
  {
    if ix != [] {
      EraseKeyNone(ix[1..], key);
    }
  }

  /** Erasing by key leaves an exact index only when the page's free count happens to equal its own id and no
      other page has that many bytes free. */
  lemma EraseByKeyExactIff(ix: seq<Entry>, free: seq<nat>, id: nat, f: nat)
    requires Indexes(ix, free) && id < |free|
    ensures Indexes(ReindexedAsWritten(ix, id, free[id], f), free[id := f])
      <==> forall j :: 0 <= j < |free| ==> (free[j] == id <==> j == id)
  {
    var e := Entry(free[id], id);
    assert e in ix;
    if forall j :: 0 <= j < |free| ==> (free[j] == id <==> j == id) {
      OnlyKey(ix, free, id);
      UpdateOk(ix, free, id, f);
    } else if free[id] != id {
      StaleEntry(EraseKey(ix, id), e, Entry(f, id));
    } else {
      var j :| 0 <= j < |free| && j != id && free[j] == id;
      LostEntry(ix, free, id, f, j);
    }
  }

  lemma OnlyKey(ix: seq<Entry>, free: seq<nat>, id: nat)
    requires Indexes(ix, free) && id < |free|
    requires forall j :: 0 <= j < |free| ==> (free[j] == id <==> j == id)
    ensures EraseKey(ix, id) == Erase(ix, Entry(free[id], id))
  {
    hide Sorted;
    assert Entry(free[id], id) in ix;
    var k := IndexOf(ix, Entry(free[id], id));
    EraseKeyOne(ix, k);
  }

  lemma StaleEntry(iy: seq<Entry>, e: Entry, e': Entry)
    requires e in iy && e.page == e'.page
    ensures !DistinctPages(Insert(iy, e'))
  {
    var i :| 0 <= i < |iy| && iy[i] == e;
    var k, iz := UpperBound(iy, e'.free), Insert(iy, e');
    var i' := if i < k then i else i + 1;
    assert iz[i'] == e && iz[k] == e' && i' != k;
  }

  lemma LostEntry(ix: seq<Entry>, free: seq<nat>, id: nat, f: nat, j: nat)
    requires Indexes(ix, free) && id < |free| && j < |free| && j != id && free[j] == id
    ensures !Indexes(Insert(EraseKey(ix, id), Entry(f, id)), free[id := f])
  {
    hide EraseKey, UpperBound, Sorted, DistinctPages;
    var iz, free' := Insert(EraseKey(ix, id), Entry(f, id)), free[id := f];
    assert Entry(free'[j], j) !in EraseKey(ix, id);
    InsertMember(EraseKey(ix, id), Entry(f, id), Entry(free'[j], j));
    assert Entry(free'[j], j) !in iz;
  }

  lemma InsertMember(ix: seq<Entry>, e: Entry, x: Entry)
    ensures x in Insert(ix, e) <==> x == e || x in ix
  {
    hide UpperBound;
    var k := UpperBound(ix, e.free);
    assert ix[..k] + ix[k..] == ix;
    assert x in ix <==> x in ix[..k] || x in ix[k..];
  }

  // ---------------------------------------------------------------- _loadData: page ids without the segment base

  const PAGES: nat := PAGES_PER_SEGMENT

  function LoadAsWritten(free: seq<nat>): (ix: seq<Entry>)
    ensures |ix| == |free|
    ensures forall i :: 0 <= i < |ix| ==> ix[i].page < PAGES
  {
    if free == [] then []
    else Insert(LoadAsWritten(free[..|free| - 1]), Entry(free[|free| - 1], (|free| - 1) % PAGES))
  }

  /** Reloading restores the index exactly when the file has one segment at most. */
  lemma LoadExactIff(free: seq<nat>)
    requires |free| % PAGES == 0
    ensures Indexes(LoadAsWritten(free), free) <==> |free| <= PAGES
  {
    hide LoadAsWritten;
    if |free| <= PAGES {
      LoadOneSegment(free);
    } else {
      assert Entry(free[PAGES], PAGES) !in LoadAsWritten(free);
    }
  }

  lemma {:induction false} LoadOneSegment(free: seq<nat>)
    requires |free| <= PAGES
    ensures Indexes(LoadAsWritten(free), free)
  {
    hide Indexes, Insert;
    if free != [] {
      var init := free[..|free| - 1];
      LoadOneSegment(init);
      ExtendOk(LoadAsWritten(init), init, free[|free| - 1]);
      assert init + [free[|free| - 1]] == free;
    } else {
      EmptyIndex();
    }
  }

  lemma EmptyIndex()
    ensures Indexes([], [])
  {
  }

  // ---------------------------------------------------------------- insert: search and size limit without overhead

  datatype Outcome = Stored | Refused | Compacts | Retry

  /** One pass of the retry loop over pages with `free` bytes free, `gap` of them in one piece. The search asks for the
      record's bytes alone; the size tests that follow also want the record header and the slot. */
  function Pass(ix: seq<Entry>, free: seq<nat>, gap: seq<nat>, n: nat): Outcome {
    match FindPage(ix, n)
    case None => Retry
    case Some(p) =>
      if |free| <= p || |gap| <= p then Refused
      else if gap[p] < free[p] && gap[p] < n + OVERHEAD then Compacts
      else if free[p] < n + OVERHEAD || gap[p] < n + OVERHEAD then Refused
      else Stored
  }

  /** Some page has room for the record's bytes but not for the overhead. */
  ghost predicate Short(free: seq<nat>, n: nat) {
    exists id :: 0 <= id < |free| && n < free[id] < n + OVERHEAD
  }

  /** The file is extended exactly when no page has more free bytes than the record. Otherwise the search picks a page, which
      is one without room for the overhead exactly if there is any; the record is then refused, though another page may take
      it, exactly if the free bytes of the page are in one piece. If they are not, and the piece is too short, compaction is
      asked for, whose loop as written leaves the page. */
  lemma PassExact(ix: seq<Entry>, free: seq<nat>, gap: seq<nat>, n: nat)
    requires Indexes(ix, free) && |gap| == |free| && forall id :: 0 <= id < |free| ==> gap[id] <= free[id]
    ensures Pass(ix, free, gap, n) == Retry <==> forall id :: 0 <= id < |free| ==> free[id] <= n
    ensures Pass(ix, free, gap, n) != Retry ==>
      && FindPage(ix, n).Some? && FindPage(ix, n).value < |free|
      && var p := FindPage(ix, n).value;
      && (free[p] < n + OVERHEAD <==> Short(free, n))
      && (Pass(ix, free, gap, n) == Refused <==> Short(free, n) && gap[p] == free[p])
      && (Pass(ix, free, gap, n) == Compacts <==> gap[p] < free[p] && gap[p] < n + OVERHEAD)
  {
    hide Indexes, FindPage;
    FindPageBestFit(ix, free, n);
  }

  /** The limit lets records up to a whole page through; from PAGE_SIZE - HEADER on, extending the file any number of
      times never ends the retry loop. */
  lemma RetryForever(ix: seq<Entry>, free: seq<nat>, gap: seq<nat>, n: nat)
    requires Indexes(ix, free) && PAGE_SIZE - HEADER <= n <= PAGE_SIZE
    requires |gap| == |free| && forall id :: 0 <= id < |free| ==> gap[id] <= free[id] <= PAGE_SIZE - HEADER
    ensures Pass(ix, free, gap, n) == Retry
  {
    hide Indexes;
    PassExact(ix, free, gap, n);
  }

  /** With one page of 200 bytes free, a record of 190 is refused although an empty page waits behind it. */
  lemma RefusedExample()
    ensures var free := [200, PAGE_SIZE - HEADER]; var ix := [Entry(200, 0), Entry(PAGE_SIZE - HEADER, 1)];
      Indexes(ix, free) && Pass(ix, free, free, 190) == Refused
  {
    var free, ix := [200, PAGE_SIZE - HEADER], [Entry(200, 0), Entry(PAGE_SIZE - HEADER, 1)];
    assert ix[0] == Entry(free[0], 0) && ix[1] == Entry(free[1], 1);
    PassExact(ix, free, free, 190);
    assert 190 < free[0] < 190 + OVERHEAD;
  }

  // ---------------------------------------------------------------- _extendSegment: only the first page is initialised

  /** The offsets the initialisation loop writes: its step is the page size, its bound the number of pages. */
  function HeaderOffsets(i: nat): seq<nat>
    decreases PAGES - i
  {
    if i < PAGES then [i] + HeaderOffsets(i + PAGE_SIZE) else []
  }

  /** A page that the loop does not reach stays zero, and no record fits a zero page. */
  lemma OnlyFirstPageUsable(k: nat, p: seq<byte>, n: nat)
    requires 0 < k < PAGES && |p| == PAGE_SIZE && forall i :: 0 <= i < PAGE_SIZE ==> p[i] == 0
    ensures HeaderOffsets(0) == [0] && k * PAGE_SIZE !in HeaderOffsets(0)
    ensures !PageOk(p) && !Fits(p, n + RECORD_HEADER)
  {
    assert HeaderOffsets(PAGE_SIZE) == [];
  }

  // ---------------------------------------------------------------- find and pageToOffset: bounds and empty slots

  datatype Fate = NotFound | OutOfPage | Found(off: nat)

  /** find as written: the bound admits the slot behind the last, and an empty slot is followed like any other. */
  function FindAsWritten(p: seq<byte>, slot: nat): Fate
    requires |p| == PAGE_SIZE
  {
    if NumSlots(p) < slot then NotFound
    else if PAGE_SIZE < SlotPos(slot) + SLOT then OutOfPage
    else
      var off := U32(p, SlotPos(slot));
      if PAGE_SIZE < off + RECORD_HEADER then OutOfPage
      else if U32(p, off + 4) == DROPPED then NotFound
      else Found(off)
  }

  /** Within the slot array it finds exactly the live records, and leaves the page exactly on the empty slots. */
  lemma FindAsWrittenIff(p: seq<byte>, slot: nat)
    requires PageOk(p) && slot < NumSlots(p)
    ensures FindAsWritten(p, slot) == match Slots(p)[slot] case Dead => OutOfPage case Live(off, _) => Found(off)
  {
    hide U32, Stacked;
    var s := Slots(p);
    assert s[slot] == SlotAt(p, slot);
    if s[slot].Live? {
      LowIsLowest(s, slot);
      RecordFlag(p, s[slot].off, s[slot].rec);
    }
  }

  lemma RecordFlag(p: seq<byte>, off: nat, rec: seq<byte>)
    requires rec == RecordAt(p, off) && RecordOk(rec)
    ensures off + |rec| <= |p| && U32(p, off) == |rec| && U32(p, off + 4) == NORMAL
  {
    hide U32;
    U32Slice(p, off, off + |rec|, 0);
    U32Slice(p, off, off + |rec|, 4);
  }

  /** Behind the last slot, on a full page, lies the size of the last record, which is taken for an offset. */
  lemma PastLastSlot(p: seq<byte>)
    requires PageOk(p) && NumSlots(p) > 0 && AllLive(Slots(p)) && FreeOffset(p) == SlotOffset(p)
    ensures U32(p, SlotPos(NumSlots(p))) == |Slots(p)[NumSlots(p) - 1].rec|
  {
    hide U32, Stacked;
    var s, last := Slots(p), NumSlots(p) - 1;
    assert s[last] == SlotAt(p, last);
    LowIsLowest(s, last);
    RecordFlag(p, s[last].off, s[last].rec);
  }

  /** pageToOffset as written: the segment that is looked up. */
  function SegmentAsWritten(id: nat, segments: nat): Option<nat> {
    if segments * PAGES < id then None else Some(id / PAGES)
  }

  /** It looks behind the last segment exactly for the page behind the last. */
  lemma SegmentMissingIff(id: nat, segments: nat)
    ensures SegmentAsWritten(id, segments).Some? && segments <= SegmentAsWritten(id, segments).value <==> id == segments * PAGES
  {
  }
}
