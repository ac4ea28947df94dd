/** What insert, remove and compaction do to one page, and that each keeps the page sound. */
module DmsPageOps {
  import opened Bytes
  import opened DmsPage

  /** A BSON object: at least the empty document, and its first word is its length. */
  predicate IsBson(body: seq<byte>) { 5 <= |body| && U32(body, 0) == |body| }

  /** A record as stored: size and flag words, then the BSON bytes. */
  method MakeRecord(body: seq<byte>) returns (rec: seq<byte>)
    requires IsBson(body) && |body| < PAGE_SIZE
    ensures |rec| == |body| + RECORD_HEADER && RecordOk(rec) && rec[RECORD_HEADER..] == body
  {
    hide LE32, U32;
    var size, flag := LE32(|body| + RECORD_HEADER), LE32(NORMAL);
    rec := size + flag + body;
    assert rec[0..4] == size[0..4] && rec[4..8] == flag[0..4] && rec[8..12] == body[0..4];
    U32Frame(rec, 0, size, 0);
    U32Frame(rec, 4, flag, 0);
    U32Frame(rec, 8, body, 0);
  }

  // ---------------------------------------------------------------- insert

  /** The check that guards the write: both the free count and the contiguous gap take the record and its slot. */
  predicate Fits(p: seq<byte>, n: nat)
    requires |p| == PAGE_SIZE
  {
    n + SLOT <= FreeSpace(p) && SlotOffset(p) + n + SLOT <= FreeOffset(p)
  }

  /** A page whose header admits a record of `n` bytes. */
  ghost predicate HasRoom(p: seq<byte>, n: nat) {
    && |p| == PAGE_SIZE && Fits(p, n)
    && SlotOffset(p) == SlotPos(NumSlots(p)) && FreeOffset(p) <= PAGE_SIZE && FreeSpace(p) <= PAGE_SIZE
  }

  function WriteHeader(p: seq<byte>, numSlots: nat, slotOffset: nat, freeOffset: nat, freeSpace: nat): (q: seq<byte>)
    requires |p| == PAGE_SIZE
    requires numSlots < TWO32 && slotOffset < TWO32 && freeOffset < TWO32 && freeSpace < TWO32
    ensures |q| == |p| && q[HEADER..] == p[HEADER..]
    ensures NumSlots(q) == numSlots && SlotOffset(q) == slotOffset
    ensures FreeOffset(q) == freeOffset && FreeSpace(q) == freeSpace
  {
    Put32(Put32(Put32(Put32(p, NUM_SLOTS_AT, numSlots), SLOT_OFFSET_AT, slotOffset), FREE_OFFSET_AT, freeOffset),
          FREE_SPACE_AT, freeSpace)
  }

  /** `q` differs from `p` at most in the ranges [a, b) and [c, d). */
  ghost predicate SameExcept(p: seq<byte>, q: seq<byte>, a: nat, b: nat, c: nat, d: nat) {
    |p| == |q| && forall k :: 0 <= k < |p| && !(a <= k < b) && !(c <= k < d) ==> q[k] == p[k]
  }

  /** A record written at `off` and its slot entry. */
  function AddRecord(p: seq<byte>, slot: nat, off: nat, rec: seq<byte>): (q: seq<byte>)
    requires |p| == PAGE_SIZE && SlotPos(slot + 1) <= off && off + |rec| <= PAGE_SIZE
    ensures |q| == PAGE_SIZE && U32(q, SlotPos(slot)) == off && q[off..off + |rec|] == rec
    ensures SameExcept(p, q, SlotPos(slot), SlotPos(slot + 1), off, off + |rec|)
  {
    Blit(Put32(p, SlotPos(slot), off), off, rec)
  }

  /** The page after a record is written below the others and its slot appended. */
  function PageInsert(p: seq<byte>, rec: seq<byte>): (q: seq<byte>)
    requires HasRoom(p, |rec|)
    ensures |q| == PAGE_SIZE
  {
    var off := FreeOffset(p) - |rec|;
    WriteHeader(AddRecord(p, NumSlots(p), off, rec),
                NumSlots(p) + 1, SlotOffset(p) + SLOT, off, FreeSpace(p) - |rec| - SLOT)
  }

  lemma AddedSlot(p: seq<byte>, slot: nat, off: nat, rec: seq<byte>)
    requires |p| == PAGE_SIZE && SlotPos(slot + 1) <= off && off + |rec| <= PAGE_SIZE && RecordOk(rec)
    ensures SlotAt(AddRecord(p, slot, off, rec), slot) == Live(off, rec)
  {
    hide LE32, AddRecord;
    var q := AddRecord(p, slot, off, rec);
    assert q[off..off + 4] == rec[0..4] by { assert q[off..off + 4] == q[off..off + |rec|][..4]; }
    U32Frame(q, off, rec, 0);
  }

  /** Slots do not depend on the page header. */
  lemma SameAbove(p: seq<byte>, q: seq<byte>, i: nat)
    requires |p| == |q| == PAGE_SIZE && p[HEADER..] == q[HEADER..] && SlotPos(i + 1) <= PAGE_SIZE
    requires var s := SlotAt(p, i); s.Live? ==> HEADER <= s.off && RECORD_HEADER <= |s.rec| && s.off + |s.rec| <= PAGE_SIZE
    ensures SlotAt(q, i) == SlotAt(p, i)
  {
    hide LE32;
    Subslice(p, q, HEADER, PAGE_SIZE, SlotPos(i), SlotPos(i + 1));
    var s := SlotAt(p, i);
    if s.Live? {
      Subslice(p, q, HEADER, PAGE_SIZE, s.off, s.off + |s.rec|);
    }
    SlotFrame(p, q, i);
  }

  lemma InsertedSlots(p: seq<byte>, rec: seq<byte>)
    requires PageOk(p) && HasRoom(p, |rec|) && RecordOk(rec)
    ensures Framed(PageInsert(p, rec))
    ensures Slots(PageInsert(p, rec)) == Slots(p) + [Live(FreeOffset(p) - |rec|, rec)]
  {
    hide LE32, U32, AddRecord, WriteHeader, Stacked;
    var n, off := NumSlots(p), FreeOffset(p) - |rec|;
    var q', q := AddRecord(p, n, off, rec), PageInsert(p, rec);
    AddedSlot(p, n, off, rec);
    assert RECORD_HEADER <= |rec|;
    assert q'[HEADER..SlotPos(n)] == p[HEADER..SlotPos(n)];
    assert q'[FreeOffset(p)..] == p[FreeOffset(p)..];
    SlotsFrame(p, q', n, FreeOffset(p));
    forall i | 0 <= i <= n ensures SlotAt(q, i) == (Slots(p) + [Live(off, rec)])[i] {
      if i < n && Slots(p)[i].Live? { LowIsLowest(Slots(p), i); }
      SameAbove(q', q, i);
    }
  }

  lemma PageInsertOk(p: seq<byte>, rec: seq<byte>)
    requires PageOk(p) && Fits(p, |rec|) && RecordOk(rec)
    ensures HasRoom(p, |rec|) && PageOk(PageInsert(p, rec))
    ensures Slots(PageInsert(p, rec)) == Slots(p) + [Live(FreeOffset(p) - |rec|, rec)]
    ensures FreeSpace(PageInsert(p, rec)) == FreeSpace(p) - |rec| - SLOT
  {
    hide LE32, U32, AddRecord, WriteHeader;
    LowUsed(Slots(p));
    InsertedSlots(p, rec);
    AppendLive(Slots(p), Live(FreeOffset(p) - |rec|, rec));
  }

  lemma AppendLive(s: seq<Slot>, x: Slot)
    requires x.Live?
    ensures (s + [x])[..|s|] == s && Low(s + [x]) == x.off && Used(s + [x]) == Used(s) + |x.rec|
    ensures AllLive(s + [x]) <==> AllLive(s)
  {
    var t := s + [x];
    assert t[..|s|] == s;
    if AllLive(t) {
      assert forall i :: 0 <= i < |s| ==> t[i] == s[i];
    }
  }

  // ---------------------------------------------------------------- remove

  lemma HeaderFrame(p: seq<byte>, q: seq<byte>)
    requires |p| == |q| == PAGE_SIZE && p[..FREE_OFFSET_AT] == q[..FREE_OFFSET_AT]
    ensures NumSlots(q) == NumSlots(p) && SlotOffset(q) == SlotOffset(p) && FreeSpace(q) == FreeSpace(p)
  {
    hide U32;
    Subslice(p, q, 0, 24, 12, 16);
    U32Frame(p, 12, q, 12);
    Subslice(p, q, 0, 24, 16, 20);
    U32Frame(p, 16, q, 16);
    Subslice(p, q, 0, 24, 20, 24);
    U32Frame(p, 20, q, 20);
  }

  /** The record flagged as dropped and its slot emptied. */
  function DropRecord(p: seq<byte>, slot: nat, off: nat): (q: seq<byte>)
    requires |p| == PAGE_SIZE && SlotPos(slot + 1) <= off && off + RECORD_HEADER <= PAGE_SIZE
    ensures |q| == PAGE_SIZE && U32(q, SlotPos(slot)) == SLOT_EMPTY
    ensures SameExcept(p, q, SlotPos(slot), SlotPos(slot + 1), off + 4, off + 8)
  {
    Put32(Put32(p, SlotPos(slot), SLOT_EMPTY), off + 4, DROPPED)
  }

  /** The page after slot `slot`, whose record of `size` bytes lies at `off`, is removed. */
  function PageRemove(p: seq<byte>, slot: nat, off: nat, size: nat): (q: seq<byte>)
    requires |p| == PAGE_SIZE && SlotPos(slot + 1) <= off && off + RECORD_HEADER <= PAGE_SIZE
    requires FreeSpace(p) + size < TWO32
    ensures |q| == PAGE_SIZE && q[HEADER..] == DropRecord(p, slot, off)[HEADER..]
    ensures NumSlots(q) == NumSlots(p) && SlotOffset(q) == SlotOffset(p) && FreeOffset(q) == FreeOffset(p)
    ensures FreeSpace(q) == FreeSpace(p) + size
  {
    var q := DropRecord(p, slot, off);
    HeaderFrame(p, q);
    assert p[24..28] == q[24..28];
    Put32(q, FREE_SPACE_AT, FreeSpace(p) + size)
  }

  /** Emptying a slot keeps the stack in order and frees exactly the record's bytes. */
  lemma {:induction false} StackedRemove(s: seq<Slot>, i: nat)
    requires Stacked(s) && i < |s| && s[i].Live?
    ensures Stacked(s[i := Dead]) && Low(s) <= Low(s[i := Dead])
    ensures Used(s[i := Dead]) + |s[i].rec| == Used(s)
    ensures !AllLive(s[i := Dead])
  {
    hide RecordOk;
    var t, init := s[i := Dead], s[..|s| - 1];
    assert !t[i].Live?;
    if i < |s| - 1 {
      StackedRemove(init, i);
      assert t[..|t| - 1] == init[i := Dead];
    } else {
      assert t[..|t| - 1] == init;
    }
  }

  lemma RemovedSlots(p: seq<byte>, i: nat)
    requires PageOk(p) && i < NumSlots(p) && Slots(p)[i].Live?
    ensures var s := Slots(p)[i];
      && PageRemove.requires(p, i, s.off, |s.rec|)
      && Framed(PageRemove(p, i, s.off, |s.rec|))
      && Slots(PageRemove(p, i, s.off, |s.rec|)) == Slots(p)[i := Dead]
  {
    hide LE32, U32, DropRecord, PageRemove, Stacked;
    var s := Slots(p);
    LowIsLowest(s, i);
    var q', q := DropRecord(p, i, s[i].off), PageRemove(p, i, s[i].off, |s[i].rec|);
    forall j | 0 <= j < NumSlots(p) ensures SlotAt(q, j) == s[i := Dead][j] {
      if j != i { DropKeepsSlot(p, i, j); }
      SameAbove(q', q, j);
    }
  }

  lemma DropKeepsSlot(p: seq<byte>, i: nat, j: nat)
    requires PageOk(p) && i < NumSlots(p) && j < NumSlots(p) && i != j && Slots(p)[i].Live?
    ensures SlotPos(i + 1) <= Slots(p)[i].off && Slots(p)[i].off + RECORD_HEADER <= PAGE_SIZE
    ensures SlotAt(DropRecord(p, i, Slots(p)[i].off), j) == Slots(p)[j]
    ensures Slots(p)[j].Live? ==>
      RECORD_HEADER <= |Slots(p)[j].rec| && HEADER <= Slots(p)[j].off && Slots(p)[j].off + |Slots(p)[j].rec| <= PAGE_SIZE
  {
    hide LE32, U32, DropRecord, Stacked;
    var s := Slots(p);
    LowIsLowest(s, i);
    var q := DropRecord(p, i, s[i].off);
    assert p[SlotPos(j)..SlotPos(j + 1)] == q[SlotPos(j)..SlotPos(j + 1)];
    if s[j].Live? {
      LowIsLowest(s, j);
      if i < j { Descending(s, i, j); } else { Descending(s, j, i); }
      assert p[s[j].off..s[j].off + |s[j].rec|] == q[s[j].off..s[j].off + |s[j].rec|];
    }
    SlotFrame(p, q, j);
  }

  lemma PageRemoveOk(p: seq<byte>, i: nat)
    requires PageOk(p) && i < NumSlots(p) && Slots(p)[i].Live?
    ensures var s := Slots(p)[i];
      && PageRemove.requires(p, i, s.off, |s.rec|)
      && var q := PageRemove(p, i, s.off, |s.rec|);
      && PageOk(q)
      && Slots(q) == Slots(p)[i := Dead]
      && FreeSpace(q) == FreeSpace(p) + |s.rec|
  {
    hide LE32, U32, DropRecord, PageRemove;
    RemovedSlots(p, i);
    StackedRemove(Slots(p), i);
    LowIsLowest(Slots(p), i);
  }

  // ---------------------------------------------------------------- compaction

  ghost function PackLast(s: Slot, right: nat): Slot {
    if s.Live? && |s.rec| <= right then Live(right - |s.rec|, s.rec) else Dead
  }

  /** The slots after compaction: live records pushed up against the page end, in slot order. */
  ghost function Packed(s: seq<Slot>): (t: seq<Slot>)
    requires Used(s) <= PAGE_SIZE
    ensures |t| == |s|
  {
    if s == [] then []
    else Packed(s[..|s| - 1]) + [PackLast(s[|s| - 1], PAGE_SIZE - Used(s[..|s| - 1]))]
  }

  lemma {:induction false} PackedStacked(s: seq<Slot>)
    requires Stacked(s)
    ensures Used(s) <= PAGE_SIZE
    ensures Stacked(Packed(s)) && Used(Packed(s)) == Used(s)
    ensures Low(Packed(s)) == PAGE_SIZE - Used(s)
  {
    hide RecordOk;
    LowUsed(s);
    if s != [] {
      var init, t := s[..|s| - 1], Packed(s);
      PackedStacked(init);
      LowUsed(init);
      assert t[..|s| - 1] == Packed(init);
    }
  }

  /** Why records before the first empty slot need no move: they are packed already. */
  lemma {:induction false} PackedAllLive(s: seq<Slot>)
    requires Stacked(s) && Used(s) <= PAGE_SIZE && AllLive(s)
    ensures Packed(s) == s
  {
    hide RecordOk;
    LowUsed(s);
    if s != [] {
      var init, t := s[..|s| - 1], Packed(s);
      assert AllLive(init);
      PackedAllLive(init);
      LowUsed(init);
      assert t == Packed(init) + [s[|s| - 1]];
    }
  }

  /** Compaction keeps the bytes and the slot number of every live record. */
  lemma {:induction false} PackedKeepsRecords(s: seq<Slot>)
    requires Used(s) <= PAGE_SIZE
    ensures forall i :: 0 <= i < |s| ==>
      Packed(s)[i].Live? == s[i].Live? && (s[i].Live? ==> Packed(s)[i].rec == s[i].rec)
  {
    if s != [] {
      PackedKeepsRecords(s[..|s| - 1]);
    }
  }

  lemma PackedPrefix(s: seq<Slot>, i: nat)
    requires i < |s| && Used(s[..i + 1]) <= PAGE_SIZE
    ensures Used(s[..i + 1]) == Used(s[..i]) + SizeOf(s[i])
    ensures Packed(s[..i + 1]) == Packed(s[..i]) + [PackLast(s[i], PAGE_SIZE - Used(s[..i]))]
  {
    assert s[..i + 1][..i] == s[..i];
  }

  /** State of the compaction loop before slot `i`: the slots below `i` are packed down to `right`, the others untouched. */
  ghost predicate Compacting(p: seq<byte>, q: seq<byte>, i: nat, right: nat)
    requires PageOk(p)
  {
    && i <= NumSlots(p)
    && |q| == PAGE_SIZE && q[..HEADER] == p[..HEADER]
    && Used(Slots(p)[..i]) <= PAGE_SIZE
    && right == PAGE_SIZE - Used(Slots(p)[..i])
    && (forall j :: 0 <= j < NumSlots(p) ==> SlotAt(q, j) == if j < i then Packed(Slots(p)[..i])[j] else Slots(p)[j])
  }

  /** One overlapping right-move of a record of `n` bytes at `off`, and the update of its slot. */
  function MoveRecord(q: seq<byte>, i: nat, off: nat, n: nat, right: nat): (r: seq<byte>)
    requires |q| == PAGE_SIZE && n <= right <= PAGE_SIZE && SlotPos(i + 1) <= right - n && off + n <= PAGE_SIZE
    ensures |r| == PAGE_SIZE && U32(r, SlotPos(i)) == right - n && r[right - n..right] == q[off..off + n]
    ensures SameExcept(q, r, SlotPos(i), SlotPos(i + 1), right - n, right)
  {
    AddRecord(q, i, right - n, q[off..off + n])
  }

  /** A live record lies at or above the free offset and at or below the place it is packed to. */
  lemma CompactBounds(p: seq<byte>, i: nat)
    requires PageOk(p) && i < NumSlots(p)
    ensures Used(Slots(p)[..i + 1]) <= PAGE_SIZE && Stacked(Slots(p)[..i]) && Stacked(Slots(p)[..i + 1])
    ensures Slots(p)[i].Live? ==>
      var s := Slots(p)[i];
      && RecordOk(s.rec)
      && SlotPos(NumSlots(p)) <= FreeOffset(p) <= s.off
      && s.off + |s.rec| + Used(Slots(p)[..i]) <= PAGE_SIZE
  {
    hide U32, RecordOk;
    var s := Slots(p);
    StackedPrefix(s, i);
    StackedPrefix(s, i + 1);
    LowUsed(s[..i]);
    LowUsed(s[..i + 1]);
    if s[i].Live? {
      LowIsLowest(s, i);
    }
  }

  lemma CompactKeep(p: seq<byte>, q: seq<byte>, i: nat, right: nat)
    requires PageOk(p) && i < NumSlots(p) && Compacting(p, q, i, right)
    requires Slots(p)[i] == Dead || AllLive(Slots(p)[..i])
    ensures SizeOf(Slots(p)[i]) <= right
    ensures Compacting(p, q, i + 1, right - SizeOf(Slots(p)[i]))
  {
    hide U32, RecordOk, Stacked, SlotAt;
    var s := Slots(p);
    CompactBounds(p, i);
    PackedPrefix(s, i);
    KeptSlot(s, i);
  }

  lemma KeptSlot(s: seq<Slot>, i: nat)
    requires Stacked(s) && i < |s| && Used(s[..i + 1]) <= PAGE_SIZE && Used(s[..i]) <= PAGE_SIZE
    requires s[i] == Dead || AllLive(s[..i])
    ensures PackLast(s[i], PAGE_SIZE - Used(s[..i])) == s[i]
  {
    hide U32, RecordOk, Stacked, AllLive;
    if s[i].Live? {
      StackedPrefix(s, i + 1);
      PackedPrefix(s, i);
      OneMoreLive(s, i);
      PackedAllLive(s[..i + 1]);
    }
  }

  lemma OneMoreLive(s: seq<Slot>, i: nat)
    requires i < |s| && s[i].Live? && AllLive(s[..i])
    ensures AllLive(s[..i + 1])
  {
    assert forall j :: 0 <= j < i ==> s[..i + 1][j] == s[..i][j];
  }

  /** No record that has still to move, and none that has moved, is clobbered by the move. */
  lemma CompactMove(p: seq<byte>, q: seq<byte>, i: nat, right: nat)
    requires PageOk(p) && i < NumSlots(p) && Compacting(p, q, i, right) && Slots(p)[i].Live?
    ensures var s := Slots(p)[i];
      && MoveRecord.requires(q, i, s.off, |s.rec|, right)
      && Compacting(p, MoveRecord(q, i, s.off, |s.rec|, right), i + 1, right - |s.rec|)
  {
    hide U32, LE32, RecordOk, Stacked, MoveRecord;
    var s := Slots(p);
    CompactBounds(p, i);
    var n := |s[i].rec|;
    PackedPrefix(s, i);
    var r := MoveRecord(q, i, s[i].off, n, right);
    forall j | 0 <= j < NumSlots(p)
      ensures SlotAt(r, j) == if j <= i then Packed(s[..i + 1])[j] else s[j]
    {
      if j == i {
        MovedSlot(p, q, i, right);
      } else {
        UnmovedSlot(p, q, i, j, right);
      }
    }
    assert r[..HEADER] == q[..HEADER];
  }

  lemma MovedSlot(p: seq<byte>, q: seq<byte>, i: nat, right: nat)
    requires PageOk(p) && i < NumSlots(p) && Compacting(p, q, i, right) && Slots(p)[i].Live?
    ensures var s := Slots(p)[i];
      && MoveRecord.requires(q, i, s.off, |s.rec|, right)
      && SlotAt(MoveRecord(q, i, s.off, |s.rec|, right), i) == Live(right - |s.rec|, s.rec)
  {
    hide U32, LE32, Stacked, Packed, AddRecord;
    CompactBounds(p, i);
    var s := Slots(p)[i];
    assert SlotAt(q, i) == s;
    AddedSlot(q, i, right - |s.rec|, s.rec);
  }

  lemma UnmovedSlot(p: seq<byte>, q: seq<byte>, i: nat, j: nat, right: nat)
    requires PageOk(p) && i < NumSlots(p) && Compacting(p, q, i, right) && Slots(p)[i].Live?
    requires j < NumSlots(p) && j != i
    ensures var s := Slots(p)[i];
      && MoveRecord.requires(q, i, s.off, |s.rec|, right)
      && SlotAt(MoveRecord(q, i, s.off, |s.rec|, right), j) == SlotAt(q, j)
  {
    hide U32, LE32, Stacked, MoveRecord, SlotAt;
    CompactBounds(p, i);
    var off, n := Slots(p)[i].off, |Slots(p)[i].rec|;
    var r := MoveRecord(q, i, off, n, right);
    var t := SlotAt(q, j);
    if t.Live? {
      ClearOfMove(p, q, i, j, right);
      assert q[t.off..t.off + |t.rec|] == r[t.off..t.off + |t.rec|];
    }
    assert q[SlotPos(j)..SlotPos(j + 1)] == r[SlotPos(j)..SlotPos(j + 1)];
    SlotFrame(q, r, j);
  }

  /** Where the other records lie: above the slot array and outside the bytes the move writes. */
  lemma ClearOfMove(p: seq<byte>, q: seq<byte>, i: nat, j: nat, right: nat)
    requires PageOk(p) && i < NumSlots(p) && Compacting(p, q, i, right) && Slots(p)[i].Live?
    requires j < NumSlots(p) && j != i && SlotAt(q, j).Live?
    ensures var t := SlotAt(q, j);
      && RECORD_HEADER <= |t.rec|
      && SlotPos(NumSlots(p)) <= t.off && t.off + |t.rec| <= PAGE_SIZE
      && (t.off + |t.rec| <= right - |Slots(p)[i].rec| || right <= t.off)
  {
    hide U32, LE32, Stacked, SlotAt;
    var s := Slots(p);
    CompactBounds(p, i);
    if j > i {
      CompactBounds(p, j);
      Descending(s, i, j);
    } else {
      PackedStacked(s[..i]);
      LowIsLowest(Packed(s[..i]), j);
    }
  }

  lemma CompactDoneSlots(p: seq<byte>, q: seq<byte>, right: nat)
    requires PageOk(p) && Compacting(p, q, NumSlots(p), right)
    ensures Used(Slots(p)) <= PAGE_SIZE && right == PAGE_SIZE - Used(Slots(p))
    ensures var r := Put32(q, FREE_OFFSET_AT, right);
      && Framed(r) && Slots(r) == Packed(Slots(p))
      && SlotOffset(r) == SlotOffset(p) && FreeSpace(r) == FreeSpace(p) && FreeOffset(r) == right
  {
    hide U32, LE32, Stacked, SlotAt;
    var s, r := Slots(p), Put32(q, FREE_OFFSET_AT, right);
    assert s[..NumSlots(p)] == s;
    PackedStacked(s);
    HeaderFrame(p, q);
    HeaderFrame(q, r);
    forall j | 0 <= j < NumSlots(p) ensures SlotAt(r, j) == Packed(s)[j] {
      if Packed(s)[j].Live? { LowIsLowest(Packed(s), j); }
      SameAbove(q, r, j);
    }
    assert Slots(r) == Packed(s);
  }

  /** When the loop is done, storing the last `right` as the free offset gives a packed page. */
  lemma CompactDone(p: seq<byte>, q: seq<byte>, right: nat)
    requires PageOk(p) && Compacting(p, q, NumSlots(p), right)
    ensures Used(Slots(p)) <= PAGE_SIZE && right < TWO32
    ensures var r := Put32(q, FREE_OFFSET_AT, right);
      && PageOk(r)
      && Slots(r) == Packed(Slots(p))
      && FreeSpace(r) == FreeSpace(p)
      && FreeOffset(r) - SlotOffset(r) == FreeSpace(r)
  {
    hide U32, LE32, SlotAt, Put32;
    CompactDoneSlots(p, q, right);
    PackedStacked(Slots(p));
  }

  /** Compaction is asked for only when some slot is empty: with none, the gap is all the free space. */
  lemma CompactionNeedsDeadSlot(p: seq<byte>)
    requires PageOk(p)
    ensures FreeOffset(p) - SlotOffset(p) <= FreeSpace(p)
    ensures FreeSpace(p) > FreeOffset(p) - SlotOffset(p) ==> !AllLive(Slots(p))
  {
    hide U32, LE32, SlotAt, Stacked;
    LowUsed(Slots(p));
  }
}
