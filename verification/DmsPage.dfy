/** The slotted page of the record store: a byte buffer holding a header, a slot array that grows up and
    records that grow down from the end. */
module DmsPage {
  import opened Bytes

  const PAGE_SIZE: nat := 4194304
  const HEADER: nat := 28           // sizeof(dmsPageHeader)
  const RECORD_HEADER: nat := 8     // sizeof(dmsRecord)
  const SLOT: nat := 4              // sizeof(SLOTOFF)
  const OVERHEAD: nat := RECORD_HEADER + SLOT
  const SLOT_EMPTY: nat := 0xFFFF_FFFF
  const NORMAL: nat := 0
  const DROPPED: nat := 1

  // Offsets of the header fields
  const NUM_SLOTS_AT: nat := 12
  const SLOT_OFFSET_AT: nat := 16
  const FREE_SPACE_AT: nat := 20
  const FREE_OFFSET_AT: nat := 24

  function NumSlots(p: seq<byte>): nat requires |p| == PAGE_SIZE { U32(p, NUM_SLOTS_AT) }
  function SlotOffset(p: seq<byte>): nat requires |p| == PAGE_SIZE { U32(p, SLOT_OFFSET_AT) }
  function FreeSpace(p: seq<byte>): nat requires |p| == PAGE_SIZE { U32(p, FREE_SPACE_AT) }
  function FreeOffset(p: seq<byte>): nat requires |p| == PAGE_SIZE { U32(p, FREE_OFFSET_AT) }

  /** The file format: pages of 4 MB; a header of an eye catcher and six words, of which the last four are these, each in its
      place; a record header of two words, and slots of one. */
  lemma Format()
    ensures PAGE_SIZE == 4 * 1024 * 1024 && SLOT == 4 && RECORD_HEADER == 2 * 4 && HEADER == 4 + 6 * 4
    ensures NUM_SLOTS_AT == 4 + 2 * 4 && SLOT_OFFSET_AT == NUM_SLOTS_AT + 4
    ensures FREE_SPACE_AT == SLOT_OFFSET_AT + 4 && FREE_OFFSET_AT == FREE_SPACE_AT + 4 == HEADER - 4
    ensures SLOT_EMPTY == TWO32 - 1 && NORMAL == 0 && DROPPED == 1
  {
  }

  /** What a slot denotes: nothing, or a record (its header included) at an offset of the page. */
  datatype Slot = Dead | Live(off: nat, rec: seq<byte>)

  function SlotPos(i: nat): nat { HEADER + SLOT * i }

  ghost predicate Framed(p: seq<byte>) {
    |p| == PAGE_SIZE && SlotPos(NumSlots(p)) <= PAGE_SIZE
  }

  ghost function RecordAt(p: seq<byte>, off: nat): seq<byte> {
    if off + RECORD_HEADER <= |p| && off + U32(p, off) <= |p| then p[off..off + U32(p, off)] else []
  }

  ghost function SlotAt(p: seq<byte>, i: nat): Slot
    requires |p| == PAGE_SIZE && SlotPos(i + 1) <= PAGE_SIZE
  {
    var off := U32(p, SlotPos(i));
    if off == SLOT_EMPTY then Dead else Live(off, RecordAt(p, off))
  }

  ghost function Slots(p: seq<byte>): (s: seq<Slot>)
    requires Framed(p)
    ensures |s| == NumSlots(p)
  {
    seq(NumSlots(p), i requires 0 <= i < NumSlots(p) => SlotAt(p, i))
  }

  // ---------------------------------------------------------------- layout of the records

  ghost predicate AllLive(s: seq<Slot>) { forall i :: 0 <= i < |s| ==> s[i].Live? }

  /** Lowest offset in use: records are handed out downwards, so it belongs to the last live slot. */
  ghost function Low(s: seq<Slot>): nat {
    if s == [] then PAGE_SIZE
    else if s[|s| - 1].Live? then s[|s| - 1].off
    else Low(s[..|s| - 1])
  }

  /** Bytes held by live records. */
  ghost function Used(s: seq<Slot>): nat {
    if s == [] then 0 else Used(s[..|s| - 1]) + SizeOf(s[|s| - 1])
  }

  ghost function SizeOf(s: Slot): nat { if s.Live? then |s.rec| else 0 }

  /** A record carries its own size, is not dropped, and holds a BSON object: a body that starts with its length. */
  ghost predicate RecordOk(rec: seq<byte>) {
    && |rec| >= RECORD_HEADER + 4
    && U32(rec, 0) == |rec|
    && U32(rec, 4) == NORMAL
    && U32(rec, RECORD_HEADER) == |rec| - RECORD_HEADER
  }

  /** Live records descend without overlap, and are packed to the page end before the first empty slot. */
  ghost predicate Stacked(s: seq<Slot>) {
    s == [] ||
    var init, last := s[..|s| - 1], s[|s| - 1];
    && Stacked(init)
    && (last.Live? ==>
        && RecordOk(last.rec)
        && last.off + |last.rec| <= Low(init)
        && (AllLive(init) ==> last.off + |last.rec| == Low(init)))
  }

  ghost predicate PageOk(p: seq<byte>) {
    && Framed(p)
    && var s := Slots(p);
    && Stacked(s)
    && SlotOffset(p) == SlotPos(NumSlots(p))
    && SlotOffset(p) <= FreeOffset(p) <= Low(s)
    && (AllLive(s) ==> FreeOffset(p) == Low(s))
    && FreeSpace(p) + SlotPos(NumSlots(p)) + Used(s) == PAGE_SIZE
  }

  lemma {:induction false} LowUsed(s: seq<Slot>)
    requires Stacked(s)
    ensures Low(s) + Used(s) <= PAGE_SIZE
    ensures AllLive(s) ==> Low(s) + Used(s) == PAGE_SIZE
  {
    if s != [] {
      var init := s[..|s| - 1];
      LowUsed(init);
      assert AllLive(s) ==> AllLive(init);
    }
  }

  lemma {:induction false} LowIsLowest(s: seq<Slot>, i: nat)
    requires Stacked(s) && i < |s| && s[i].Live?
    ensures RecordOk(s[i].rec)
    ensures Low(s) <= s[i].off && s[i].off + |s[i].rec| <= Low(s[..i]) <= PAGE_SIZE
  {
    var init := s[..|s| - 1];
    if i < |s| - 1 {
      LowIsLowest(init, i);
      assert init[..i] == s[..i];
    } else {
      LowUsed(init);
    }
  }

  lemma {:induction false} StackedPrefix(s: seq<Slot>, i: nat)
    requires Stacked(s) && i <= |s|
    ensures Stacked(s[..i]) && Low(s) <= Low(s[..i])
  {
    if i == |s| {
      assert s[..i] == s;
    } else {
      var init := s[..|s| - 1];
      StackedPrefix(init, i);
      assert init[..i] == s[..i];
    }
  }

  /** Live offsets strictly decrease in slot index and the records do not overlap. */
  lemma Descending(s: seq<Slot>, i: nat, j: nat)
    requires Stacked(s) && i < j < |s| && s[i].Live? && s[j].Live?
    ensures s[j].off + |s[j].rec| <= s[i].off
  {
    LowIsLowest(s, j);
    StackedPrefix(s, j);
    assert s[..j][i] == s[i];
    LowIsLowest(s[..j], i);
  }

  // ---------------------------------------------------------------- framing

  /** A slot keeps its meaning when its own entry and its record's bytes are kept. */
  lemma SlotFrame(p: seq<byte>, q: seq<byte>, i: nat)
    requires |p| == |q| == PAGE_SIZE && SlotPos(i + 1) <= PAGE_SIZE
    requires p[SlotPos(i)..SlotPos(i + 1)] == q[SlotPos(i)..SlotPos(i + 1)]
    requires SlotAt(p, i).Live? ==>
      var off, n := SlotAt(p, i).off, |SlotAt(p, i).rec|;
      n >= RECORD_HEADER && off + n <= PAGE_SIZE && p[off..off + n] == q[off..off + n]
    ensures SlotAt(q, i) == SlotAt(p, i)
  {
    hide U32;
    U32Frame(p, SlotPos(i), q, SlotPos(i));
    var s := SlotAt(p, i);
    if s.Live? {
      Subslice(p, q, s.off, s.off + |s.rec|, s.off, s.off + 4);
      U32Frame(p, s.off, q, s.off);
    }
  }

  /** Writes that spare the slot array and everything from `low` up keep all slots. */
  lemma SlotsFrame(p: seq<byte>, q: seq<byte>, n: nat, low: nat)
    requires Framed(p) && |q| == PAGE_SIZE && n == NumSlots(p)
    requires Stacked(Slots(p)) && low <= Low(Slots(p))
    requires low <= PAGE_SIZE && p[HEADER..SlotPos(n)] == q[HEADER..SlotPos(n)] && p[low..] == q[low..]
    ensures forall i :: 0 <= i < n ==> SlotAt(q, i) == Slots(p)[i]
  {
    hide U32, Stacked, Low, Slots, SlotAt;
    forall i | 0 <= i < n ensures SlotAt(q, i) == Slots(p)[i] {
      OneSlotFrame(p, q, n, low, i);
    }
  }

  lemma OneSlotFrame(p: seq<byte>, q: seq<byte>, n: nat, low: nat, i: nat)
    requires Framed(p) && |q| == PAGE_SIZE && i < n == NumSlots(p)
    requires Stacked(Slots(p)) && low <= Low(Slots(p))
    requires low <= PAGE_SIZE && p[HEADER..SlotPos(n)] == q[HEADER..SlotPos(n)] && p[low..] == q[low..]
    ensures SlotAt(q, i) == Slots(p)[i]
  {
    hide U32, Stacked, Low;
    Subslice(p, q, HEADER, SlotPos(n), SlotPos(i), SlotPos(i + 1));
    var s := Slots(p)[i];
    if s.Live? {
      LowIsLowest(Slots(p), i);
      Subslice(p, q, low, PAGE_SIZE, s.off, s.off + |s.rec|);
    }
    SlotFrame(p, q, i);
  }
}
