/** The page operations of the record store as they run, in place, on a mapped segment. */
module DmsMemory {
  import opened Bytes
  import opened DmsPage
  import opened DmsPageOps

  /** The page that starts at `base` of a segment. */
  ghost function Window(m: seq<byte>, base: nat): (p: seq<byte>)
    requires base + PAGE_SIZE <= |m|
    ensures |p| == PAGE_SIZE
  {
    m[base..base + PAGE_SIZE]
  }

  ghost predicate SameOutside(m: seq<byte>, m': seq<byte>, base: nat) {
    |m| == |m'| && forall i :: 0 <= i < |m| && !(base <= i < base + PAGE_SIZE) ==> m'[i] == m[i]
  }

  method Load32(seg: array<byte>, base: nat, at: nat) returns (v: nat)
    requires base + PAGE_SIZE <= seg.Length && at + 4 <= PAGE_SIZE
    ensures v == U32(Window(seg[..], base), at)
  {
    v := Word(seg[base + at], seg[base + at + 1], seg[base + at + 2], seg[base + at + 3]);
    assert forall k :: 0 <= k < PAGE_SIZE ==> Window(seg[..], base)[k] == seg[base + k];
  }

  method Write(seg: array<byte>, base: nat, at: nat, src: seq<byte>)
    requires base + PAGE_SIZE <= seg.Length && at + |src| <= PAGE_SIZE
    modifies seg
    ensures Window(seg[..], base) == Blit(old(Window(seg[..], base)), at, src)
    ensures SameOutside(old(seg[..]), seg[..], base)
  {
    forall i | 0 <= i < |src| {
      seg[base + at + i] := src[i];
    }
    ghost var m, m' := old(seg[..]), seg[..];
    assert m' == Blit(m, base + at, src);
    BlitWindow(m, base, PAGE_SIZE, at, src);
  }

  method Store32(seg: array<byte>, base: nat, at: nat, v: nat)
    requires base + PAGE_SIZE <= seg.Length && at + 4 <= PAGE_SIZE && v < TWO32
    modifies seg
    ensures Window(seg[..], base) == Put32(old(Window(seg[..], base)), at, v)
    ensures SameOutside(old(seg[..]), seg[..], base)
  {
    Write(seg, base, at, LE32(v));
  }

  /** memmove within a page: the ranges may overlap. */
  method Move(seg: array<byte>, base: nat, dst: nat, src: nat, n: nat)
    requires base + PAGE_SIZE <= seg.Length && dst + n <= PAGE_SIZE && src + n <= PAGE_SIZE
    modifies seg
    ensures Window(seg[..], base) == Blit(old(Window(seg[..], base)), dst, old(Window(seg[..], base))[src..src + n])
    ensures SameOutside(old(seg[..]), seg[..], base)
  {
    ghost var bytes := Window(seg[..], base)[src..src + n];
    assert forall k :: 0 <= k < n ==> bytes[k] == seg[base + src + k];
    forall i | 0 <= i < n {
      seg[base + dst + i] := seg[base + src + i];
    }
    ghost var m, m' := old(seg[..]), seg[..];
    assert m' == Blit(m, base + dst, bytes);
    BlitWindow(m, base, PAGE_SIZE, dst, bytes);
  }

  /** Moves a record of `n` bytes up to end at `right` and points its slot at it. */
  method MoveUp(seg: array<byte>, base: nat, i: nat, off: nat, n: nat, right: nat)
    requires base + PAGE_SIZE <= seg.Length
    requires n <= right <= PAGE_SIZE && SlotPos(i + 1) <= right - n && off + n <= PAGE_SIZE
    modifies seg
    ensures Window(seg[..], base) == MoveRecord(old(Window(seg[..], base)), i, off, n, right)
    ensures SameOutside(old(seg[..]), seg[..], base)
  {
    hide U32, LE32;
    ghost var q := Window(seg[..], base);
    Move(seg, base, right - n, off, n);
    Store32(seg, base, SlotPos(i), right - n);
    MoveIsRecordMove(q, i, off, n, right);
  }

  /** _recoverSpace: packs the live records against the page end, in slot order, moving nothing before the
      first empty slot. */
  method RecoverSpace(seg: array<byte>, base: nat)
    requires base + PAGE_SIZE <= seg.Length && PageOk(Window(seg[..], base))
    modifies seg
    ensures SameOutside(old(seg[..]), seg[..], base)
    ensures var p, q := old(Window(seg[..], base)), Window(seg[..], base);
      && PageOk(q)
      && Used(Slots(p)) <= PAGE_SIZE && Slots(q) == Packed(Slots(p))
      && FreeSpace(q) == FreeSpace(p)
      && FreeOffset(q) - SlotOffset(q) == FreeSpace(q)
  {
    hide U32, LE32, Put32, Stacked, Packed, MoveRecord, RecordOk, PageOk, Compacting;
    ghost var m, p := seg[..], Window(seg[..], base);
    var numSlots := Load32(seg, base, NUM_SLOTS_AT);
    var right := PAGE_SIZE;
    var recovered := false;
    var i := 0;
    CompactStart(p);
    while i < numSlots
      invariant i <= numSlots == NumSlots(p)
      invariant SameOutside(m, seg[..], base)
      invariant 0 <= right <= PAGE_SIZE
      invariant Compacting(p, Window(seg[..], base), i, right)
      invariant !recovered <==> AllLive(Slots(p)[..i])
    {
      ghost var q := Window(seg[..], base);
      NextSlot(p, q, i, right);
      PrefixAllLive(Slots(p), i);
      var slot := Load32(seg, base, SlotPos(i));
      if slot != SLOT_EMPTY {
        var size := Load32(seg, base, slot);
        if recovered {
          CompactMove(p, q, i, right);
          MoveUp(seg, base, i, slot, size, right);
        } else {
          CompactKeep(p, q, i, right);
        }
        right := right - size;
      } else {
        CompactKeep(p, q, i, right);
        recovered := true;
      }
      i := i + 1;
    }
    ghost var q := Window(seg[..], base);
    CompactDone(p, q, right);
    Store32(seg, base, FREE_OFFSET_AT, right);
  }

  lemma CompactStart(p: seq<byte>)
    requires PageOk(p)
    ensures Framed(p) && Compacting(p, p, 0, PAGE_SIZE) && AllLive(Slots(p)[..0])
  {
    assert Slots(p)[..0] == [];
  }

  lemma PrefixAllLive(s: seq<Slot>, i: nat)
    requires i < |s|
    ensures AllLive(s[..i + 1]) <==> AllLive(s[..i]) && s[i].Live?
  {
    assert forall j :: 0 <= j < i ==> s[..i + 1][j] == s[..i][j];
  }

  /** What the loop reads for slot `i`: the slot entry, and the size word in front of its record. */
  lemma NextSlot(p: seq<byte>, q: seq<byte>, i: nat, right: nat)
    requires PageOk(p) && i < NumSlots(p) && Compacting(p, q, i, right)
    ensures |q| == PAGE_SIZE && SlotPos(i + 1) <= PAGE_SIZE
    ensures var off := U32(q, SlotPos(i));
      if off == SLOT_EMPTY then Slots(p)[i] == Dead
      else
        && Slots(p)[i].Live? && Slots(p)[i].off == off
        && off + 4 <= PAGE_SIZE && U32(q, off) == |Slots(p)[i].rec|
        && SlotPos(i + 1) <= off && off + |Slots(p)[i].rec| <= right <= PAGE_SIZE
  {
    hide U32, Stacked, Packed;
    assert SlotAt(q, i) == Slots(p)[i];
    CompactBounds(p, i);
  }

  /** The two writes of the source put the record first and the slot second; `MoveRecord` the other way round. */
  lemma MoveIsRecordMove(q: seq<byte>, i: nat, off: nat, n: nat, right: nat)
    requires |q| == PAGE_SIZE && n <= right <= PAGE_SIZE && SlotPos(i + 1) <= right - n && off + n <= PAGE_SIZE
    ensures Put32(Blit(q, right - n, q[off..off + n]), SlotPos(i), right - n) == MoveRecord(q, i, off, n, right)
  {
    hide LE32;
  }
}
