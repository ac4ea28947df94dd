/** The record store seen as a map from record ids to bytes, and its safety over whole runs. */
module DmsStore {
  import opened Bytes
  import opened DmsPage
  import opened DmsPageOps
  import opened FreeIndex

  const PAGES_PER_SEGMENT: nat := 32

  datatype RecordId = RecordId(page: nat, slot: nat)
  datatype Store = Store(pages: seq<seq<byte>>, index: seq<Entry>)

  ghost predicate PagesOk(pages: seq<seq<byte>>) {
    forall id :: 0 <= id < |pages| ==> PageOk(pages[id])
  }

  ghost function FreeList(pages: seq<seq<byte>>): (free: seq<nat>)
    requires PagesOk(pages)
    ensures |free| == |pages|
    ensures forall id :: 0 <= id < |pages| ==> free[id] == FreeSpace(pages[id])
  {
    seq(|pages|, id requires 0 <= id < |pages| => FreeSpace(pages[id]))
  }

  /** Every page is sound and the index has exactly one entry per page, keyed by the header's free space. */
  ghost predicate StoreOk(st: Store) {
    PagesOk(st.pages) && Indexes(st.index, FreeList(st.pages))
  }

  // ---------------------------------------------------------------- the map a store represents

  ghost predicate Issued(st: Store, rid: RecordId) {
    rid.page < |st.pages| && Framed(st.pages[rid.page]) && rid.slot < NumSlots(st.pages[rid.page])
  }

  ghost function BodyOf(s: Slot): Option<seq<byte>> {
    if s.Live? && RECORD_HEADER <= |s.rec| then Some(s.rec[RECORD_HEADER..]) else None
  }

  ghost function Lookup(st: Store, rid: RecordId): Option<seq<byte>> {
    if Issued(st, rid) then BodyOf(Slots(st.pages[rid.page])[rid.slot]) else None
  }

  /** Nothing that a caller can observe has changed. */
  ghost predicate SameMap(st: Store, st': Store) {
    forall r :: (Issued(st', r) <==> Issued(st, r)) && Lookup(st', r) == Lookup(st, r)
  }

  /** `rid` is new and denotes `body`; every other id is as before. */
  ghost predicate Inserted(st: Store, st': Store, rid: RecordId, body: seq<byte>) {
    && !Issued(st, rid) && Issued(st', rid)
    && Lookup(st', rid) == Some(body)
    && forall r :: r != rid ==> (Issued(st', r) <==> Issued(st, r)) && Lookup(st', r) == Lookup(st, r)
  }

  /** `rid` was live and is no longer; every other id is as before. */
  ghost predicate Removed(st: Store, st': Store, rid: RecordId) {
    && Lookup(st, rid).Some? && Lookup(st', rid) == None
    && (forall r :: Issued(st', r) <==> Issued(st, r))
    && forall r :: r != rid ==> Lookup(st', r) == Lookup(st, r)
  }

  // ---------------------------------------------------------------- lifting page changes to the store

  function Reindexed(ix: seq<Entry>, id: nat, was: nat, now: nat): seq<Entry> {
    Insert(Erase(ix, Entry(was, id)), Entry(now, id))
  }

  lemma PageStepOk(st: Store, id: nat, q: seq<byte>)
    requires StoreOk(st) && id < |st.pages| && PageOk(q)
    ensures StoreOk(Store(st.pages[id := q], Reindexed(st.index, id, FreeSpace(st.pages[id]), FreeSpace(q))))
  {
    hide U32, Indexes, Insert, Erase;
    var pages' := st.pages[id := q];
    UpdateOk(st.index, FreeList(st.pages), id, FreeSpace(q));
    assert FreeList(pages') == FreeList(st.pages)[id := FreeSpace(q)];
  }

  lemma InsertStep(st: Store, st': Store, id: nat, body: seq<byte>)
    requires id < |st.pages| && Framed(st.pages[id]) && |st'.pages| == |st.pages|
    requires st' == Store(st.pages[id := st'.pages[id]], st'.index) && Framed(st'.pages[id])
    requires exists off: nat, rec: seq<byte> ::
      && Slots(st'.pages[id]) == Slots(st.pages[id]) + [Live(off, rec)]
      && RECORD_HEADER <= |rec| && rec[RECORD_HEADER..] == body
    ensures Inserted(st, st', RecordId(id, NumSlots(st.pages[id])), body)
  {
    hide U32, SlotAt;
  }

  lemma RemoveStep(st: Store, st': Store, rid: RecordId)
    requires Issued(st, rid) && |st'.pages| == |st.pages|
    requires st' == Store(st.pages[rid.page := st'.pages[rid.page]], st'.index) && Framed(st'.pages[rid.page])
    requires Lookup(st, rid).Some?
    requires Slots(st'.pages[rid.page]) == Slots(st.pages[rid.page])[rid.slot := Dead]
    ensures Removed(st, st', rid)
  {
    hide U32, SlotAt;
  }

  lemma CompactStep(st: Store, st': Store, id: nat)
    requires id < |st.pages| && Framed(st.pages[id]) && |st'.pages| == |st.pages|
    requires st' == Store(st.pages[id := st'.pages[id]], st'.index) && Framed(st'.pages[id])
    requires Used(Slots(st.pages[id])) <= PAGE_SIZE
    requires Slots(st'.pages[id]) == Packed(Slots(st.pages[id]))
    ensures SameMap(st, st')
  {
    hide U32, SlotAt, Packed;
    PackedKeepsRecords(Slots(st.pages[id]));
  }

  lemma ExtendStep(st: Store, st': Store)
    requires st.pages <= st'.pages
    requires forall id :: |st.pages| <= id < |st'.pages| ==> Framed(st'.pages[id]) && NumSlots(st'.pages[id]) == 0
    ensures SameMap(st, st')
  {
    hide U32, SlotAt;
  }

  // ---------------------------------------------------------------- whole runs

  datatype Op = OpInsert(rid: RecordId, body: seq<byte>) | OpRemove(rid: RecordId) | OpQuiet

  ghost predicate Step(st: Store, op: Op, st': Store) {
    match op
    case OpInsert(rid, body) => Inserted(st, st', rid, body)
    case OpRemove(rid) => Removed(st, st', rid)
    case OpQuiet => SameMap(st, st')
  }

  /** A run of the store from the empty file: compactions, extensions, finds and failed calls are quiet. */
  ghost predicate Run(states: seq<Store>, ops: seq<Op>) {
    && |states| == |ops| + 1
    && states[0] == Store([], [])
    && forall i :: 0 <= i < |ops| ==> Step(states[i], ops[i], states[i + 1])
  }

  lemma {:induction false} IssuedForever(states: seq<Store>, ops: seq<Op>, i: nat, j: nat, rid: RecordId)
    requires Run(states, ops) && i <= j < |states| && Issued(states[i], rid)
    ensures Issued(states[j], rid)
    decreases j - i
  {
    hide Issued, Lookup;
    if i < j {
      assert Step(states[i], ops[i], states[i + 1]);
      IssuedForever(states, ops, i + 1, j, rid);
    }
  }

  /** Ids are never reissued. */
  lemma NeverReissued(states: seq<Store>, ops: seq<Op>, i: nat, j: nat)
    requires Run(states, ops) && i < j < |ops| && ops[i].OpInsert? && ops[j].OpInsert?
    ensures ops[i].rid != ops[j].rid
  {
    hide Issued, Lookup;
    assert Step(states[i], ops[i], states[i + 1]) && Step(states[j], ops[j], states[j + 1]);
    IssuedForever(states, ops, i + 1, j, ops[i].rid);
  }

  ghost predicate RemovedBetween(ops: seq<Op>, i: nat, j: nat, rid: RecordId)
    requires j <= |ops|
  {
    exists k :: i <= k < j && ops[k] == OpRemove(rid)
  }

  lemma {:induction false} StaysUntilRemoved(states: seq<Store>, ops: seq<Op>, i: nat, j: nat)
    requires Run(states, ops) && i < j < |states| && ops[i].OpInsert?
    ensures Lookup(states[j], ops[i].rid) ==
      if RemovedBetween(ops, i + 1, j, ops[i].rid) then None else Some(ops[i].body)
    decreases j
  {
    hide Issued, Lookup;
    var rid := ops[i].rid;
    assert Step(states[j - 1], ops[j - 1], states[j]);
    if i + 1 < j {
      StaysUntilRemoved(states, ops, i, j - 1);
      if ops[j - 1].OpInsert? { NeverReissued(states, ops, i, j - 1); }
      assert RemovedBetween(ops, i + 1, j, rid) <==>
        RemovedBetween(ops, i + 1, j - 1, rid) || ops[j - 1] == OpRemove(rid);
    }
  }

  /** An id that no insert returned denotes nothing. */
  lemma {:induction false} NothingElse(states: seq<Store>, ops: seq<Op>, j: nat, rid: RecordId)
    requires Run(states, ops) && j < |states|
    requires forall i :: 0 <= i < j && ops[i].OpInsert? ==> ops[i].rid != rid
    ensures Lookup(states[j], rid) == None
  {
    if j > 0 {
      hide Issued, Lookup;
      NothingElse(states, ops, j - 1, rid);
      assert Step(states[j - 1], ops[j - 1], states[j]);
    }
  }
}
