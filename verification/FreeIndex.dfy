/** The free-space index: a multimap from free bytes to page id, kept in key order with equal keys in
    insertion order. */
module FreeIndex {
  import opened Bytes

  datatype Entry = Entry(free: nat, page: nat)

  ghost predicate Sorted(ix: seq<Entry>) {
    forall i, j :: 0 <= i < j < |ix| ==> ix[i].free <= ix[j].free
  }

  ghost predicate DistinctPages(ix: seq<Entry>) {
    forall i, j :: 0 <= i < j < |ix| ==> ix[i].page != ix[j].page
  }

  function AddAt(ix: seq<Entry>, k: nat, e: Entry): (iy: seq<Entry>)
    requires k <= |ix|
    ensures |iy| == |ix| + 1 && iy[k] == e
    ensures forall i :: 0 <= i < |iy| && i != k ==> iy[i] == ix[if i < k then i else i - 1]
  {
    ix[..k] + [e] + ix[k..]
  }

  function DropAt(ix: seq<Entry>, k: nat): (iy: seq<Entry>)
    requires k < |ix|
    ensures |iy| == |ix| - 1
    ensures forall i :: 0 <= i < |iy| ==> iy[i] == ix[if i < k then i else i + 1]
  {
    ix[..k] + ix[k + 1..]
  }

  /** multimap::upper_bound: the first position whose key exceeds `key`. */
  function UpperBound(ix: seq<Entry>, key: nat): (k: nat)
    ensures k <= |ix|
    ensures k < |ix| ==> key < ix[k].free
    ensures forall i :: 0 <= i < k ==> ix[i].free <= key
  {
    if ix == [] || key < ix[0].free then 0 else 1 + UpperBound(ix[1..], key)
  }

  /** multimap::lower_bound: the first position whose key is at least `key`. */
  function LowerBound(ix: seq<Entry>, key: nat): (k: nat)
    ensures k <= |ix|
    ensures k < |ix| ==> key <= ix[k].free
    ensures forall i :: 0 <= i < k ==> ix[i].free < key
  {
    if ix == [] || key <= ix[0].free then 0 else 1 + LowerBound(ix[1..], key)
  }

  /** multimap::insert: behind the entries with the same key. */
  function Insert(ix: seq<Entry>, e: Entry): seq<Entry> {
    AddAt(ix, UpperBound(ix, e.free), e)
  }

  /** The first position of `e`, or the length. */
  function IndexOf(ix: seq<Entry>, e: Entry): (k: nat)
    ensures k <= |ix|
    ensures k < |ix| ==> ix[k] == e
    ensures forall i :: 0 <= i < k ==> ix[i] != e
  {
    if ix == [] || ix[0] == e then 0 else 1 + IndexOf(ix[1..], e)
  }

  /** multimap::erase by iterator, when the entry is there. */
  function Erase(ix: seq<Entry>, e: Entry): seq<Entry> {
    var k := IndexOf(ix, e);
    if k < |ix| then DropAt(ix, k) else ix
  }

  /** The index holds exactly one entry per page, keyed by that page's free space. */
  ghost predicate Indexes(ix: seq<Entry>, free: seq<nat>) {
    && Sorted(ix)
    && |ix| == |free|
    && (forall k :: 0 <= k < |ix| ==> ix[k].page < |free| && ix[k].free == free[ix[k].page])
    && DistinctPages(ix)
    && (forall id :: 0 <= id < |free| ==> Entry(free[id], id) in ix)
  }

  lemma AddSorted(ix: seq<Entry>, e: Entry)
    requires Sorted(ix)
    ensures Sorted(Insert(ix, e))
  {
    hide AddAt;
    var k, iy := UpperBound(ix, e.free), Insert(ix, e);
    forall i, j | 0 <= i < j < |iy| ensures iy[i].free <= iy[j].free {
      if i == k { assert ix[k].free <= ix[j - 1].free; }
    }
  }

  lemma AddDistinct(ix: seq<Entry>, k: nat, e: Entry)
    requires k <= |ix| && DistinctPages(ix) && forall i :: 0 <= i < |ix| ==> ix[i].page != e.page
    ensures DistinctPages(AddAt(ix, k, e))
  {
    hide AddAt;
  }

  lemma DropSorted(ix: seq<Entry>, k: nat)
    requires k < |ix| && Sorted(ix) && DistinctPages(ix)
    ensures Sorted(DropAt(ix, k)) && DistinctPages(DropAt(ix, k))
  {
    hide DropAt;
  }

  /** The part of `Indexes` that tolerates one page, `hole`, having no entry. */
  ghost predicate IndexesBut(ix: seq<Entry>, free: seq<nat>, hole: nat) {
    && Sorted(ix)
    && |ix| + 1 == |free|
    && (forall k :: 0 <= k < |ix| ==> ix[k].page < |free| && ix[k].page != hole && ix[k].free == free[ix[k].page])
    && DistinctPages(ix)
    && (forall id :: 0 <= id < |free| && id != hole ==> Entry(free[id], id) in ix)
  }

  lemma EraseLeavesHole(ix: seq<Entry>, free: seq<nat>, id: nat)
    requires Indexes(ix, free) && id < |free|
    ensures IndexesBut(Erase(ix, Entry(free[id], id)), free, id)
  {
    hide IndexOf, DropAt, Sorted;
    var e := Entry(free[id], id);
    assert e in ix;
    var k := IndexOf(ix, e);
    var iy := DropAt(ix, k);
    DropSorted(ix, k);
    forall d | 0 <= d < |free| && d != id ensures Entry(free[d], d) in iy {
      var i :| 0 <= i < |ix| && ix[i] == Entry(free[d], d);
      assert iy[if i < k then i else i - 1] == ix[i];
    }
  }

  lemma InsertFillsHole(ix: seq<Entry>, free: seq<nat>, id: nat, f: nat)
    requires id < |free| && IndexesBut(ix, free, id)
    ensures Indexes(Insert(ix, Entry(f, id)), free[id := f])
  {
    hide UpperBound, AddAt, Sorted, DistinctPages;
    var e, free' := Entry(f, id), free[id := f];
    var k, iy := UpperBound(ix, f), Insert(ix, e);
    AddSorted(ix, e);
    AddDistinct(ix, k, e);
    forall d | 0 <= d < |free| ensures Entry(free'[d], d) in iy {
      if d == id {
        Added(ix, k, e, e);
      } else {
        Added(ix, k, e, Entry(free[d], d));
      }
    }
  }

  lemma Added(ix: seq<Entry>, k: nat, e: Entry, x: Entry)
    requires k <= |ix| && (x == e || x in ix)
    ensures x in AddAt(ix, k, e)
  {
    hide AddAt;
    var iy := AddAt(ix, k, e);
    if x == e {
      assert iy[k] == e;
    } else {
      var i :| 0 <= i < |ix| && ix[i] == x;
      assert iy[if i < k then i else i + 1] == x;
    }
  }

  /** Re-keying one page keeps the index exact. */
  lemma UpdateOk(ix: seq<Entry>, free: seq<nat>, id: nat, f: nat)
    requires Indexes(ix, free) && id < |free|
    ensures Indexes(Insert(Erase(ix, Entry(free[id], id)), Entry(f, id)), free[id := f])
  {
    EraseLeavesHole(ix, free, id);
    InsertFillsHole(Erase(ix, Entry(free[id], id)), free, id, f);
  }

  /** Adding a page under the next id keeps the index exact. */
  lemma ExtendOk(ix: seq<Entry>, free: seq<nat>, f: nat)
    requires Indexes(ix, free)
    ensures Indexes(Insert(ix, Entry(f, |ix|)), free + [f])
  {
    hide Sorted, DistinctPages, Insert;
    var free' := free + [0];
    forall id | 0 <= id < |free'| && id != |free| ensures Entry(free'[id], id) in ix {
      assert free'[id] == free[id];
    }
    InsertFillsHole(ix, free', |free|, f);
    assert free'[|free| := f] == free + [f];
  }

  /** _findPage: the page of the smallest key above `required`. */
  function FindPage(ix: seq<Entry>, required: nat): Option<nat> {
    var k := UpperBound(ix, required);
    if k < |ix| then Some(ix[k].page) else None
  }

  /** With an exact index the search is a best fit over the pages themselves. */
  lemma FindPageBestFit(ix: seq<Entry>, free: seq<nat>, required: nat)
    requires Indexes(ix, free)
    ensures match FindPage(ix, required)
      case None => forall id :: 0 <= id < |free| ==> free[id] <= required
      case Some(p) =>
        && p < |free| && required < free[p]
        && forall id :: 0 <= id < |free| && required < free[id] ==> free[p] <= free[id]
  {
    var k := UpperBound(ix, required);
    forall id | 0 <= id < |free| && required < free[id]
      ensures k < |ix| && ix[k].free <= free[id]
    {
      var i :| 0 <= i < |ix| && ix[i] == Entry(free[id], id);
      assert k <= i;
    }
  }

  lemma {:induction false} CountDistinct(ix: seq<Entry>, e: Entry)
    requires DistinctPages(ix)
    ensures multiset(ix)[e] == if e in ix then 1 else 0
  {
    if ix != [] {
      CountDistinct(ix[1..], e);
      assert ix == [ix[0]] + ix[1..];
    }
  }

  /** An exact index is determined by the page headers, up to the order of pages with equal free space. */
  lemma IndexDetermined(ix: seq<Entry>, iy: seq<Entry>, free: seq<nat>)
    requires Indexes(ix, free) && Indexes(iy, free)
    ensures multiset(ix) == multiset(iy)
  {
    forall e ensures multiset(ix)[e] == multiset(iy)[e] {
      CountDistinct(ix, e);
      CountDistinct(iy, e);
      assert e in ix <==> e.page < |free| && e == Entry(free[e.page], e.page);
      assert e in iy <==> e.page < |free| && e == Entry(free[e.page], e.page);
    }
  }
}
