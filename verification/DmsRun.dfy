/** The store as its callers see it: requests and replies, without a look inside. */
module DmsRun {
  import opened Bytes
  import opened Document
  import opened BsonFormat
  import opened BsonBuilder
  import opened DmsPageOps
  import opened DmsStore
  import opened DmsFile

  datatype Request = Put(body: seq<byte>) | Drop(rid: RecordId) | Get(rid: RecordId) | Reload
  datatype Reply = Stored(rid: RecordId) | Refused | Dropped | Missing | Found(body: seq<byte>) | Reloaded

  /** The bytes of any document whose length fits its length field can be stored. */
  lemma DocumentsAreObjects(d: Doc)
    requires |EncodeDoc(d)| < TWO32
    ensures IsBson(EncodeDoc(d))
  {
    hide EncodeFields, LE32, U32;
    DocLength(d);
    var n := |EncodeDoc(d)|;
    assert EncodeDoc(d)[0..4] == LE32(n)[0..4];
    U32Frame(EncodeDoc(d), 0, LE32(n), 0);
  }

  /** What the request did to the map. */
  function Effect(q: Request, a: Reply): Op {
    match q
    case Put(body) => (match a case Stored(rid) => OpInsert(rid, body) case _ => OpQuiet)
    case Drop(rid) => if a.Dropped? then OpRemove(rid) else OpQuiet
    case _ => OpQuiet
  }

  function Effects(q: seq<Request>, a: seq<Reply>): (ops: seq<Op>)
    requires |a| == |q|
    ensures |ops| == |q|
  {
    seq(|q|, i requires 0 <= i < |q| => Effect(q[i], a[i]))
  }

  /** The reply fits the request and the store in front of it. */
  ghost predicate Answers(st: Store, q: Request, a: Reply) {
    match q
    case Put(body) => if EmptyPageTakes(body) then a.Stored? else a == Refused
    case Drop(rid) => a == if Lookup(st, rid).Some? then Dropped else Missing
    case Get(rid) => a == (match Lookup(st, rid) case Some(body) => Found(body) case None => Missing)
    case Reload => a == Reloaded
  }

  ghost predicate Conversation(states: seq<Store>, q: seq<Request>, a: seq<Reply>) {
    && |a| == |q|
    && Run(states, Effects(q, a))
    && forall i :: 0 <= i < |q| ==> Answers(states[i], q[i], a[i])
  }

  /** One request. */
  method Serve(file: DmsFile, q: Request) returns (a: Reply)
    requires file.Valid() && (q.Put? ==> IsBson(q.body))
    modifies file, file.body
    ensures file.Valid() && old(file.body) <= file.body
    ensures forall s :: old(|file.body|) <= s < |file.body| ==> fresh(file.body[s])
    ensures Answers(old(file.State()), q, a) && Step(old(file.State()), Effect(q, a), file.State())
  {
    hide Lookup, Issued, PagesOk, Inserted, Removed, SameMap;
    match q {
      case Put(body) =>
        var rc, _, rid := file.Insert(body);
        QuietRefl(old(file.State()));
        a := if rc == EDB_OK then Stored(rid) else Refused;
      case Drop(rid) =>
        var rc := file.Remove(rid);
        QuietRefl(old(file.State()));
        a := if rc == EDB_OK then Dropped else Missing;
      case Get(rid) =>
        var rc, body := file.Find(rid);
        QuietRefl(file.State());
        a := if rc == EDB_OK then Found(body) else Missing;
      case Reload =>
        file.LoadData();
        SamePages(old(file.State()), file.State());
        a := Reloaded;
    }
  }

  lemma SamePages(st: Store, st': Store)
    requires st'.pages == st.pages
    ensures SameMap(st, st')
  {
    hide U32;
  }

  /** These are replies that a new file may give. */
  ghost predicate Served(q: seq<Request>, a: seq<Reply>) {
    exists states :: Conversation(states, q, a)
  }

  /** A file from its creation on, through any requests. */
  method Talk(q: seq<Request>) returns (a: seq<Reply>)
    requires forall i :: 0 <= i < |q| && q[i].Put? ==> IsBson(q[i].body)
    ensures |a| == |q| && Served(q, a)
  {
    hide Answers, Effect, Step, DmsStore.StoreOk;
    var file := new DmsFile();
    a := [];
    ghost var states := [file.State()];
    var i := 0;
    while i < |q|
      invariant i <= |q| == |q| && |a| == i && |states| == i + 1
      invariant file.Valid() && states[i] == file.State()
      invariant fresh(file) && forall s :: 0 <= s < |file.body| ==> fresh(file.body[s])
      invariant Conversation(states, q[..i], a)
    {
      ghost var st := file.State();
      var r := Serve(file, q[i]);
      Extended(states, q[..i], a, file.State(), q[i], r);
      assert q[..i + 1] == q[..i] + [q[i]];
      a := a + [r];
      states := states + [file.State()];
      i := i + 1;
    }
    assert q[..i] == q;
  }

  lemma Extended(states: seq<Store>, q: seq<Request>, a: seq<Reply>, st: Store, request: Request, reply: Reply)
    requires Conversation(states, q, a)
    requires Answers(states[|q|], request, reply) && Step(states[|q|], Effect(request, reply), st)
    ensures Conversation(states + [st], q + [request], a + [reply])
  {
    hide Answers, Effect, Step;
    var states', q', a' := states + [st], q + [request], a + [reply];
    var ops := Effects(q', a');
    forall i | 0 <= i < |ops| ensures Step(states'[i], ops[i], states'[i + 1]) && Answers(states'[i], q'[i], a'[i]) {
      if i < |q| {
        assert Effects(q, a)[i] == ops[i];
      }
    }
  }

  // ---------------------------------------------------------------- what callers can rely on

  /** An insert at `i` was answered with this id. */
  predicate Given(q: seq<Request>, a: seq<Reply>, i: nat, rid: RecordId) {
    i < |q| == |a| && q[i].Put? && a[i] == Stored(rid)
  }

  predicate DroppedBetween(q: seq<Request>, i: nat, j: nat, rid: RecordId)
    requires j <= |q|
  {
    exists k :: i < k < j && q[k] == Drop(rid)
  }

  /** Asking to remove an id between its insertion and now is what makes it gone, however often one asks. */
  lemma DropIsRemoval(states: seq<Store>, q: seq<Request>, a: seq<Reply>, i: nat, j: nat, rid: RecordId)
    requires Conversation(states, q, a) && Given(q, a, i, rid) && i < j <= |q|
    ensures RemovedBetween(Effects(q, a), i + 1, j, rid) <==> DroppedBetween(q, i, j, rid)
  {
    hide Issued, Lookup, Step;
    var ops := Effects(q, a);
    if RemovedBetween(ops, i + 1, j, rid) {
      var k :| i + 1 <= k < j && ops[k] == OpRemove(rid);
      assert Effect(q[k], a[k]) == ops[k];
      assert q[k] == Drop(rid);
    }
    if DroppedBetween(q, i, j, rid) {
      var k :| i < k < j && q[k] == Drop(rid);
      assert Effect(q[k], a[k]) == ops[k];
      assert ops[i] == OpInsert(rid, q[i].body);
      StaysUntilRemoved(states, ops, i, k);
      assert Answers(states[k], q[k], a[k]);
    }
  }

  /** An id gives back what was inserted under it until someone asks to remove it, and nothing from then on, whatever
      else is inserted, removed, compacted or reloaded in between. */
  lemma ReadsBack(q: seq<Request>, a: seq<Reply>, i: nat, j: nat, rid: RecordId)
    requires Served(q, a) && Given(q, a, i, rid) && i < j < |q| && q[j] == Get(rid)
    ensures a[j] == if DroppedBetween(q, i, j, rid) then Missing else Found(q[i].body)
  {
    hide Issued, Lookup, Step;
    var states :| Conversation(states, q, a);
    var ops := Effects(q, a);
    assert ops[i] == OpInsert(rid, q[i].body);
    StaysUntilRemoved(states, ops, i, j);
    DropIsRemoval(states, q, a, i, j, rid);
    assert Answers(states[j], q[j], a[j]);
  }

  /** Of all requests to remove an id, exactly the first after its insertion succeeds. */
  lemma DropsOnce(q: seq<Request>, a: seq<Reply>, i: nat, j: nat, rid: RecordId)
    requires Served(q, a) && Given(q, a, i, rid) && i < j < |q| && q[j] == Drop(rid)
    ensures a[j] == if DroppedBetween(q, i, j, rid) then Missing else Dropped
  {
    hide Issued, Lookup, Step;
    var states :| Conversation(states, q, a);
    var ops := Effects(q, a);
    assert ops[i] == OpInsert(rid, q[i].body);
    StaysUntilRemoved(states, ops, i, j);
    DropIsRemoval(states, q, a, i, j, rid);
    assert Answers(states[j], q[j], a[j]);
  }

  /** No two inserts get the same id. */
  lemma IdsDiffer(q: seq<Request>, a: seq<Reply>, i: nat, j: nat, rid: RecordId, rid': RecordId)
    requires Served(q, a) && Given(q, a, i, rid) && Given(q, a, j, rid') && i < j
    ensures rid != rid'
  {
    hide Step;
    var states :| Conversation(states, q, a);
    var ops := Effects(q, a);
    assert ops[i] == OpInsert(rid, q[i].body) && ops[j] == OpInsert(rid', q[j].body);
    NeverReissued(states, ops, i, j);
  }

  /** An id that was not given out is not found. */
  lemma NotGiven(q: seq<Request>, a: seq<Reply>, j: nat, rid: RecordId)
    requires Served(q, a) && j < |q| && q[j] == Get(rid)
    requires forall i :: 0 <= i < j ==> !Given(q, a, i, rid)
    ensures a[j] == Missing
  {
    hide Issued, Lookup, Step;
    var states :| Conversation(states, q, a);
    var ops := Effects(q, a);
    forall i | 0 <= i < j && ops[i].OpInsert? ensures ops[i].rid != rid {
      assert Effect(q[i], a[i]) == ops[i];
      assert !Given(q, a, i, rid);
    }
    NothingElse(states, ops, j, rid);
    assert Answers(states[j], q[j], a[j]);
  }
}
