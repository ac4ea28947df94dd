/** BSONObjIterator, and reading a whole document with it. */
module BsonIterator {
  import opened Bytes
  import opened Document
  import opened BsonFormat
  import opened BsonWalk
  import opened BsonRoundTrip
  import opened BsonBuilder
  import BsonGrammar

  /** A BSONElement: its type, its name, and where its value lies. */
  datatype Element = Element(code: byte, name: seq<byte>, at: nat, n: nat) {
    predicate Eoo() { code == 0 }
  }

  class BSONObjIterator {
    const memory: seq<byte>
    var pos: nat
    const theend: int

    constructor (memory: seq<byte>, at: nat)
      requires at + 4 <= |memory|
      ensures this.memory == memory
      ensures S32(memory, at) != 0 ==> pos == at + 4 && theend == at + S32(memory, at) - 1
      ensures S32(memory, at) == 0 ==> pos == 0 && theend == 0
    {
      var sz := S32(memory, at);
      this.memory := memory;
      pos := if sz == 0 then 0 else at + 4;
      theend := if sz == 0 then 0 else at + sz - 1;
    }

    /** The element at the position, after which the position is behind it. None where the iterator asserts, where the
        type is unknown, and where the element does not lie in the memory. */
    method Next() returns (e: Option<Element>)
      modifies this
      ensures e.Some? <==> InReach(memory, old(pos), theend) && (memory[old(pos)] == 0 || HasElement(memory, old(pos)))
      ensures e.Some? && memory[old(pos)] == 0 ==> e.value.Eoo() && pos == e.value.at == old(pos) + 1
      ensures e.Some? && memory[old(pos)] != 0 ==> IsElement(memory, old(pos), e.value) && pos == e.value.at + e.value.n
    {
      hide PayloadSize, StrLen, HasElement;
      if theend < pos || |memory| <= pos {
        return None;
      }
      ElementThere(memory, pos);
      var code := memory[pos];
      if code == 0 {
        e := Some(Element(0, [], pos + 1, 0));
        pos := pos + 1;
        return;
      }
      var len := StrLen(memory, pos + 1);
      if len.None? {
        return None;
      }
      var at := pos + 1 + len.value + 1;
      var n := PayloadSize(memory, code, at);
      if n.None? || n.value < 0 || |memory| < at + n.value {
        return None;
      }
      e := Some(Element(code, memory[pos + 1..pos + 1 + len.value], at, n.value));
      pos := at + n.value;
    }
  }

  predicate InReach(b: seq<byte>, pos: nat, theend: int) { pos <= theend && pos < |b| }

  ghost predicate HasElement(b: seq<byte>, pos: nat) {
    exists e :: IsElement(b, pos, e)
  }

  /** `e` is the element at `pos`. */
  ghost predicate IsElement(b: seq<byte>, pos: nat, e: Element) {
    && pos < |b| && b[pos] == e.code && e.code != 0
    && StrLen(b, pos + 1) == Some(|e.name|)
    && e.name == b[pos + 1..pos + 1 + |e.name|]
    && e.at == pos + 1 + |e.name| + 1
    && e.at + e.n <= |b| && PayloadSize(b, e.code, e.at) == Some(e.n)
  }

  lemma WalkElement(b: seq<byte>, pos: nat, theend: int, e: Element)
    requires IsElement(b, pos, e) && pos <= theend
    ensures WalkFrom(b, pos, theend) == Prepend(e.name, ValueAt(b, e.code, e.at, e.n), WalkFrom(b, e.at + e.n, theend))
  {
    hide PayloadSize, ValueAt;
  }

  /** The walk gives up where there is neither an element nor an end marker. */
  lemma NothingThere(b: seq<byte>, pos: nat, theend: int)
    requires InReach(b, pos, theend) ==> b[pos] != 0 && !HasElement(b, pos)
    ensures WalkFrom(b, pos, theend).None?
  {
    hide PayloadSize, ValueAt, HasElement, StrLen;
    if InReach(b, pos, theend) {
      ElementThere(b, pos);
    }
  }

  predicate Delimited(b: seq<byte>, pos: nat)
    requires pos < |b|
  {
    b[pos] != 0 && StrLen(b, pos + 1).Some? &&
    var at := pos + 1 + StrLen(b, pos + 1).value + 1;
    var n := PayloadSize(b, b[pos], at);
    n.Some? && 0 <= n.value && at + n.value <= |b|
  }

  /** There is an element where there is a name, and a size that lies in the memory. */
  lemma ElementThere(b: seq<byte>, pos: nat)
    requires pos < |b|
    ensures HasElement(b, pos) <==> Delimited(b, pos)
  {
    hide PayloadSize, StrLen;
    if Delimited(b, pos) {
      var len := StrLen(b, pos + 1).value;
      var at := pos + 1 + len + 1;
      assert IsElement(b, pos, Element(b[pos], b[pos + 1..pos + 1 + len], at, PayloadSize(b, b[pos], at).value));
    }
    forall e | IsElement(b, pos, e) ensures Delimited(b, pos) {
    }
  }

  function Prepend(name: seq<byte>, v: Option<Value>, rest: Option<Doc>): Option<Doc> {
    if v.Some? && rest.Some? then Some([Field(name, v.value)] + rest.value) else None
  }

  function Behind(front: Doc, rest: Option<Doc>): Option<Doc> {
    if rest.Some? then Some(front + rest.value) else None
  }

  /** Read the object at `at` with an iterator, and what it embeds with further iterators. */
  method ReadDoc(b: seq<byte>, at: nat) returns (d: Option<Doc>)
    ensures d == WalkDoc(b, at)
    decreases |b| - at, 1
  {
    hide PayloadSize, ValueAt, S32, StrLen, WalkFrom;
    if |b| < at + 4 || S32(b, at) < 5 || LIMIT < S32(b, at) {
      return None;
    }
    var it := new BSONObjIterator(b, at);
    var fields: Doc := [];
    NothingBefore(WalkFrom(b, it.pos, it.theend));
    while true
      invariant it.memory == b && at + 4 <= it.pos && it.theend == at + S32(b, at) - 1
      invariant WalkDoc(b, at) == Behind(fields, WalkFrom(b, it.pos, it.theend))
      decreases |b| - it.pos
    {
      ghost var pos := it.pos;
      var e := it.Next();
      if e.None? {
        NothingThere(b, pos, it.theend);
        return None;
      }
      if e.value.Eoo() {
        EndOfObject(b, pos, it.theend);
        assert fields + [] == fields;
        return Some(fields);
      }
      WalkElement(b, pos, it.theend, e.value);
      var v := ReadValue(b, e.value.code, e.value.at, e.value.n);
      if v.None? {
        return None;
      }
      ghost var rest := WalkFrom(b, it.pos, it.theend);
      var f := Field(e.value.name, v.value);
      assert rest.Some? ==> fields + ([f] + rest.value) == (fields + [f]) + rest.value;
      fields := fields + [f];
    }
  }

  lemma NothingBefore(rest: Option<Doc>)
    ensures Behind([], rest) == rest
  {
    if rest.Some? {
      assert [] + rest.value == rest.value;
    }
  }

  lemma EndOfObject(b: seq<byte>, pos: nat, theend: int)
    requires pos < |b| && pos <= theend && b[pos] == 0
    ensures WalkFrom(b, pos, theend) == Some([])
  {
  }

  method ReadValue(b: seq<byte>, code: byte, at: nat, n: nat) returns (v: Option<Value>)
    requires at + n <= |b| && PayloadSize(b, code, at) == Some(n)
    ensures v == ValueAt(b, code, at, n)
    decreases |b| - at, 2
  {
    hide PayloadSize, S32, WalkDoc, ScalarAt;
    if code == 3 || code == 4 {
      var d := ReadDoc(b, at);
      v := if d.None? then None else if code == 3 then Some(Object(d.value)) else Some(Array(d.value));
    } else if code == 15 {
      if n < 8 {
        return None;
      }
      var s := StringAt(b, at + 4);
      if s.None? {
        return None;
      }
      ScopePlace(b, at);
      var d := ReadDoc(b, at + 8 + S32(b, at + 4));
      v := if d.None? then None else Some(CodeWScope(s.value, d.value));
    } else {
      v := ScalarAt(b, code, at, n);
    }
  }

  /** Build `d` and read it back. Building fails exactly above the size limit of a BSONObj. Otherwise the bytes are those that
      the grammar has for `d`, and the reader gets `d` exactly when its names and regular expressions hold no zero byte. */
  method BuildAndRead(d: Doc) returns (bytes: Option<seq<byte>>, r: Option<Doc>)
    requires DocInRange(d) && |EncodeDoc(d)| + 4 < TWO31
    ensures bytes.Some? <==> |EncodeDoc(d)| <= LIMIT
    ensures bytes.Some? ==> BsonGrammar.IsDocument(bytes.value, d) && (r == Some(d) <==> DocClean(d))
  {
    hide EncodeDoc, WalkDoc, DocClean, DocInRange, BsonGrammar.IsDocument;
    var builder := new BSONObjBuilder(512);
    var at := builder.Build(d);
    if builder.b.thrown {
      return None, None;
    }
    bytes := Some(builder.b.data[at..builder.b.l]);
    assert bytes.value == builder.b.Contents()[at..] == EncodeDoc(d);
    BsonGrammar.DocumentIff(bytes.value, d);
    RoundTripIff(d);
    r := ReadDoc(bytes.value, 0);
  }
}
