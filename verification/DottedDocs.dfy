/** Dotted names and nested documents: what the conversions mean. */
module DottedDocs {
  import opened Bytes
  import opened Document
  import opened BsonFormat
  import opened BsonRoundTrip
  import opened BsonBuilder
  import opened Compare

  /** The place of the first dot, or the length. */
  function FirstDot(n: seq<byte>): (k: nat)
    ensures k <= |n| && DOT !in n[..k] && (k < |n| ==> n[k] == DOT)
  {
    if n == [] || n[0] == DOT then 0
    else
      var k := FirstDot(n[1..]);
      assert n[..1 + k] == [n[0]] + n[1..][..k];
      1 + k
  }

  /** nested2dotted: embedded objects become prefixes of names. */
  function Flatten(d: Doc, base: seq<byte>): Doc
    decreases d
  {
    if d == [] then []
    else FlattenField(d[0], base) + Flatten(d[1..], base)
  }

  function FlattenField(f: Field, base: seq<byte>): Doc
    decreases f
  {
    if f.value.Object? then Flatten(f.value.doc, base + f.name + [DOT]) else [Field(base + f.name, f.value)]
  }

  /** The name without its first empty component, unless that is the last: splitDot() takes it for the end of the path. */
  function Stripped(n: seq<byte>): seq<byte>
    decreases |n|
  {
    var k := FirstDot(n);
    if k == |n| then n
    else if k == 0 then n[1..]
    else n[..k] + [DOT] + Stripped(n[k + 1..])
  }

  /** No component but the last is empty. */
  predicate GoodName(n: seq<byte>)
    decreases |n|
  {
    var k := FirstDot(n);
    k == |n| || (k != 0 && GoodName(n[k + 1..]))
  }

  lemma {:induction false} StrippedIff(n: seq<byte>)
    ensures |Stripped(n)| == (if GoodName(n) then |n| else |n| - 1)
    ensures GoodName(n) <==> Stripped(n) == n
    decreases |n|
  {
    var k := FirstDot(n);
    if 0 < k < |n| {
      StrippedIff(n[k + 1..]);
      assert n == n[..k] + [DOT] + n[k + 1..];
    }
  }

  lemma {:induction false} FlattenAppend(d: Doc, e: Doc, base: seq<byte>)
    ensures Flatten(d + e, base) == Flatten(d, base) + Flatten(e, base)
    decreases |d|
  {
    hide FlattenField;
    if d == [] {
      assert d + e == e;
    } else {
      assert (d + e)[0] == d[0] && (d + e)[1..] == d[1..] + e;
      FlattenAppend(d[1..], e, base);
    }
  }

  lemma FlattenOne(f: Field, base: seq<byte>)
    ensures Flatten([f], base) == FlattenField(f, base)
  {
    assert [f][1..] == [];
  }

  predicate Flat(d: Doc) {
    forall i :: 0 <= i < |d| ==> !d[i].value.Object?
  }

  /** What comes out of nested2dotted holds no objects. */
  lemma {:induction false} FlattenFlat(d: Doc, base: seq<byte>)
    ensures Flat(Flatten(d, base))
    decreases d
  {
    if d != [] {
      FlattenFlat(d[1..], base);
      if d[0].value.Object? {
        FlattenFlat(d[0].value.doc, base + d[0].name + [DOT]);
      }
    }
  }

  lemma NothingFlattened(base: seq<byte>)
    ensures Flatten([], base) == []
  {
  }

  /** What an element under a longer name takes, and what is left for an embedded object. */
  lemma ElementRoom(obj: Doc, i: nat, base: seq<byte>)
    requires i < |obj|
    ensures |EncodeField(Field(base + obj[i].name, obj[i].value))| <= |base| + |EncodeDoc(obj)|
    ensures obj[i].value.Object? ==> |base + obj[i].name + [DOT]| + |EncodeDoc(obj[i].value.doc)| <= |base| + |EncodeDoc(obj)|
  {
    hide EncodeFields, EncodeDoc, Payload, EncodeField;
    DocLength(obj);
    FieldsGrow(obj, i);
    RenamedLength(obj[i], base);
  }

  lemma RenamedLength(f: Field, base: seq<byte>)
    ensures |EncodeField(Field(base + f.name, f.value))| == |base| + |EncodeField(f)|
    ensures f.value.Object? ==> |EncodeField(f)| == |f.name| + 2 + |EncodeDoc(f.value.doc)|
  {
    hide EncodeDoc, EncodeFields, I32, I64, Sized;
  }

  /** nested2dotted( b, obj, base ): appends the flattened document to what the buffer holds. */
  method Nested2Dotted(nb: BSONObjBuilder, obj: Doc, base: seq<byte>)
    requires nb.b.Valid() && (nb.b.thrown || nb.b.size <= BUFFER_MAX)
    requires |base| + |EncodeDoc(obj)| <= LIMIT
    modifies nb.b, nb.b.data
    ensures nb.b.Appended(EncodeFields(Flatten(obj, base)))
    decreases obj
  {
    hide Flatten, EncodeField, EncodeFields, EncodeDoc;
    NothingFlattened(base);
    NoFields([]);
    assert !nb.b.thrown ==> nb.b.Contents() + [] == nb.b.Contents();
    var i := 0;
    while i < |obj|
      invariant i <= |obj| && nb.b.Valid()
      invariant nb.b.Appended(EncodeFields(Flatten(obj[..i], base)))
    {
      var e := obj[i];
      ElementRoom(obj, i, base);
      FlattenStep(obj, i, base);
      if e.value.Object? {
        Nested2Dotted(nb, e.value.doc, base + e.name + [DOT]);
      } else {
        nb.AppendAs(e.value, base + e.name);
      }
      if !nb.b.thrown {
        Assoc(old(nb.b.Contents()), EncodeFields(Flatten(obj[..i], base)), EncodeFields(FlattenField(e, base)));
      }
      i := i + 1;
    }
    assert obj[..i] == obj;
  }

  lemma FlattenStep(obj: Doc, i: nat, base: seq<byte>)
    requires i < |obj|
    ensures EncodeFields(Flatten(obj[..i + 1], base)) == EncodeFields(Flatten(obj[..i], base)) + EncodeFields(FlattenField(obj[i], base))
    ensures !obj[i].value.Object? ==>
      EncodeFields(FlattenField(obj[i], base)) == EncodeField(Field(base + obj[i].name, obj[i].value))
  {
    hide Flatten, EncodeField;
    FlattenAppend(obj[..i], [obj[i]], base);
    FlattenOne(obj[i], base);
    assert obj[..i + 1] == obj[..i] + [obj[i]];
    EncodeAppend(Flatten(obj[..i], base), FlattenField(obj[i], base));
    OneField(Field(base + obj[i].name, obj[i].value));
  }

  // ---------------------------------------------------------------- bson2map

  predicate Less(a: seq<byte>, b: seq<byte>) { Lexi(a, b) < 0 }

  ghost predicate Ascending(m: Doc) {
    forall i, j :: 0 <= i < j < |m| ==> Less(m[i].name, m[j].name)
  }

  /** map::operator[] on a map kept as its sorted elements. */
  function MapPut(m: Doc, f: Field): Doc {
    if m == [] then [f]
    else if m[0].name == f.name then [f] + m[1..]
    else if Less(f.name, m[0].name) then [f] + m
    else [m[0]] + MapPut(m[1..], f)
  }

  /** The value of the last field of that name. */
  function LastValue(d: Doc, n: seq<byte>): Option<Value> {
    if d == [] then None
    else if d[|d| - 1].name == n then Some(d[|d| - 1].value)
    else LastValue(d[..|d| - 1], n)
  }

  lemma LessFacts(a: seq<byte>, b: seq<byte>, c: seq<byte>)
    ensures !Less(a, a)
    ensures a == b || Less(a, b) || Less(b, a)
    ensures Less(a, b) && Less(b, c) ==> Less(a, c)
  {
    hide Lexi;
    LexiChain(a, b, c);
    LexiChain(a, a, a);
    LexiSwap(a, b);
  }

  lemma {:induction false} InFirst(f: Field, m: Doc, n: seq<byte>)
    ensures LastValue([f] + m, n) ==
      if LastValue(m, n).Some? then LastValue(m, n) else if f.name == n then Some(f.value) else None
    decreases |m|
  {
    if m != [] {
      assert ([f] + m)[..|m|] == [f] + m[..|m| - 1];
      InFirst(f, m[..|m| - 1], n);
    } else {
      assert ([f] + m)[..0] == [];
    }
  }

  lemma {:induction false} LastValueIn(m: Doc, n: seq<byte>)
    ensures LastValue(m, n).Some? ==> exists i :: 0 <= i < |m| && m[i].name == n && LastValue(m, n) == Some(m[i].value)
    ensures LastValue(m, n).None? ==> forall i :: 0 <= i < |m| ==> m[i].name != n
    decreases |m|
  {
    if m != [] && m[|m| - 1].name != n {
      LastValueIn(m[..|m| - 1], n);
    }
  }

  lemma {:induction false} MapPutAscending(m: Doc, f: Field)
    requires Ascending(m)
    ensures Ascending(MapPut(m, f))
    ensures forall n :: (forall i :: 0 <= i < |m| ==> Less(n, m[i].name)) && Less(n, f.name) ==>
        forall i :: 0 <= i < |MapPut(m, f)| ==> Less(n, MapPut(m, f)[i].name)
  {
    hide Less;
    if m != [] && m[0].name != f.name && !Less(f.name, m[0].name) {
      LessFacts(m[0].name, f.name, []);
      MapPutAscending(m[1..], f);
    } else if m != [] && Less(f.name, m[0].name) {
      forall i | 0 <= i < |m| ensures Less(f.name, m[i].name) {
        LessFacts(f.name, m[0].name, m[i].name);
      }
    }
  }

  lemma {:induction false} MapPutValue(m: Doc, f: Field, n: seq<byte>)
    requires Ascending(m)
    ensures LastValue(MapPut(m, f), n) == if n == f.name then Some(f.value) else LastValue(m, n)
  {
    hide Less;
    if m == [] {
      InFirst(f, [], n);
      assert [f] == [f] + [];
    } else {
      assert m == [m[0]] + m[1..];
      InFirst(m[0], m[1..], n);
      if m[0].name == f.name {
        InFirst(f, m[1..], n);
        Absent(m[1..], f.name, m[0].name);
      } else if Less(f.name, m[0].name) {
        InFirst(f, m, n);
        forall i | 0 <= i < |m| ensures Less(f.name, m[i].name) {
          LessFacts(f.name, m[0].name, m[i].name);
        }
        Absent(m, f.name, f.name);
      } else {
        MapPutValue(m[1..], f, n);
        InFirst(m[0], MapPut(m[1..], f), n);
        MapPutValue(m[1..], f, m[0].name);
        Absent(m[1..], m[0].name, m[0].name);
      }
    }
  }

  lemma Absent(m: Doc, n: seq<byte>, low: seq<byte>)
    requires n == low && forall i :: 0 <= i < |m| ==> Less(low, m[i].name)
    ensures LastValue(m, n).None?
  {
    hide Less;
    LastValueIn(m, n);
    forall i | 0 <= i < |m| ensures m[i].name != n {
      LessFacts(n, n, n);
    }
  }

  function SortedMap(d: Doc): Doc {
    if d == [] then [] else MapPut(SortedMap(d[..|d| - 1]), d[|d| - 1])
  }

  /** In ascending byte order of names, the last field of each name. */
  lemma {:induction false} SortedMaps(d: Doc)
    ensures Ascending(SortedMap(d))
    ensures forall n :: LastValue(SortedMap(d), n) == LastValue(d, n)
    decreases |d|
  {
    hide Ascending, Less, MapPut;
    if d == [] {
      EmptyAscending();
    } else {
      var m, f := SortedMap(d[..|d| - 1]), d[|d| - 1];
      SortedMaps(d[..|d| - 1]);
      MapPutAscending(m, f);
      forall n ensures LastValue(MapPut(m, f), n) == LastValue(d, n) {
        MapPutValue(m, f, n);
      }
    }
  }

  /** bson2map */
  method Bson2Map(d: Doc) returns (m: Doc)
    ensures m == SortedMap(d)
  {
    hide MapPut;
    m := [];
    var i := 0;
    while i < |d|
      invariant i <= |d| && m == SortedMap(d[..i])
    {
      assert d[..i + 1][..i] == d[..i];
      m := MapPut(m, d[i]);
      i := i + 1;
    }
    assert d[..i] == d;
  }

  lemma EmptyAscending()
    ensures Ascending([])
  {
  }

  /** The map is determined by the document. */
  lemma {:induction false} MapUnique(m: Doc, k: Doc)
    requires Ascending(m) && Ascending(k) && forall n :: LastValue(m, n) == LastValue(k, n)
    ensures m == k
    decreases |m|
  {
    hide Less;
    if m == [] {
      if k != [] {
        LastValueIn(k, k[0].name);
      }
    } else {
      LastValueIn(m, m[0].name);
      LastValueIn(k, m[0].name);
      assert LastValue(k, m[0].name).Some?;
      SameHead(m, k);
      forall n ensures LastValue(m[1..], n) == LastValue(k[1..], n) {
        TailValue(m, n);
        TailValue(k, n);
      }
      MapUnique(m[1..], k[1..]);
      TailValue(m, m[0].name);
      TailValue(k, k[0].name);
      assert m == [m[0]] + m[1..] && k == [k[0]] + k[1..];
    }
  }

  lemma SameHead(m: Doc, k: Doc)
    requires m != [] && k != [] && Ascending(m) && Ascending(k) && forall n :: LastValue(m, n) == LastValue(k, n)
    ensures m[0].name == k[0].name
  {
    hide Less;
    LastValueIn(m, m[0].name);
    LastValueIn(k, m[0].name);
    LastValueIn(m, k[0].name);
    LastValueIn(k, k[0].name);
    assert LastValue(m, m[0].name) == LastValue(k, m[0].name);
    assert LastValue(m, k[0].name) == LastValue(k, k[0].name);
    LessFacts(m[0].name, k[0].name, m[0].name);
    LessFacts(m[0].name, k[0].name, k[0].name);
  }

  lemma TailValue(m: Doc, n: seq<byte>)
    requires m != [] && Ascending(m)
    ensures LastValue(m[1..], n) == if n == m[0].name then None else LastValue(m, n)
    ensures LastValue(m, m[0].name) == Some(m[0].value)
  {
    hide Less;
    assert m == [m[0]] + m[1..];
    InFirst(m[0], m[1..], n);
    InFirst(m[0], m[1..], m[0].name);
    Absent(m[1..], m[0].name, m[0].name);
  }
}
