/** dotted2nested, and its round trip with nested2dotted. */
module DottedNested {
  import opened Bytes
  import opened Document
  import opened BsonFormat
  import opened BsonWalk
  import BsonRoundTrip
  import opened BsonBuilder
  import opened BsonIterator
  import opened Compare
  import opened DottedDocs
  import opened EmbeddedStack
  import opened EmbeddedBuilder

  /** The builders after all of `m`, in its order. None if a name is that of an open builder. */
  function Built(b: Doc, m: Doc): (s: Option<seq<Level>>)
    ensures s.Some? ==> s.value != []
    decreases |m|
  {
    if m == [] then Some([Level([], b)])
    else match Built(b, m[..|m| - 1])
      case None => None
      case Some(s) => if Throws(s, Target(m[|m| - 1])) then None else Some(Added(s, m[|m| - 1]))
  }

  // ---------------------------------------------------------------- what the builders stand for

  /** Builders are opened for components: no dots, and never empty. */
  predicate StackOk(s: seq<Level>) {
    forall i :: 0 < i < |s| ==> s[i].name != [] && DOT !in s[i].name
  }

  /** The dotted path to the top builder. */
  function Path(s: seq<Level>): seq<byte>
    requires s != []
    decreases |s|
  {
    if |s| == 1 then [] else s[1].name + [DOT] + Path(s[1..])
  }

  lemma {:induction false} FirstDotAt(c: seq<byte>, r: seq<byte>)
    requires DOT !in c
    ensures FirstDot(c + [DOT] + r) == |c|
    ensures FirstDot(c) == |c|
    decreases |c|
  {
    var n := c + [DOT] + r;
    if c == [] {
      assert n[0] == DOT;
    } else {
      assert n[1..] == c[1..] + [DOT] + r && n[0] == c[0];
      FirstDotAt(c[1..], r);
    }
  }

  lemma {:induction false} OpenPathOk(l: Level, n: seq<byte>)
    ensures StackOk(OpenPath(l, n).stack)
    ensures Path(OpenPath(l, n).stack) + OpenPath(l, n).rest == Stripped(n)
    decreases |n|
  {
    hide StackOk, Path, FirstDot, OpenPath, Stripped;
    var k := FirstDot(n);
    OneOk(l);
    OnePath(l);
    FirstOpened(l, n);
    if 0 < k < |n| {
      var inner := OpenPath(Level(n[..k], []), n[k + 1..]);
      OpenPathOk(Level(n[..k], []), n[k + 1..]);
      OntoOk(l, inner.stack);
      assert n[..k] + [DOT] + Path(inner.stack) + inner.rest == n[..k] + [DOT] + (Path(inner.stack) + inner.rest);
    }
  }

  lemma FirstOpened(l: Level, n: seq<byte>)
    ensures var k := FirstDot(n);
      if k == |n| then OpenPath(l, n) == Prepared([l], n) && Stripped(n) == n
      else if k == 0 then OpenPath(l, n) == Prepared([l], n[1..]) && Stripped(n) == n[1..]
      else
        var p := OpenPath(Level(n[..k], []), n[k + 1..]);
        && OpenPath(l, n) == Prepared([l] + p.stack, p.rest) && p.stack[0].name == n[..k]
        && Stripped(n) == n[..k] + [DOT] + Stripped(n[k + 1..])
  {
  }

  lemma OntoOk(l: Level, t: seq<Level>)
    requires t != [] && StackOk(t) && t[0].name != [] && DOT !in t[0].name
    ensures StackOk([l] + t) && Path([l] + t) == t[0].name + [DOT] + Path(t)
  {
    var s := [l] + t;
    assert s[1..] == t;
    forall i | 0 < i < |s| ensures s[i].name != [] && DOT !in s[i].name {
      assert s[i] == t[i - 1];
    }
  }

  lemma {:induction false} PrepareOk(s: seq<Level>, n: seq<byte>)
    requires s != [] && StackOk(s) && !Throws(s, n)
    ensures StackOk(Prepare(s, n).stack)
    ensures Path(Prepare(s, n).stack) + Prepare(s, n).rest == Stripped(n)
    decreases |s|
  {
    hide OpenPath, Whole;
    if |s| > 1 && InContext(s[1].name, n) {
      var c, r := s[1].name, n[|s[1].name| + 1..];
      assert n == c + [DOT] + r;
      FirstDotAt(c, r);
      assert StackOk(s[1..]);
      PrepareOk(s[1..], r);
      var inner := Prepare(s[1..], r);
      assert (s[..1] + inner.stack)[1..] == inner.stack;
    } else {
      OpenPathOk(Level(s[0].name, Whole(s)), n);
    }
  }

  /** Opening builders adds nothing to the dotted form. */
  lemma {:induction false} OpenPathFlat(l: Level, n: seq<byte>, base: seq<byte>)
    ensures Flatten(Whole(OpenPath(l, n).stack), base) == Flatten(l.fields, base)
    decreases |n|
  {
    hide Flatten, FlattenField;
    var k := FirstDot(n);
    if 0 < k < |n| {
      var inner := OpenPath(Level(n[..k], []), n[k + 1..]);
      OpenPathFlat(Level(n[..k], []), n[k + 1..], base + n[..k] + [DOT]);
      WholeFlat([l] + inner.stack, base);
      NothingFlattened(base + n[..k] + [DOT]);
      assert ([l] + inner.stack)[1..] == inner.stack;
      assert Flatten(l.fields, base) + [] == Flatten(l.fields, base);
    }
  }

  lemma WholeFlat(s: seq<Level>, base: seq<byte>)
    requires 1 < |s|
    ensures Flatten(Whole(s), base) == Flatten(s[0].fields, base) + Flatten(Whole(s[1..]), base + s[1].name + [DOT])
  {
    hide Flatten;
    var f := Field(s[1].name, Object(Whole(s[1..])));
    FlattenAppend(s[0].fields, [f], base);
    FlattenOne(f, base);
  }

  lemma {:induction false} PrepareFlat(s: seq<Level>, n: seq<byte>, base: seq<byte>)
    requires s != [] && !Throws(s, n)
    ensures Flatten(Whole(Prepare(s, n).stack), base) == Flatten(Whole(s), base)
    decreases |s|
  {
    hide Flatten, OpenPath, Whole;
    if |s| > 1 && InContext(s[1].name, n) {
      var inner := Prepare(s[1..], n[|s[1].name| + 1..]);
      PrepareFlat(s[1..], n[|s[1].name| + 1..], base + s[1].name + [DOT]);
      WholeFlat(s[..1] + inner.stack, base);
      WholeFlat(s, base);
      assert (s[..1] + inner.stack)[1..] == inner.stack;
    } else {
      OpenPathFlat(Level(s[0].name, Whole(s)), n, base);
    }
  }

  /** Appending to the top builder adds to the end of the dotted form, under its path. */
  lemma {:induction false} AppendFlat(s: seq<Level>, f: Field, base: seq<byte>)
    requires s != []
    ensures Flatten(Whole(AppendTo(s, f)), base) == Flatten(Whole(s), base) + Flatten([Field(Path(s) + f.name, f.value)], base)
    decreases |s|
  {
    hide Flatten;
    var r := AppendTo(s, f);
    if |s| == 1 {
      FlattenAppend(s[0].fields, [f], base);
      assert Path(s) + f.name == f.name;
    } else {
      assert r[1..] == AppendTo(s[1..], f) && r[0] == s[0] && r[1].name == s[1].name;
      AppendFlat(s[1..], f, base + s[1].name + [DOT]);
      WholeFlat(s, base);
      WholeFlat(r, base);
      FlattenRebase(Field(Path(s[1..]) + f.name, f.value), s[1].name + [DOT], base);
      assert base + (s[1].name + [DOT]) == base + s[1].name + [DOT];
      assert s[1].name + [DOT] + (Path(s[1..]) + f.name) == Path(s) + f.name;
    }
  }

  lemma FlattenRebase(f: Field, p: seq<byte>, base: seq<byte>)
    ensures Flatten([f], base + p) == Flatten([Field(p + f.name, f.value)], base)
  {
    hide Flatten;
    var g := Field(p + f.name, f.value);
    FlattenOne(f, base + p);
    FlattenOne(g, base);
    assert base + p + f.name == base + (p + f.name);
    assert base + p + f.name + [DOT] == base + (p + f.name) + [DOT];
  }

  /** The names as splitDot() takes them. */
  function Renamed(m: Doc): Doc {
    seq(|m|, i requires 0 <= i < |m| => Field(Stripped(m[i].name), m[i].value))
  }

  lemma AddedFlat(s: seq<Level>, f: Field)
    requires s != [] && StackOk(s) && !Throws(s, Target(f))
    ensures StackOk(Added(s, f))
    ensures Flatten(Whole(Added(s, f)), []) == Flatten(Whole(s), []) + Flatten([Field(Stripped(f.name), f.value)], [])
  {
    hide Flatten, Prepare, Throws, Whole, Stripped, Path;
    var n := Target(f);
    PrepareOk(s, n);
    PrepareFlat(s, n, []);
    if f.value == Object([]) {
      FlattenOne(Field(Stripped(f.name), f.value), []);
      NothingFlattened([] + Stripped(f.name) + [DOT]);
    } else {
      AppendFlat(Prepare(s, n).stack, Field(Prepare(s, n).rest, f.value), []);
    }
  }

  /** nested2dotted undoes dotted2nested up to the names: for all documents, objects among the values or not. */
  lemma {:induction false} BuiltFlat(b: Doc, m: Doc)
    requires Built(b, m).Some?
    ensures StackOk(Built(b, m).value)
    ensures Flatten(Whole(Built(b, m).value), []) == Flatten(b + Renamed(m), [])
    decreases |m|
  {
    hide Flatten, Added, Throws, Stripped, StackOk;
    if m == [] {
      OneOk(Level([], b));
      assert b + Renamed(m) == b;
    } else {
      var init, f := m[..|m| - 1], m[|m| - 1];
      var g := Field(Stripped(f.name), f.value);
      BuiltFlat(b, init);
      AddedFlat(Built(b, init).value, f);
      assert b + Renamed(m) == (b + Renamed(init)) + [g];
      FlattenAppend(b + Renamed(init), [g], []);
    }
  }

  lemma OneOk(l: Level)
    ensures StackOk([l])
  {
  }

  // ---------------------------------------------------------------- names in ascending order never throw

  lemma {:induction false} PrefixLexi(a: seq<byte>, b: seq<byte>)
    requires a <= b
    ensures Lexi(a, b) <= 0
  {
    if a != [] {
      PrefixLexi(a[1..], b[1..]);
    }
  }

  lemma {:induction false} OpenPathPrefix(l: Level, n: seq<byte>)
    ensures Path(OpenPath(l, n).stack) <= n
    decreases |n|
  {
    var k := FirstDot(n);
    if 0 < k < |n| {
      var inner := OpenPath(Level(n[..k], []), n[k + 1..]);
      OpenPathPrefix(Level(n[..k], []), n[k + 1..]);
      assert ([l] + inner.stack)[1..] == inner.stack;
      assert n == n[..k] + [DOT] + n[k + 1..];
    }
  }

  /** The builders that are open for a name lie on its path. */
  lemma {:induction false} PreparePrefix(s: seq<Level>, n: seq<byte>)
    requires s != [] && !Throws(s, n)
    ensures Path(Prepare(s, n).stack) <= n
    decreases |s|
  {
    hide OpenPath, Whole;
    if |s| > 1 && InContext(s[1].name, n) {
      var c, r := s[1].name, n[|s[1].name| + 1..];
      PreparePrefix(s[1..], r);
      var inner := Prepare(s[1..], r);
      assert (s[..1] + inner.stack)[1..] == inner.stack;
      assert n == c + [DOT] + r;
    } else {
      OpenPathPrefix(Level(s[0].name, Whole(s)), n);
    }
  }

  lemma {:induction false} AppendPath(s: seq<Level>, f: Field)
    requires s != []
    ensures Path(AppendTo(s, f)) == Path(s)
    decreases |s|
  {
    if |s| > 1 {
      assert AppendTo(s, f)[1..] == AppendTo(s[1..], f);
      AppendPath(s[1..], f);
    }
  }

  lemma AddedPrefix(s: seq<Level>, f: Field)
    requires s != [] && !Throws(s, Target(f))
    ensures Path(Added(s, f)) <= Target(f)
  {
    hide Path, Prepare;
    PreparePrefix(s, Target(f));
    if f.value != Object([]) {
      AppendPath(Prepare(s, Target(f)).stack, Field(Prepare(s, Target(f)).rest, f.value));
    }
  }

  lemma {:induction false} ThrowsPath(s: seq<Level>, n: seq<byte>)
    requires s != [] && Throws(s, n)
    ensures n + [DOT] <= Path(s)
    decreases |s|
  {
    if |s[1].name| < |n| {
      ThrowsPath(s[1..], n[|s[1].name| + 1..]);
      assert n == s[1].name + [DOT] + n[|s[1].name| + 1..];
    }
  }

  /** A name that is not read on falls on an open builder: exactly if it is the dotted path of one. */
  lemma {:induction false} ThrowsIff(s: seq<Level>, n: seq<byte>)
    requires s != [] && StackOk(s)
    ensures Throws(s, n) <==> n + [DOT] <= Path(s)
    decreases |s|
  {
    if Throws(s, n) {
      ThrowsPath(s, n);
    }
    if |s| > 1 && n + [DOT] <= Path(s) {
      var c, p := s[1].name, Path(s[1..]);
      assert StackOk(s[1..]);
      FirstOfPath(c, p, n);
      if |c| < |n| {
        ThrowsIff(s[1..], n[|c| + 1..]);
      }
    }
  }

  lemma FirstOfPath(c: seq<byte>, p: seq<byte>, n: seq<byte>)
    requires DOT !in c && n + [DOT] <= c + [DOT] + p
    ensures InContext(c, n) && (|c| < |n| ==> n[|c| + 1..] + [DOT] <= p)
  {
    var x, y := n + [DOT], c + [DOT] + p;
    assert x == y[..|x|] && x[|n|] == y[|n|] == DOT;
    assert |c| <= |n|;
    assert n[..|c|] == x[..|c|] == y[..|c|] == c;
    if |c| < |n| {
      assert n[|c|] == x[|c|] == y[|c|] == DOT;
      assert x[|c| + 1..] == n[|c| + 1..] + [DOT] && y[|c| + 1..] == p;
      assert x[|c| + 1..] == y[..|x|][|c| + 1..] == p[..|x| - |c| - 1];
    }
  }

  lemma NoDotInFoo(n: seq<byte>, k: nat)
    ensures |n| < k < |n + FOO| ==> (n + FOO)[k] != DOT
  {
  }

  /** A later name is never on the path of an earlier one, however the two are prepared for. */
  lemma NotOnPath(e: Field, f: Field)
    requires Less(e.name, f.name)
    ensures !(Target(f) + [DOT] <= Target(e))
  {
    hide Lexi;
    if Target(f) + [DOT] <= Target(e) {
      var x, y := Target(f) + [DOT], Target(e);
      assert x == y[..|x|];
      LexiSwap(e.name, f.name);
      if |f.name| <= |e.name| {
        assert f.name == x[..|f.name|] && e.name == y[..|e.name|];
        assert f.name <= e.name;
        PrefixLexi(f.name, e.name);
      } else {
        NoDotInFoo(e.name, |f.name|);
      }
    }
  }

  lemma {:induction false} NeverThrows(b: Doc, m: Doc)
    requires Ascending(m)
    ensures Built(b, m).Some?
    ensures m != [] ==> Path(Built(b, m).value) <= Target(m[|m| - 1])
    decreases |m|
  {
    hide Less, Added, Throws, Path;
    if m != [] {
      var init, f := m[..|m| - 1], m[|m| - 1];
      NeverThrows(b, init);
      var s := Built(b, init).value;
      if Throws(s, Target(f)) {
        ThrowsPath(s, Target(f));
        if init == [] {
          OnePath(Level([], b));
        } else {
          NotOnPath(init[|init| - 1], f);
        }
      }
      AddedPrefix(s, f);
    }
  }

  lemma OnePath(l: Level)
    ensures Path([l]) == []
  {
  }

  // ---------------------------------------------------------------- dotted2nested

  /** The fields of the map are fields of the document. */
  lemma {:induction false} MapFields(d: Doc)
    ensures forall i :: 0 <= i < |SortedMap(d)| ==> SortedMap(d)[i] in d
    decreases |d|
  {
    hide MapPut;
    if d != [] {
      var init, f := d[..|d| - 1], d[|d| - 1];
      MapFields(init);
      PutFields(SortedMap(init), f);
      forall i | 0 <= i < |SortedMap(d)| ensures SortedMap(d)[i] in d {
        assert SortedMap(d)[i] == f || SortedMap(d)[i] in SortedMap(init);
      }
    }
  }

  lemma {:induction false} PutFields(m: Doc, f: Field)
    ensures forall i :: 0 <= i < |MapPut(m, f)| ==> MapPut(m, f)[i] == f || MapPut(m, f)[i] in m
    decreases |m|
  {
    hide Less;
    if m != [] {
      PutFields(m[1..], f);
    }
  }

  lemma FieldWithin(d: Doc, f: Field)
    requires f in d
    ensures |EncodeField(f)| <= |EncodeDoc(d)|
  {
    hide EncodeField, EncodeFields, EncodeDoc;
    var i :| 0 <= i < |d| && d[i] == f;
    FieldsGrow(d, i);
    DocLength(d);
  }

  lemma BuiltNone(m: Doc)
    requires m == []
    ensures Built([], m) == Some([Level([], [])])
  {
  }

  lemma BuiltNext(m: Doc, i: nat)
    requires Ascending(m) && i < |m|
    ensures var s := Built([], m[..i]);
      s.Some? && !Throws(s.value, Target(m[i])) && Built([], m[..i + 1]) == Some(Added(s.value, m[i]))
  {
    hide Throws, Added, Target;
    assert m[..i + 1][..i] == m[..i];
    NeverThrows([], m[..i + 1]);
  }

  /** dotted2nested( b, obj ): the elements by name, through the builders, behind what the buffer holds. It throws if an
      object made by it is too long for a BSONObj, and otherwise not up to half the buffer's limit. */
  method Dotted2Nested(nb: BSONObjBuilder, obj: Doc)
    requires nb.b.Valid() && !nb.b.thrown && nb.b.size <= BUFFER_MAX && |EncodeDoc(obj)| <= LIMIT
    modifies nb.b, nb.b.data
    ensures Built([], SortedMap(obj)).Some?
    ensures var r := Whole(Built([], SortedMap(obj)).value); nb.b.Attempted(EncodeFields(r), DocFits(r))
  {
    hide Less, LastValue, Ascending, Built, Added, Throws, Whole, SortedMap, EncodeDoc, EncodeField, EncodeFields, DocFits;
    hide EmbeddedBuilder.Valid;
    var sorted := Bson2Map(obj);
    var eb := new EmbeddedBuilder(nb);
    var i := 0;
    SortedMaps(obj);
    MapFields(obj);
    BuiltNone(sorted[..0]);
    while i < |sorted|
      invariant i <= |sorted| && eb.Valid() && fresh(eb.nested) && (nb.b.data == old(nb.b.data) || fresh(nb.b.data))
      invariant Built([], sorted[..i]) == Some(eb.levels)
    {
      BuiltNext(sorted, i);
      FieldWithin(obj, sorted[i]);
      var onPath := eb.AppendAs(sorted[i]);
      i := i + 1;
    }
    assert sorted[..i] == sorted;
    eb.Done();
  }

  /** dotted2nested( obj ): with a builder of its own, taken with obj(). */
  method ToNested(obj: Doc) returns (bytes: Option<seq<byte>>)
    requires |EncodeDoc(obj)| <= LIMIT
    ensures Built([], SortedMap(obj)).Some?
    ensures var r := Whole(Built([], SortedMap(obj)).value);
      bytes == if |EncodeDoc(r)| <= LIMIT then Some(EncodeDoc(r)) else None
  {
    hide EncodeDoc, EncodeFields, DocFits, Built, SortedMap, Whole;
    var b := new BSONObjBuilder(512);
    ghost var started := b.b.Contents();
    Dotted2Nested(b, obj);
    ghost var r := Whole(Built([], SortedMap(obj)).value);
    PartsFit(r);
    DocLength(r);
    bytes := Taken(b, started, r);
  }

  /** nested2dotted( obj ) */
  method ToDotted(obj: Doc) returns (bytes: Option<seq<byte>>)
    requires |EncodeDoc(obj)| <= LIMIT
    ensures var r := Flatten(obj, []); bytes == if |EncodeDoc(r)| <= LIMIT then Some(EncodeDoc(r)) else None
  {
    hide EncodeDoc, EncodeFields, Flatten;
    var b := new BSONObjBuilder(512);
    ghost var started := b.b.Contents();
    Nested2Dotted(b, obj, []);
    DocLength(Flatten(obj, []));
    bytes := Taken(b, started, Flatten(obj, []));
  }

  /** obj(), of a builder that has the fields of `r`. */
  method Taken(b: BSONObjBuilder, ghost started: seq<byte>, ghost r: Doc) returns (bytes: Option<seq<byte>>)
    requires b.b.Valid() && !b.doneCalled && b.offset == 4 && |started| == 8 && (b.b.thrown || b.b.size <= BUFFER_MAX)
    requires !b.b.thrown ==> b.b.Contents() == started + EncodeFields(r)
    requires |EncodeDoc(r)| <= LIMIT ==> !b.b.thrown
    modifies b, b.b, b.b.data
    ensures bytes == if |EncodeDoc(r)| <= LIMIT then Some(EncodeDoc(r)) else None
  {
    hide EncodeDoc, EncodeFields, I32;
    DocLength(r);
    var at := b.Done();
    if b.b.thrown {
      return None;
    }
    Assembled(started[..4], started, r);
    bytes := Some(b.b.data[4..b.b.l]);
    assert b.b.Contents()[4..] == EncodeDoc(r);
  }

  // ---------------------------------------------------------------- round trip

  ghost predicate GoodNames(m: Doc) {
    forall i :: 0 <= i < |m| ==> GoodName(m[i].name)
  }

  lemma {:induction false} FlatIsFlattened(m: Doc)
    requires Flat(m)
    ensures Flatten(m, []) == m
    decreases |m|
  {
    if m != [] {
      FlatIsFlattened(m[1..]);
      assert [] + m[0].name == m[0].name;
      assert m == [m[0]] + m[1..];
    }
  }

  /** What comes back are the sorted elements exactly when none of them is an object and no name has an empty component
      before its last: a dot at the start, or two in a row, is lost. */
  lemma RoundTripIff(m: Doc, r: Doc)
    requires Built([], m).Some? && r == Whole(Built([], m).value)
    ensures Flatten(r, []) == m <==> Flat(m) && GoodNames(m)
  {
    hide Built, Whole, Stripped, GoodName;
    BuiltFlat([], m);
    assert [] + Renamed(m) == Renamed(m);
    if Flat(m) {
      FlatIsFlattened(Renamed(m));
      forall i | 0 <= i < |m| ensures Renamed(m)[i] == m[i] <==> GoodName(m[i].name) {
        StrippedIff(m[i].name);
      }
      if Renamed(m) == m {
        forall i | 0 <= i < |m| ensures GoodName(m[i].name) {
          assert Renamed(m)[i] == m[i];
        }
      }
    } else {
      FlattenFlat(Renamed(m), []);
    }
  }

  /** A leading dot is lost. */
  lemma LeadingDotLost()
    ensures var m := [Field([DOT, 97], Null)];
      Built([], m).Some? && Flatten(Whole(Built([], m).value), []) != m
  {
    hide Built, Whole, Flatten;
    var m := [Field([DOT, 97], Null)];
    NeverThrows([], m);
    assert FirstDot([DOT, 97]) == 0;
    assert !GoodName(m[0].name);
    RoundTripIff(m, Whole(Built([], m).value));
  }

  // ---------------------------------------------------------------- there and back, on bytes

  /** What a BSONObj can hold, its size aside. */
  ghost predicate Sound(d: Doc) {
    forall i :: 0 <= i < |d| ==> FieldSound(d[i])
  }

  ghost predicate FieldSound(f: Field) { NoNul(f.name) && Clean(f.value) && InRange(f.value) }

  lemma SoundIff(d: Doc)
    ensures Sound(d) <==> DocInRange(d) && DocClean(d)
  {
    hide Clean, InRange;
    if Sound(d) {
      forall i | 0 <= i < |d| ensures InRange(d[i].value) && NoNul(d[i].name) && Clean(d[i].value) {
        assert FieldSound(d[i]);
      }
    }
  }

  lemma SoundMore(d: Doc, f: Field)
    ensures Sound(d + [f]) <==> Sound(d) && FieldSound(f)
  {
    hide FieldSound;
    assert (d + [f])[|d|] == f;
    if Sound(d + [f]) {
      forall i | 0 <= i < |d| ensures FieldSound(d[i]) {
        assert (d + [f])[i] == d[i];
      }
    }
  }

  ghost predicate SoundStack(s: seq<Level>) {
    forall i :: 0 <= i < |s| ==> NoNul(s[i].name) && Sound(s[i].fields)
  }

  lemma {:induction false} WholeSound(s: seq<Level>)
    requires s != [] && SoundStack(s)
    ensures Sound(Whole(s))
    decreases |s|
  {
    hide Sound;
    if |s| > 1 {
      WholeSound(s[1..]);
      SoundIff(Whole(s[1..]));
      SoundMore(s[0].fields, Field(s[1].name, Object(Whole(s[1..]))));
    }
  }

  lemma {:induction false} OpenPathSound(l: Level, n: seq<byte>)
    requires NoNul(l.name) && Sound(l.fields) && NoNul(n)
    ensures SoundStack(OpenPath(l, n).stack) && NoNul(OpenPath(l, n).rest)
    decreases |n|
  {
    hide Sound;
    var k := FirstDot(n);
    if 0 < k < |n| {
      NothingSound();
      OpenPathSound(Level(n[..k], []), n[k + 1..]);
    }
  }

  lemma NothingSound()
    ensures Sound([])
  {
  }

  lemma {:induction false} PrepareSound(s: seq<Level>, n: seq<byte>)
    requires s != [] && !Throws(s, n) && SoundStack(s) && NoNul(n)
    ensures SoundStack(Prepare(s, n).stack) && NoNul(Prepare(s, n).rest)
    decreases |s|
  {
    hide Sound, OpenPath, Whole;
    if |s| > 1 && InContext(s[1].name, n) {
      PrepareSound(s[1..], n[|s[1].name| + 1..]);
    } else {
      WholeSound(s);
      OpenPathSound(Level(s[0].name, Whole(s)), n);
    }
  }

  lemma {:induction false} BuiltSound(m: Doc)
    requires Built([], m).Some? && Sound(m)
    ensures SoundStack(Built([], m).value)
    decreases |m|
  {
    hide Throws, Prepare, FieldSound;
    NothingSound();
    if m != [] {
      var init, f := m[..|m| - 1], m[|m| - 1];
      BuiltSound(init);
      var s := Built([], init).value;
      SoundName(f);
      PrepareSound(s, Target(f));
      if f.value != Object([]) {
        var p := Prepare(s, Target(f));
        RestSound(f, p.rest);
        SoundMore(p.stack[|p.stack| - 1].fields, Field(p.rest, f.value));
      }
    }
  }

  lemma SoundName(f: Field)
    requires FieldSound(f)
    ensures NoNul(Target(f))
  {
  }

  lemma RestSound(f: Field, rest: seq<byte>)
    requires FieldSound(f) && NoNul(rest)
    ensures FieldSound(Field(rest, f.value))
  {
  }

  lemma MapSound(d: Doc)
    requires Sound(d)
    ensures Sound(SortedMap(d))
  {
    hide FieldSound, SortedMap;
    MapFields(d);
    forall i | 0 <= i < |SortedMap(d)| ensures FieldSound(SortedMap(d)[i]) {
      var j :| 0 <= j < |d| && d[j] == SortedMap(d)[i];
    }
  }

  lemma {:induction false} FlattenSound(d: Doc, base: seq<byte>)
    requires Sound(d) && NoNul(base)
    ensures Sound(Flatten(d, base))
    decreases d
  {
    hide Clean, InRange;
    if d != [] {
      assert FieldSound(d[0]);
      FlattenSound(d[1..], base);
      FieldFlattenSound(d[0], base);
      SoundAppend(FlattenField(d[0], base), Flatten(d[1..], base));
    }
  }

  lemma {:induction false} FieldFlattenSound(f: Field, base: seq<byte>)
    requires FieldSound(f) && NoNul(base)
    ensures Sound(FlattenField(f, base))
    decreases f
  {
    hide DocClean, DocInRange;
    if f.value.Object? {
      SoundIff(f.value.doc);
      FlattenSound(f.value.doc, base + f.name + [DOT]);
    }
  }

  lemma SoundAppend(d: Doc, e: Doc)
    requires Sound(d) && Sound(e)
    ensures Sound(d + e)
  {
    hide FieldSound;
  }

  /** Documents that can be read have different bytes if they are different. */
  lemma SameBytes(d: Doc, e: Doc)
    requires Sound(d) && Sound(e) && |EncodeDoc(d)| <= LIMIT
    ensures EncodeDoc(d) == EncodeDoc(e) <==> d == e
  {
    hide WalkDoc, EncodeDoc, Sound;
    SoundIff(d);
    SoundIff(e);
    RoundTrips(d);
    if |EncodeDoc(e)| <= LIMIT {
      RoundTrips(e);
    }
  }

  lemma RoundTrips(d: Doc)
    requires DocInRange(d) && DocClean(d) && |EncodeDoc(d)| <= LIMIT
    ensures WalkDoc(EncodeDoc(d), 0) == Some(d)
  {
    hide WalkDoc, EncodeDoc, DocInRange, DocClean;
    BsonRoundTrip.RoundTripIff(d);
  }

  /** The nested document can be read back from its bytes. */
  lemma NestedReads(d: Doc)
    requires DocInRange(d) && DocClean(d) && Built([], SortedMap(d)).Some?
    ensures Sound(SortedMap(d)) && Sound(Whole(Built([], SortedMap(d)).value))
    ensures var r := Whole(Built([], SortedMap(d)).value);
      |EncodeDoc(r)| <= LIMIT ==> WalkDoc(EncodeDoc(r), 0) == Some(r)
  {
    hide Built, Whole, SortedMap, EncodeDoc, WalkDoc, DocInRange, DocClean, Sound;
    var r := Whole(Built([], SortedMap(d)).value);
    SoundIff(d);
    MapSound(d);
    BuiltSound(SortedMap(d));
    WholeSound(Built([], SortedMap(d)).value);
    SoundIff(r);
    if |EncodeDoc(r)| <= LIMIT {
      RoundTrips(r);
    }
  }

  /** nested2dotted( dotted2nested( d ) ): it throws exactly if the nested or the resulting document is too long for a BSONObj.
      Otherwise the bytes are those of the sorted document, exactly if it has no objects and only good names. */
  method ThereAndBack(d: Doc) returns (bytes: Option<seq<byte>>)
    requires DocInRange(d) && DocClean(d) && |EncodeDoc(d)| <= LIMIT
    ensures Built([], SortedMap(d)).Some?
    ensures var nested := Whole(Built([], SortedMap(d)).value); var back := Flatten(Renamed(SortedMap(d)), []);
      bytes == if |EncodeDoc(nested)| <= LIMIT && |EncodeDoc(back)| <= LIMIT then Some(EncodeDoc(back)) else None
    ensures bytes.Some? ==>
      (bytes.value == EncodeDoc(SortedMap(d)) <==> Flat(SortedMap(d)) && GoodNames(SortedMap(d)))
  {
    hide Built, Whole, Flatten, Renamed, SortedMap, EncodeDoc, WalkDoc, DocInRange, DocClean, Sound, Flat, GoodNames;
    var there := ToNested(d);
    if there.None? {
      return None;
    }
    ghost var m, nested := SortedMap(d), Whole(Built([], SortedMap(d)).value);
    NestedReads(d);
    var read := ReadDoc(there.value, 0);
    bytes := ToDotted(read.value);
    BuiltFlat([], m);
    assert [] + Renamed(m) == Renamed(m);
    RoundTripIff(m, nested);
    FlattenSound(nested, []);
    if bytes.Some? {
      SameBytes(Flatten(nested, []), m);
    }
  }
}
