/** The shape of what dotted2nested builds. */
module DottedShape {
  import opened Bytes
  import opened Document
  import opened Compare
  import opened DottedDocs
  import opened EmbeddedStack
  import opened DottedNested

  /** Embedded objects side by side have different names. */
  ghost predicate Distinct(d: Doc)
    decreases d
  {
    && (forall i, j :: 0 <= i < j < |d| && d[i].value.Object? && d[j].value.Object? ==> d[i].name != d[j].name)
    && forall i :: 0 <= i < |d| && d[i].value.Object? ==> Distinct(d[i].value.doc)
  }

  /** `n` comes behind all names that start with `p`. */
  predicate Beyond(p: seq<byte>, n: seq<byte>) {
    Less(p, n) && !(p <= n)
  }

  /** Names with a common start are contiguous in the order. */
  lemma {:induction false} Between(p: seq<byte>, a: seq<byte>, b: seq<byte>)
    requires p <= b && Less(p, a) && Less(a, b)
    ensures p <= a
    decreases |p|
  {
    if p != [] {
      Between(p[1..], a[1..], b[1..]);
    }
  }

  lemma BeyondLater(p: seq<byte>, a: seq<byte>, b: seq<byte>)
    requires Beyond(p, a) && Less(a, b)
    ensures Beyond(p, b)
  {
    hide Less;
    LessFacts(p, a, b);
    if p <= b {
      Between(p, a, b);
    }
  }

  /** A name behind one that starts with `p`, without starting with it. */
  lemma BeyondNext(p: seq<byte>, a: seq<byte>, b: seq<byte>)
    requires p <= a && Less(a, b) && !(p <= b)
    ensures Beyond(p, b)
  {
    PrefixLexi(p, a);
    LexiChain(p, a, b);
  }

  ghost predicate ClosedBeyond(d: Doc, base: seq<byte>, n: seq<byte>) {
    forall i :: 0 <= i < |d| && d[i].value.Object? ==> Beyond(base + d[i].name + [DOT], n)
  }

  /** Where the builders have got to: no closed object will be opened again after `n`. */
  ghost predicate Apart(s: seq<Level>, base: seq<byte>, n: seq<byte>)
    requires s != []
    decreases |s|
  {
    && Distinct(s[0].fields) && ClosedBeyond(s[0].fields, base, n)
    && (|s| > 1 ==> Apart(s[1..], base + s[1].name + [DOT], n))
  }

  lemma {:induction false} ApartLater(s: seq<Level>, base: seq<byte>, a: seq<byte>, b: seq<byte>)
    requires s != [] && Apart(s, base, a) && Less(a, b)
    ensures Apart(s, base, b)
    decreases |s|
  {
    hide Beyond, Less, Distinct;
    forall i | 0 <= i < |s[0].fields| && s[0].fields[i].value.Object?
      ensures Beyond(base + s[0].fields[i].name + [DOT], b)
    {
      BeyondLater(base + s[0].fields[i].name + [DOT], a, b);
    }
    if |s| > 1 {
      ApartLater(s[1..], base + s[1].name + [DOT], a, b);
    }
  }

  lemma DistinctPlus(d: Doc, f: Field)
    requires Distinct(d)
    requires f.value.Object? ==> Distinct(f.value.doc) && forall i :: 0 <= i < |d| && d[i].value.Object? ==> d[i].name != f.name
    ensures Distinct(d + [f])
  {
  }

  /** Closing the builders gives siblings of different names. */
  lemma {:induction false} WholeDistinct(s: seq<Level>, base: seq<byte>, n: seq<byte>)
    requires s != [] && Apart(s, base, n) && base + Path(s) <= n
    ensures Distinct(Whole(s))
    decreases |s|
  {
    hide Less, Distinct;
    if |s| > 1 {
      var p := base + s[1].name + [DOT];
      assert p + Path(s[1..]) == base + Path(s);
      WholeDistinct(s[1..], p, n);
      StartsWith(p, Path(s[1..]), n);
      DistinctPlus(s[0].fields, Field(s[1].name, Object(Whole(s[1..]))));
    }
  }

  lemma StartsWith(p: seq<byte>, q: seq<byte>, n: seq<byte>)
    requires p + q <= n
    ensures p <= n
  {
    assert (p + q)[..|p|] == p;
  }

  lemma {:induction false} OpenPathApart(l: Level, r: seq<byte>, base: seq<byte>, n: seq<byte>)
    requires Distinct(l.fields) && ClosedBeyond(l.fields, base, n)
    ensures Apart(OpenPath(l, r).stack, base, n)
    decreases |r|
  {
    hide Distinct, Beyond;
    var k := FirstDot(r);
    if 0 < k < |r| {
      NoneDistinct();
      OpenPathApart(Level(r[..k], []), r[k + 1..], base + r[..k] + [DOT], n);
      var inner := OpenPath(Level(r[..k], []), r[k + 1..]);
      assert ([l] + inner.stack)[1..] == inner.stack;
    }
  }

  lemma NoneDistinct()
    ensures Distinct([])
  {
  }

  /** Preparing for the next name in the order. */
  lemma {:induction false} PrepareApart(s: seq<Level>, r: seq<byte>, base: seq<byte>, a: seq<byte>, n: seq<byte>)
    requires s != [] && !Throws(s, r) && n == base + r && Less(a, n)
    requires Apart(s, base, a) && base + Path(s) <= a
    ensures Apart(Prepare(s, r).stack, base, n)
    decreases |s|
  {
    hide OpenPath, Whole, Distinct, Beyond, Less;
    if |s| > 1 && InContext(s[1].name, r) {
      var c, rest := s[1].name, r[|s[1].name| + 1..];
      var p := base + c + [DOT];
      assert p + rest == n;
      assert p + Path(s[1..]) == base + Path(s);
      PrepareApart(s[1..], rest, p, a, n);
      var inner := Prepare(s[1..], rest);
      assert (s[..1] + inner.stack)[1..] == inner.stack;
      ApartLater(s, base, a, n);
    } else {
      CloseApart(s, r, base, a, n);
      OpenPathApart(Level(s[0].name, Whole(s)), r, base, n);
    }
  }

  lemma InContextIff(c: seq<byte>, base: seq<byte>, r: seq<byte>)
    ensures base + c + [DOT] <= base + r ==> InContext(c, r)
  {
    var p, n := base + c + [DOT], base + r;
    if p <= n {
      assert p == n[..|p|];
      assert r[..|c|] == p[|base|..|base| + |c|] == c;
      assert r[|c|] == p[|base| + |c|];
    }
  }

  lemma CloseApart(s: seq<Level>, r: seq<byte>, base: seq<byte>, a: seq<byte>, n: seq<byte>)
    requires s != [] && n == base + r && Less(a, n) && (|s| > 1 ==> !InContext(s[1].name, r))
    requires Apart(s, base, a) && base + Path(s) <= a
    ensures Distinct(Whole(s)) && ClosedBeyond(Whole(s), base, n)
  {
    hide Distinct, Beyond, Less;
    WholeDistinct(s, base, a);
    ApartLater(s, base, a, n);
    if |s| > 1 {
      var p := base + s[1].name + [DOT];
      assert p + Path(s[1..]) == base + Path(s);
      StartsWith(p, Path(s[1..]), a);
      InContextIff(s[1].name, base, r);
      BeyondNext(p, a, n);
    }
  }

  lemma {:induction false} AppendApart(s: seq<Level>, f: Field, base: seq<byte>, n: seq<byte>)
    requires s != [] && Apart(s, base, n) && !f.value.Object?
    ensures Apart(AppendTo(s, f), base, n)
    decreases |s|
  {
    hide Distinct, Beyond;
    if |s| == 1 {
      DistinctPlus(s[0].fields, f);
    } else {
      assert AppendTo(s, f)[1..] == AppendTo(s[1..], f) && AppendTo(s, f)[1].name == s[1].name;
      AppendApart(s[1..], f, base + s[1].name + [DOT], n);
    }
  }

  lemma {:induction false} BuiltApart(m: Doc)
    requires Ascending(m) && Flat(m) && m != []
    ensures Built([], m).Some? && Path(Built([], m).value) <= m[|m| - 1].name
    ensures Apart(Built([], m).value, [], m[|m| - 1].name)
    decreases |m|
  {
    hide Less, Throws, Path, Prepare, Apart, Distinct;
    var init, f := m[..|m| - 1], m[|m| - 1];
    NeverThrows([], m);
    NeverThrows([], init);
    var s := Built([], init).value;
    assert [] + f.name == f.name;
    if init == [] {
      StartApart(f.name);
    } else {
      BuiltApart(init);
      assert [] + Path(s) == Path(s);
      PrepareApart(s, f.name, [], init[|init| - 1].name, f.name);
    }
    AppendApart(Prepare(s, f.name).stack, Field(Prepare(s, f.name).rest, f.value), [], f.name);
  }

  lemma StartApart(n: seq<byte>)
    ensures !Throws([Level([], [])], n) && Apart(Prepare([Level([], [])], n).stack, [], n)
  {
    NoneDistinct();
    OpenPathApart(Level([], []), n, [], n);
  }

  /** Each intermediate object is opened exactly once: whatever the names, as long as no value is an object. */
  lemma SiblingsDistinct(m: Doc)
    requires Ascending(m) && Flat(m)
    ensures Built([], m).Some? && Distinct(Whole(Built([], m).value))
  {
    hide Less, Path, Distinct, Added, Throws;
    if m == [] {
      NoneDistinct();
    } else {
      BuiltApart(m);
      var s := Built([], m).value;
      assert [] + Path(s) == Path(s);
      WholeDistinct(s, [], m[|m| - 1].name);
    }
  }

  // ---------------------------------------------------------------- names without dots, no empty objects

  /** Field names hold no dots, and no embedded object is empty. */
  ghost predicate Tidy(d: Doc)
    decreases d
  {
    forall i :: 0 <= i < |d| ==> DOT !in d[i].name && (d[i].value.Object? ==> d[i].value.doc != [] && Tidy(d[i].value.doc))
  }

  ghost predicate TidyStack(s: seq<Level>) {
    StackOk(s) && forall i :: 0 <= i < |s| ==> Tidy(s[i].fields)
  }

  predicate Filled(s: seq<Level>) {
    1 < |s| ==> s[|s| - 1].fields != []
  }

  lemma TidyPlus(d: Doc, f: Field)
    requires Tidy(d) && DOT !in f.name && (f.value.Object? ==> f.value.doc != [] && Tidy(f.value.doc))
    ensures Tidy(d + [f])
  {
  }

  lemma {:induction false} WholeTidy(s: seq<Level>)
    requires s != [] && TidyStack(s) && Filled(s)
    ensures Tidy(Whole(s)) && (Whole(s) == [] ==> |s| == 1)
    decreases |s|
  {
    hide Tidy;
    if |s| > 1 {
      WholeTidy(s[1..]);
      TidyPlus(s[0].fields, Field(s[1].name, Object(Whole(s[1..]))));
    }
  }

  lemma NoneTidy()
    ensures Tidy([])
  {
  }

  lemma {:induction false} OpenPathTidy(l: Level, n: seq<byte>)
    requires Tidy(l.fields)
    ensures TidyStack(OpenPath(l, n).stack)
    ensures GoodName(n) ==> DOT !in OpenPath(l, n).rest
    decreases |n|
  {
    hide Tidy;
    OpenPathOk(l, n);
    var k := FirstDot(n);
    if 0 < k < |n| {
      NoneTidy();
      OpenPathTidy(Level(n[..k], []), n[k + 1..]);
    }
  }

  lemma {:induction false} PrepareTidy(s: seq<Level>, n: seq<byte>)
    requires s != [] && !Throws(s, n) && TidyStack(s) && Filled(s)
    ensures TidyStack(Prepare(s, n).stack)
    ensures GoodName(n) ==> DOT !in Prepare(s, n).rest
    decreases |s|
  {
    hide Tidy, OpenPath, Whole;
    PrepareOk(s, n);
    if |s| > 1 && InContext(s[1].name, n) {
      var c, r := s[1].name, n[|s[1].name| + 1..];
      assert n == c + [DOT] + r;
      FirstDotAt(c, r);
      PrepareTidy(s[1..], r);
    } else {
      WholeTidy(s);
      OpenPathTidy(Level(s[0].name, Whole(s)), n);
    }
  }

  lemma {:induction false} BuiltTidy(m: Doc)
    requires Built([], m).Some? && Flat(m) && GoodNames(m)
    ensures TidyStack(Built([], m).value) && Filled(Built([], m).value)
    decreases |m|
  {
    hide Tidy, Throws, Prepare, GoodName;
    if m == [] {
      NoneTidy();
    } else {
      var init, f := m[..|m| - 1], m[|m| - 1];
      BuiltTidy(init);
      var s := Built([], init).value;
      PrepareTidy(s, f.name);
      var p := Prepare(s, f.name);
      TidyPlus(p.stack[|p.stack| - 1].fields, Field(p.rest, f.value));
    }
  }

  /** What is built from values that are no objects, under good names, has none but dot-free names and no empty objects,
      and flattens to the sorted elements. */
  lemma BuiltShape(m: Doc, r: Doc)
    requires Ascending(m) && Flat(m) && GoodNames(m)
    requires Built([], m).Some? && r == Whole(Built([], m).value)
    ensures Distinct(r) && Tidy(r) && Flatten(r, []) == m
  {
    hide Tidy, Distinct, Built, Whole, Flatten, GoodName, Ascending;
    SiblingsDistinct(m);
    BuiltTidy(m);
    WholeTidy(Built([], m).value);
    RoundTripIff(m, r);
  }
}
