/** When the builders open each object once: the exact condition. */
module DottedReopen {
  import opened Bytes
  import opened Document
  import opened Compare
  import opened DottedDocs
  import opened EmbeddedStack
  import opened DottedNested
  import opened DottedShape
  import opened DottedPaths

  // ---------------------------------------------------------------- paths as names

  /** A name that starts with all of the path. */
  function Join(p: Route): seq<byte> {
    if p == [] then [] else p[0] + [DOT] + Join(p[1..])
  }

  /** What builders are opened for. */
  ghost predicate GoodRoute(p: Route) {
    forall i :: 0 <= i < |p| ==> p[i] != [] && DOT !in p[i]
  }

  lemma {:induction false} AroundGood(n: seq<byte>)
    ensures GoodRoute(Around(n))
    decreases |n|
  {
    hide Around;
    var k := FirstDot(n);
    AroundFirst(n);
    if 0 < k < |n| {
      AroundGood(n[k + 1..]);
    }
  }

  lemma GoodOn(p: Route, n: seq<byte>)
    requires p <= Around(n)
    ensures GoodRoute(p)
  {
    hide Around;
    AroundGood(n);
  }

  /** The builders for a name have the paths that the name starts with. */
  lemma {:induction false} AroundIff(p: Route, n: seq<byte>)
    requires GoodRoute(p)
    ensures p <= Around(n) <==> Join(p) <= n
    decreases |p|
  {
    hide Around, Join;
    if p != [] {
      var c, r := p[0], p[1..];
      assert p == [c] + r;
      JoinMore(c, r);
      if c + [DOT] <= n {
        var rest := n[|c| + 1..];
        AroundIff(r, rest);
        OneIn(c, r, n);
      } else {
        FirstIn(c, r, n);
      }
    } else {
      NothingJoined();
    }
  }

  lemma NothingJoined()
    ensures Join([]) == []
  {
  }

  lemma OneIn(c: seq<byte>, r: Route, n: seq<byte>)
    requires c != [] && DOT !in c && c + [DOT] <= n
    ensures var rest := n[|c| + 1..];
      ([c] + r <= Around(n) <==> r <= Around(rest)) && (c + [DOT] + Join(r) <= n <==> Join(r) <= rest)
  {
    hide Around, Join, FirstDot;
    Joined(c, n);
    var rest := n[|c| + 1..];
    FirstDotAt(c, rest);
    AroundFirst(n);
    PrefixCancel([c], r, Around(rest));
    PrefixCancel(c + [DOT], Join(r), rest);
  }

  lemma FirstIn(c: seq<byte>, r: Route, n: seq<byte>)
    ensures [c] + r <= Around(n) || c + [DOT] + Join(r) <= n ==> c + [DOT] <= n
  {
    hide Around, Join, FirstDot;
    AroundFirst(n);
    if [c] + r <= Around(n) {
      var k := FirstDot(n);
      assert c == ([c] + r)[0] == Around(n)[0] == n[..k];
      assert n[..k + 1] == c + [DOT];
    }
    if c + [DOT] + Join(r) <= n {
      StartsWith(c + [DOT], Join(r), n);
    }
  }

  lemma PrefixCancel<T>(a: seq<T>, x: seq<T>, y: seq<T>)
    ensures a + x <= a + y <==> x <= y
  {
    if a + x <= a + y {
      assert x == (a + x)[|a|..] == (a + y)[..|a + x|][|a|..] == y[..|x|];
    }
  }

  lemma FirstDotBefore(q: seq<byte>, rest: seq<byte>)
    ensures FirstDot(q + [DOT] + rest) == FirstDot(q)
  {
    hide FirstDot;
    var k := FirstDot(q);
    var c := q[..k];
    if k == |q| {
      assert c == q;
      FirstDotAt(c, rest);
    } else {
      var r := q[k + 1..];
      assert q == c + [DOT] + r;
      assert q + [DOT] + rest == c + [DOT] + (r + [DOT] + rest);
      FirstDotAt(c, r + [DOT] + rest);
    }
  }

  lemma Joined(q: seq<byte>, n: seq<byte>)
    requires q + [DOT] <= n
    ensures |q| < |n| && q == n[..|q|] && n == q + [DOT] + n[|q| + 1..]
  {
    assert (q + [DOT])[..|q|] == q && (q + [DOT])[|q|] == DOT;
  }

  lemma TailJoined(q: seq<byte>, rest: seq<byte>, k: nat)
    requires k < |q|
    ensures q[k + 1..] + [DOT] <= (q + [DOT] + rest)[k + 1..]
  {
    assert (q + [DOT] + rest)[k + 1..] == (q[k + 1..] + [DOT]) + rest;
  }

  lemma SplitAtDot(q: seq<byte>, n: seq<byte>)
    requires q + [DOT] <= n
    ensures FirstDot(n) <= |q| < |n| && FirstDot(q) == FirstDot(n) && q == n[..|q|]
    ensures FirstDot(n) < |q| ==> q[FirstDot(n) + 1..] + [DOT] <= n[FirstDot(n) + 1..]
  {
    hide FirstDot;
    Joined(q, n);
    FirstDotBefore(q, n[|q| + 1..]);
    if FirstDot(q) < |q| {
      TailJoined(q, n[|q| + 1..], FirstDot(q));
    }
  }

  /** No component is empty. */
  predicate Solid(n: seq<byte>)
    decreases |n|
  {
    var k := FirstDot(n);
    k != 0 && (k == |n| || Solid(n[k + 1..]))
  }

  /** The parts of a name without empty components are a path, and the name, with a dot, is what starts with it. */
  lemma {:induction false} SolidParts(q: seq<byte>)
    requires Solid(q)
    ensures GoodRoute(Parts(q)) && Join(Parts(q)) == q + [DOT]
    decreases |q|
  {
    hide FirstDot, Parts, Join;
    var k := FirstDot(q);
    PartsFirst(q);
    if k == |q| {
      OneJoined(q);
    } else {
      SolidParts(q[k + 1..]);
      JoinMore(q[..k], Parts(q[k + 1..]));
      assert q == q[..k] + [DOT] + q[k + 1..];
      assert q + [DOT] == q[..k] + [DOT] + (q[k + 1..] + [DOT]);
    }
  }

  lemma OneJoined(c: seq<byte>)
    ensures Join([c]) == c + [DOT]
  {
    assert [c][1..] == [];
    assert c + [DOT] + [] == c + [DOT];
  }

  lemma JoinMore(c: seq<byte>, p: Route)
    ensures Join([c] + p) == c + [DOT] + Join(p)
  {
    assert ([c] + p)[1..] == p;
  }

  /** Every path is that of such a name. */
  lemma {:induction false} JoinSolid(p: Route) returns (q: seq<byte>)
    requires p != [] && GoodRoute(p)
    ensures Join(p) == q + [DOT] && Solid(q)
    decreases |p|
  {
    hide FirstDot;
    var c, r := p[0], p[1..];
    if r == [] {
      q := c;
      FirstDotAt(c, []);
      assert c + [DOT] + [] == c + [DOT];
    } else {
      var rest := JoinSolid(r);
      q := c + [DOT] + rest;
      FirstDotAt(c, rest);
      assert q[|c| + 1..] == rest;
      assert q + [DOT] == c + [DOT] + (rest + [DOT]);
    }
  }

  // ---------------------------------------------------------------- when a path is left and taken up again

  /** An element has the paths its name starts with open, and an empty object also its own. */
  lemma ReachesIff(f: Field, p: Route, q: seq<byte>)
    requires GoodRoute(p) && p != [] && Join(p) == q + [DOT]
    ensures Reaches(f, p) <==> q + [DOT] <= f.name || (f.value == Object([]) && q == f.name)
  {
    hide Around, Join;
    AroundIff(p, Target(f));
    if f.value == Object([]) {
      FooDots(f.name, q);
    }
  }

  lemma FooDots(g: seq<byte>, q: seq<byte>)
    ensures q + [DOT] <= g + FOO <==> q + [DOT] <= g || q == g
  {
    var p := q + [DOT];
    if p <= g + FOO {
      assert (g + FOO)[|q|] == p[|q|] == DOT;
      NoDotInFoo(g, |q|);
      assert p == (g + FOO)[..|p|];
      if |q| == |g| {
        assert q == p[..|q|] == g;
      } else {
        assert p == g[..|p|];
      }
    }
  }

  /** An empty object in `m` whose path is left and taken up again: its name is a path, some later name does not start with
      it, and a name after that does. */
  ghost predicate Reopened(m: Doc) {
    exists i, k, j :: 0 <= i < k < j < |m| && Reopens(m[i], m[k], m[j])
  }

  predicate Reopens(e: Field, g: Field, f: Field) {
    e.value == Object([]) && Solid(e.name) && !(e.name + [DOT] <= g.name) && e.name + [DOT] <= f.name
  }

  lemma ReopensGap(e: Field, g: Field, f: Field)
    requires Less(e.name, g.name) && Reopens(e, g, f)
    ensures var p := Parts(e.name); Reaches(e, p) && !Reaches(g, p) && Reaches(f, p)
  {
    hide Less, Reaches, Solid, Join, Parts;
    var p := Parts(e.name);
    LessFacts(e.name, g.name, g.name);
    SolidParts(e.name);
    ReachesIff(e, p, e.name);
    ReachesIff(g, p, e.name);
    ReachesIff(f, p, e.name);
  }

  lemma GapReopens(e: Field, g: Field, f: Field, p: Route)
    requires Less(e.name, g.name) && Less(g.name, f.name)
    requires Reaches(e, p) && !Reaches(g, p) && Reaches(f, p)
    ensures Reopens(e, g, f)
  {
    hide Less, Solid, Lexi, Join, Around;
    GoodOn(p, Target(e));
    var q := JoinSolid(p);
    ReachesIff(e, p, q);
    ReachesIff(g, p, q);
    ReachesIff(f, p, q);
    LessFacts(e.name, g.name, f.name);
    LessFacts(f.name, e.name, f.name);
    if q + [DOT] <= e.name {
      PrefixLess(q, e.name);
      assert q != f.name;
      PrefixBefore(q + [DOT], e.name, g.name);
      Between(q + [DOT], g.name, f.name);
    }
  }

  lemma PrefixLess(q: seq<byte>, n: seq<byte>)
    requires q + [DOT] <= n
    ensures Less(q, n)
  {
    hide Lexi;
    assert q == (q + [DOT])[..|q|] == n[..|q|];
    PrefixLexi(q, n);
    LexiChain(q, n, n);
  }

  lemma PrefixBefore(p: seq<byte>, a: seq<byte>, b: seq<byte>)
    requires p <= a && Less(a, b)
    ensures Less(p, b)
  {
    hide Lexi;
    PrefixLexi(p, a);
    LexiChain(p, a, b);
  }

  /** A path is left and taken up again only if it is that of an empty object. */
  lemma GapsIff(m: Doc)
    requires Ascending(m)
    ensures (exists p :: Gap(m, p)) <==> Reopened(m)
  {
    hide Ascending, Gap, Reopened;
    if Reopened(m) {
      var p := ReopenedGap(m);
    }
    forall p | Gap(m, p) ensures Reopened(m) {
      GapReopened(m, p);
    }
  }

  lemma ReopenedGap(m: Doc) returns (p: Route)
    requires Ascending(m) && Reopened(m)
    ensures Gap(m, p)
  {
    hide Less, Reaches, Reopens, Parts;
    var i, k, j :| 0 <= i < k < j < |m| && Reopens(m[i], m[k], m[j]);
    ReopensGap(m[i], m[k], m[j]);
    p := Parts(m[i].name);
  }

  lemma GapReopened(m: Doc, p: Route)
    requires Ascending(m) && Gap(m, p)
    ensures Reopened(m)
  {
    hide Less, Reaches, Reopens;
    var i, k, j :| 0 <= i < k < j < |m| && Reaches(m[i], p) && !Reaches(m[k], p) && Reaches(m[j], p);
    GapReopens(m[i], m[k], m[j], p);
  }

  // ---------------------------------------------------------------- full objects

  /** Where the objects end that an element opens: in a full object, or in the builder it is appended to. */
  function Way(f: Field): Route {
    if Full(f.value) then Parts(f.name) else Around(Target(f))
  }

  /** A full object whose path another element goes through, or ends in. */
  ghost predicate Overlaid(m: Doc) {
    exists i, j :: 0 <= i < |m| && 0 <= j < |m| && i != j && Overlays(m[i], m[j])
  }

  predicate Overlays(e: Field, f: Field) {
    Full(e.value) && Parts(e.name) <= Way(f)
  }

  ghost predicate FullDistinct(m: Doc) {
    forall i :: 0 <= i < |m| && Full(m[i].value) ==> Distinct(m[i].value.doc)
  }

  lemma {:induction false} InnersAt(m: Doc, i: nat, p: Route)
    requires i < |m|
    ensures Inner(m[i], p) <= Inners(m, p)
    decreases |m|
  {
    hide Inner;
    if i < |m| - 1 {
      InnersAt(m[..|m| - 1], i, p);
    }
  }

  lemma {:induction false} InnersBoth(m: Doc, i: nat, j: nat, p: Route)
    requires i < j < |m|
    ensures Inner(m[i], p) + Inner(m[j], p) <= Inners(m, p)
    decreases |m|
  {
    hide Inner;
    if j < |m| - 1 {
      InnersBoth(m[..|m| - 1], i, j, p);
    } else {
      InnersAt(m[..|m| - 1], i, p);
    }
  }

  /** If only one of them brings objects of that path, all together bring as many. */
  lemma {:induction false} InnersOne(m: Doc, i: nat, p: Route)
    requires forall k :: 0 <= k < |m| && k != i ==> Inner(m[k], p) == 0
    ensures Inners(m, p) == if i < |m| then Inner(m[i], p) else 0
    decreases |m|
  {
    hide Inner;
    if m != [] {
      InnersOne(m[..|m| - 1], i, p);
    }
  }

  lemma PartsLast(n: seq<byte>)
    ensures Around(n) + [Last(n)] == Parts(n)
  {
    hide Parts;
  }

  /** Whatever a full object brings lies in it, or is the object. */
  lemma InnerInside(f: Field, p: Route)
    requires Inner(f, p) > 0
    ensures Full(f.value) && Parts(f.name) <= p
  {
    hide Opens, Parts;
    PartsLast(f.name);
    var q := p[|Around(f.name)|..];
    assert p == Around(f.name) + q && q[0] == Last(f.name);
  }

  lemma InnerOnce(f: Field, p: Route)
    requires Full(f.value) ==> Distinct(f.value.doc)
    ensures Inner(f, p) <= 1
  {
    hide Opens, Distinct, Parts;
    if Inner(f, p) > 0 {
      DistinctOnce(f.value.doc, p[|Around(f.name)|..][1..]);
    }
  }

  /** An object that a full object brings has its path behind that of the full object. */
  lemma InnerDoc(f: Field, p: Route)
    requires Full(f.value) && p != []
    ensures Inner(f, Parts(f.name) + p) == Opens(f.value.doc, p)
  {
    hide Opens, Parts;
    PartsLast(f.name);
    var q := Parts(f.name) + p;
    assert q == Around(f.name) + ([Last(f.name)] + p);
    assert q[|Around(f.name)|..] == [Last(f.name)] + p;
    assert ([Last(f.name)] + p)[1..] == p;
  }

  lemma InnerSelf(f: Field)
    requires Full(f.value)
    ensures Inner(f, Parts(f.name)) == 1
  {
    hide Opens, Parts;
    PartsLast(f.name);
    assert Parts(f.name)[|Around(f.name)|..] == [Last(f.name)];
  }

  /** Two full objects that bring objects of one path: the one goes through the other, or they are one object. */
  lemma InnersClash(e: Field, f: Field, p: Route)
    requires Inner(e, p) > 0 && Inner(f, p) > 0
    ensures Overlays(e, f) || Overlays(f, e)
  {
    hide Inner, Parts;
    InnerInside(e, p);
    InnerInside(f, p);
    var a, b := Parts(e.name), Parts(f.name);
    if |a| <= |b| {
      assert a == p[..|a|] == p[..|b|][..|a|];
    } else {
      assert b == p[..|b|] == p[..|a|][..|b|];
    }
  }

  /** A full object that brings an object of a path that another element gets on: that one goes through it. */
  lemma RunClash(e: Field, f: Field, p: Route)
    requires Inner(e, p) > 0 && Reaches(f, p)
    ensures Overlays(e, f) && e != f
  {
    hide Inner, Parts;
    InnerInside(e, p);
    PartsLast(f.name);
    var a, b := Parts(e.name), Around(Target(f));
    assert a == p[..|a|] == b[..|p|][..|a|] == b[..|a|];
    if Full(f.value) {
      assert b[..|a|] == Parts(f.name)[..|a|];
    }
  }

  /** Where nothing is overlaid, the objects brought and the paths opened keep apart. */
  lemma OnceApart(m: Doc, p: Route)
    requires !Overlaid(m) && FullDistinct(m) && !Gap(m, p)
    ensures Runs(m, p) + Inners(m, p) <= 1
  {
    hide Inner, Overlays, Reaches, Runs, Gap, Distinct;
    OneRun(m, p);
    if i :| 0 <= i < |m| && Inner(m[i], p) > 0 {
      InnerInside(m[i], p);
      forall k | 0 <= k < |m| && k != i ensures Inner(m[k], p) == 0 {
        if Inner(m[k], p) > 0 {
          InnersClash(m[i], m[k], p);
        }
      }
      InnersOne(m, i, p);
      InnerOnce(m[i], p);
      forall j | 0 <= j < |m| ensures !Reaches(m[j], p) {
        if Reaches(m[j], p) {
          RunClash(m[i], m[j], p);
        }
      }
      NoRuns(m, p);
    } else {
      InnersOne(m, |m|, p);
    }
  }

  /** Conversely, if no path is that of two objects, nothing is overlaid. */
  lemma OnceFree(m: Doc)
    requires forall p :: Runs(m, p) + Inners(m, p) <= 1
    ensures !Overlaid(m) && FullDistinct(m) && forall p :: !Gap(m, p)
  {
    hide Reaches, Gap, Inner, Overlays;
    forall p ensures !Gap(m, p) {
      OneRun(m, p);
      assert Runs(m, p) + Inners(m, p) <= 1;
    }
    forall i, j | 0 <= i < |m| && 0 <= j < |m| && i != j ensures !Overlays(m[i], m[j]) {
      if Overlays(m[i], m[j]) {
        OverlaidTwice(m, i, j);
      }
    }
    forall i | 0 <= i < |m| && Full(m[i].value) ensures Distinct(m[i].value.doc) {
      ValueOnce(m, i);
    }
  }

  lemma OverlaidTwice(m: Doc, i: nat, j: nat)
    requires i < |m| && j < |m| && i != j && Overlays(m[i], m[j])
    ensures var p := Parts(m[i].name); Runs(m, p) + Inners(m, p) >= 2
  {
    hide Reaches, Parts, Inner;
    var p := Parts(m[i].name);
    InnerSelf(m[i]);
    if Full(m[j].value) && Parts(m[j].name) == p {
      InnerSelf(m[j]);
      InnersBoth(m, if i < j then i else j, if i < j then j else i, p);
    } else {
      InnersAt(m, i, p);
      WayReaches(m[j], p);
      NoRuns(m, p);
    }
  }

  lemma WayReaches(f: Field, p: Route)
    requires p != [] && p <= Way(f) && (Full(f.value) ==> Parts(f.name) != p)
    ensures Reaches(f, p)
  {
    hide Parts;
    if Full(f.value) {
      PartsLast(f.name);
      assert p == Parts(f.name)[..|p|] == Around(f.name)[..|p|];
    }
  }

  lemma ValueOnce(m: Doc, i: nat)
    requires i < |m| && Full(m[i].value) && forall p :: Runs(m, p) + Inners(m, p) <= 1
    ensures Distinct(m[i].value.doc)
  {
    hide Opens, Runs, Inners, Distinct, Parts;
    forall p ensures Opens(m[i].value.doc, p) <= 1 {
      if p == [] {
        NoRoute(m[i].value.doc);
      } else {
        var q := Parts(m[i].name) + p;
        InnersAt(m, i, q);
        InnerDoc(m[i], p);
        assert Runs(m, q) + Inners(m, q) <= 1;
      }
    }
    OnceDistinct(m[i].value.doc);
  }

  // ---------------------------------------------------------------- the theorem

  /** Embedded siblings have different names, whatever the names and the values, if and only if
      - no empty object among the values is left for a name that sorts in between and then taken up again,
      - no other object among the values is one that another element goes through or puts in its place, and
      - each of those is so in itself. */
  lemma OpenedOnceIff(m: Doc)
    requires Ascending(m)
    ensures Built([], m).Some?
    ensures Distinct(Whole(Built([], m).value)) <==> !Reopened(m) && !Overlaid(m) && FullDistinct(m)
  {
    hide Ascending, Built, Whole, Distinct, Opens, Runs, Inners, Gap, Reopened, Overlaid, FullDistinct;
    NeverThrows([], m);
    var d := Whole(Built([], m).value);
    GapsIff(m);
    forall p ensures Opens(d, p) == Runs(m, p) + Inners(m, p) {
      BuiltOpens(m, p);
    }
    if Distinct(d) {
      forall p ensures Runs(m, p) + Inners(m, p) <= 1 {
        DistinctOnce(d, p);
      }
      OnceFree(m);
    }
    if !Reopened(m) && !Overlaid(m) && FullDistinct(m) {
      forall p ensures Opens(d, p) <= 1 {
        assert !Gap(m, p);
        OnceApart(m, p);
      }
      OnceDistinct(d);
    }
  }

  // ---------------------------------------------------------------- good names

  /** An empty object, a later name that does not go through it, and then one that does. */
  ghost predicate LeftAndTaken(m: Doc) {
    exists i, k, j :: 0 <= i < k < j < |m| && m[i].value == Object([])
      && !(m[i].name + [DOT] <= m[k].name) && m[i].name + [DOT] <= m[j].name
  }

  /** Another object, and a name that goes through it. */
  ghost predicate GoneThrough(m: Doc) {
    exists i, j :: 0 <= i < |m| && 0 <= j < |m| && Full(m[i].value) && m[i].name + [DOT] <= m[j].name
  }

  lemma {:induction false} GoodStart(q: seq<byte>, n: seq<byte>)
    requires GoodName(n) && q + [DOT] <= n
    ensures Solid(q)
    decreases |n|
  {
    SplitAtDot(q, n);
    var k := FirstDot(n);
    if k < |q| {
      GoodStart(q[k + 1..], n[k + 1..]);
    }
  }

  /** A good name is its parts, with dots between them. */
  lemma {:induction false} GoodParts(n: seq<byte>)
    requires GoodName(n)
    ensures Join(Parts(n)) == n + [DOT]
    decreases |n|
  {
    hide FirstDot, Parts, Join;
    var k := FirstDot(n);
    PartsFirst(n);
    if k == |n| {
      OneJoined(n);
    } else {
      GoodParts(n[k + 1..]);
      JoinMore(n[..k], Parts(n[k + 1..]));
      assert n == n[..k] + [DOT] + n[k + 1..];
      assert n + [DOT] == n[..k] + [DOT] + (n[k + 1..] + [DOT]);
    }
  }

  lemma OverlaysGood(e: Field, f: Field)
    requires Full(e.value) && GoodName(e.name) && GoodName(f.name) && e.name != f.name
    ensures Overlays(e, f) <==> e.name + [DOT] <= f.name
  {
    hide Parts, Join, Solid, GoodName;
    var p := Parts(e.name);
    GoodParts(e.name);
    GoodParts(f.name);
    if Overlays(e, f) {
      assert (f.name + [DOT])[..|f.name|] == f.name && (e.name + [DOT])[..|e.name|] == e.name;
      WayReaches(f, p);
      GoodOn(p, Target(f));
      ReachesIff(f, p, e.name);
    }
    if e.name + [DOT] <= f.name {
      GoodStart(e.name, f.name);
      SolidParts(e.name);
      ReachesIff(f, p, e.name);
      ReachesWay(f, p);
    }
  }

  lemma ReachesWay(f: Field, p: Route)
    requires Reaches(f, p)
    ensures p <= Way(f)
  {
    hide Parts;
    PartsLast(f.name);
  }

  /** Under good names components need not be looked at. */
  lemma OpenedOnceGoodNames(m: Doc)
    requires Ascending(m) && GoodNames(m)
    ensures Built([], m).Some?
    ensures Distinct(Whole(Built([], m).value)) <==> !LeftAndTaken(m) && !GoneThrough(m) && FullDistinct(m)
  {
    hide Less, Built, Whole, Distinct, Solid, GoodName, FullDistinct, Full, Overlays;
    OpenedOnceIff(m);
    forall i, j | 0 <= i < |m| && 0 <= j < |m| && m[i].name + [DOT] <= m[j].name ensures Solid(m[i].name) {
      GoodStart(m[i].name, m[j].name);
    }
    forall i, j | 0 <= i < |m| && 0 <= j < |m| && i != j && Full(m[i].value)
      ensures Overlays(m[i], m[j]) <==> m[i].name + [DOT] <= m[j].name
    {
      LessFacts(m[i].name, m[i].name, m[i].name);
      OverlaysGood(m[i], m[j]);
    }
    OverlaysFull();
  }

  lemma OverlaysFull()
    ensures forall e, f :: Overlays(e, f) ==> Full(e.value)
  {
  }

  /** Under "a" an empty object, "a-b" and "a.b" give two objects named "a". */
  lemma EmptyObjectReopened()
    ensures var m := [Field([97], Object([])), Field([97, 45, 98], Null), Field([97, 46, 98], Null)];
      Ascending(m) && Built([], m).Some? && !Distinct(Whole(Built([], m).value))
  {
    hide Built, Whole, Distinct;
    var m := [Field([97], Object([])), Field([97, 45, 98], Null), Field([97, 46, 98], Null)];
    assert Lexi([97], [97, 45, 98]) < 0 && Lexi([97], [97, 46, 98]) < 0;
    assert Lexi([97, 45, 98], [97, 46, 98]) < 0;
    FirstDotAt([97], []);
    assert Reopens(m[0], m[1], m[2]);
    OpenedOnceIff(m);
  }

  /** An object with a field under "a", and "a.b": again two objects named "a". */
  lemma FullObjectOverlaid()
    ensures var m := [Field([97], Object([Field([120], Null)])), Field([97, 46, 98], Null)];
      Ascending(m) && Built([], m).Some? && !Distinct(Whole(Built([], m).value))
  {
    hide Built, Whole, Distinct;
    var m := [Field([97], Object([Field([120], Null)])), Field([97, 46, 98], Null)];
    assert Lexi([97], [97, 46, 98]) < 0;
    FirstDotAt([97], []);
    assert GoodName([97]) && GoodName([97, 46, 98]);
    OverlaysGood(m[0], m[1]);
    OpenedOnceIff(m);
  }
}
