/** How many objects of each path the builders open. */
module DottedPaths {
  import opened Bytes
  import opened Document
  import opened DottedDocs
  import opened EmbeddedStack
  import opened DottedNested
  import opened DottedShape

  /** The names of the objects around an object, and its own. */
  type Route = seq<seq<byte>>

  // ---------------------------------------------------------------- counting objects by their paths

  /** How many objects in `d` have the path `p`. */
  function Opens(d: Doc, p: Route): nat
    decreases d
  {
    if d == [] then 0 else FieldOpens(d[0], p) + Opens(d[1..], p)
  }

  function FieldOpens(f: Field, p: Route): nat
    decreases f
  {
    if !f.value.Object? || p == [] || p[0] != f.name then 0
    else if |p| == 1 then 1
    else Opens(f.value.doc, p[1..])
  }

  lemma {:induction false} OpensAppend(d: Doc, e: Doc, p: Route)
    ensures Opens(d + e, p) == Opens(d, p) + Opens(e, p)
    decreases |d|
  {
    hide FieldOpens;
    if d == [] {
      assert d + e == e;
    } else {
      assert (d + e)[0] == d[0] && (d + e)[1..] == d[1..] + e;
      OpensAppend(d[1..], e, p);
    }
  }

  lemma OpensOne(f: Field, p: Route)
    ensures Opens([f], p) == FieldOpens(f, p)
  {
    hide FieldOpens;
    assert [f][1..] == [];
  }

  lemma OpensAt(d: Doc, i: nat, p: Route)
    requires i < |d|
    ensures FieldOpens(d[i], p) + Opens(d[i + 1..], p) <= Opens(d, p)
  {
    hide FieldOpens;
    assert d == d[..i] + d[i..];
    OpensAppend(d[..i], d[i..], p);
    assert d[i..][1..] == d[i + 1..];
  }

  lemma {:induction false} NoRoute(d: Doc)
    ensures Opens(d, []) == 0
    decreases |d|
  {
    if d != [] {
      NoRoute(d[1..]);
    }
  }

  /** Whatever is counted lies in, or is, an object of the first name. */
  lemma {:induction false} OpensNamed(d: Doc, p: Route)
    requires Opens(d, p) > 0
    ensures p != [] && exists i :: 0 <= i < |d| && d[i].value.Object? && d[i].name == p[0]
    decreases |d|
  {
    if FieldOpens(d[0], p) == 0 {
      OpensNamed(d[1..], p);
      var i :| 0 <= i < |d[1..]| && d[1..][i].value.Object? && d[1..][i].name == p[0];
      assert d[i + 1] == d[1..][i];
    }
  }

  lemma DistinctRest(d: Doc)
    requires d != [] && Distinct(d)
    ensures Distinct(d[1..]) && (d[0].value.Object? ==> Distinct(d[0].value.doc))
    ensures d[0].value.Object? ==> forall i :: 0 <= i < |d[1..]| && d[1..][i].value.Object? ==> d[1..][i].name != d[0].name
  {
    var r := d[1..];
    assert forall i :: 0 <= i < |r| ==> r[i] == d[i + 1];
  }

  /** Where siblings have different names, no path is that of two objects. */
  lemma {:induction false} DistinctOnce(d: Doc, p: Route)
    requires Distinct(d)
    ensures Opens(d, p) <= 1
    decreases d
  {
    hide Distinct;
    if d != [] {
      DistinctRest(d);
      DistinctOnce(d[1..], p);
      if d[0].value.Object? && p != [] {
        DistinctOnce(d[0].value.doc, p[1..]);
      }
      if FieldOpens(d[0], p) > 0 && Opens(d[1..], p) > 0 {
        OpensNamed(d[1..], p);
      }
    }
  }

  /** Where no path is that of two objects, siblings have different names. */
  lemma {:induction false} OnceDistinct(d: Doc)
    requires forall p :: Opens(d, p) <= 1
    ensures Distinct(d)
    decreases d
  {
    forall i, j | 0 <= i < j < |d| && d[i].value.Object? && d[j].value.Object? ensures d[i].name != d[j].name {
      var p := [d[i].name];
      OpensAt(d, i, p);
      OpensAt(d[i + 1..], j - i - 1, p);
      assert Opens(d, p) <= 1;
    }
    forall i | 0 <= i < |d| && d[i].value.Object? ensures Distinct(d[i].value.doc) {
      forall p ensures Opens(d[i].value.doc, p) <= 1 {
        OpensAt(d, i, [d[i].name] + p);
        NoRoute(d[i].value.doc);
        assert ([d[i].name] + p)[1..] == p;
      }
      OnceDistinct(d[i].value.doc);
    }
  }

  // ---------------------------------------------------------------- what one name opens

  /** What splitDot cuts a name into, one part after the other, until it finds no more: the last is what is left. */
  function Parts(n: seq<byte>): (r: Route)
    ensures r != []
    decreases |n|
  {
    var k := FirstDot(n);
    if k == |n| then [n] else if k == 0 then [n[1..]] else [n[..k]] + Parts(n[k + 1..])
  }

  /** The path of the builders for a name. */
  function Around(n: seq<byte>): Route { Parts(n)[..|Parts(n)| - 1] }

  lemma AroundFirst(n: seq<byte>)
    ensures var k := FirstDot(n); Around(n) == if k == |n| || k == 0 then [] else [n[..k]] + Around(n[k + 1..])
  {
    hide Parts, FirstDot;
    var k := FirstDot(n);
    PartsFirst(n);
    if 0 < k < |n| {
      AllButLast(n[..k], Parts(n[k + 1..]));
    }
  }

  lemma PartsFirst(n: seq<byte>)
    ensures var k := FirstDot(n);
      Parts(n) == if k == |n| then [n] else if k == 0 then [n[1..]] else [n[..k]] + Parts(n[k + 1..])
  {
    hide FirstDot;
  }

  lemma AllButLast(c: seq<byte>, r: Route)
    requires r != []
    ensures ([c] + r)[..|r|] == [c] + r[..|r| - 1]
  {
  }

  /** The path of the open builders. */
  function Names(s: seq<Level>): Route
    requires s != []
    decreases |s|
  {
    if |s| == 1 then [] else [s[1].name] + Names(s[1..])
  }

  lemma NamesMore(l: Level, s: seq<Level>)
    requires s != []
    ensures Names([l] + s) == [s[0].name] + Names(s)
  {
    assert ([l] + s)[1..] == s;
  }

  lemma {:induction false} OpenPathNamed(l: Level, n: seq<byte>)
    ensures var p := OpenPath(l, n); Names(p.stack) + [p.rest] == Parts(n)
    decreases |n|
  {
    hide Names;
    var k := FirstDot(n);
    if 0 < k < |n| {
      var inner := OpenPath(Level(n[..k], []), n[k + 1..]);
      OpenPathNamed(Level(n[..k], []), n[k + 1..]);
      NamesMore(l, inner.stack);
      assert [n[..k]] + Names(inner.stack) + [inner.rest] == [n[..k]] + (Names(inner.stack) + [inner.rest]);
    } else {
      OneName(l);
    }
  }

  lemma OneName(l: Level)
    ensures Names([l]) == []
  {
  }

  lemma {:induction false} PrepareNamed(s: seq<Level>, n: seq<byte>)
    requires s != [] && StackOk(s) && !Throws(s, n)
    ensures var p := Prepare(s, n); Names(p.stack) + [p.rest] == Parts(n)
    decreases |s|
  {
    hide OpenPath, Whole, Names;
    if |s| > 1 && InContext(s[1].name, n) {
      var c, r := s[1].name, n[|s[1].name| + 1..];
      assert n == c + [DOT] + r;
      FirstDotAt(c, r);
      assert StackOk(s[1..]);
      PrepareNamed(s[1..], r);
      var inner := Prepare(s[1..], r);
      assert s[..1] == [s[0]];
      NamesMore(s[0], inner.stack);
      assert [c] + Names(inner.stack) + [inner.rest] == [c] + (Names(inner.stack) + [inner.rest]);
    } else {
      OpenPathNamed(Level(s[0].name, Whole(s)), n);
    }
  }

  /** `p` is the path of an object on the way along `route`. */
  predicate On(p: Route, route: Route) { p != [] && p <= route }

  function One(b: bool): nat { if b then 1 else 0 }

  lemma OnFirst(p: Route, c: seq<byte>, x: Route)
    ensures On(p, [c] + x) <==> p != [] && p[0] == c && (|p| == 1 || On(p[1..], x))
  {
    if p != [] && p[0] == c && p[1..] <= x {
      assert p == [c] + p[1..];
    }
  }

  /** The embedded object of the builder above the bottom one. */
  lemma WholeOpens(s: seq<Level>, p: Route)
    requires 1 < |s|
    ensures Opens(Whole(s), p) == Opens(s[0].fields, p)
      + if p == [] || p[0] != s[1].name then 0 else if |p| == 1 then 1 else Opens(Whole(s[1..]), p[1..])
  {
    hide Opens;
    var f := Field(s[1].name, Object(Whole(s[1..])));
    OpensAppend(s[0].fields, [f], p);
    OpensOne(f, p);
  }

  lemma NoOpens(p: Route)
    ensures Opens([], p) == 0
  {
  }

  /** Building the path of a name opens each object on it once. */
  lemma {:induction false} OpenPathOpens(l: Level, n: seq<byte>, p: Route)
    ensures Opens(Whole(OpenPath(l, n).stack), p) == Opens(l.fields, p) + One(On(p, Around(n)))
    decreases |n|
  {
    hide Opens, Around, On;
    var k := FirstDot(n);
    AroundFirst(n);
    if 0 < k < |n| {
      var inner := OpenPath(Level(n[..k], []), n[k + 1..]);
      assert ([l] + inner.stack)[1..] == inner.stack;
      WholeOpens([l] + inner.stack, p);
      OnFirst(p, n[..k], Around(n[k + 1..]));
      if p != [] {
        OpenPathOpens(Level(n[..k], []), n[k + 1..], p[1..]);
        NoOpens(p[1..]);
      }
    } else {
      WholeOne(l);
      OnNothing(p);
    }
  }

  lemma OnNothing(p: Route)
    ensures !On(p, [])
  {
  }

  /** Preparing for a name opens what lies on its path and not on that of the open builders, and nothing else. */
  lemma {:induction false} PrepareOpens(s: seq<Level>, n: seq<byte>, p: Route)
    requires s != [] && StackOk(s) && !Throws(s, n)
    ensures Opens(Whole(Prepare(s, n).stack), p) == Opens(Whole(s), p) + One(On(p, Around(n)) && !On(p, Names(s)))
    decreases |s|
  {
    hide Opens, OpenPath, Whole, On, Around;
    if |s| > 1 && InContext(s[1].name, n) {
      var c, r := s[1].name, n[|s[1].name| + 1..];
      var above := Prepare(s[1..], r);
      assert n == c + [DOT] + r;
      FirstDotAt(c, r);
      AroundFirst(n);
      assert StackOk(s[1..]);
      assert (s[..1] + above.stack)[1..] == above.stack;
      WholeOpens(s[..1] + above.stack, p);
      WholeOpens(s, p);
      OnFirst(p, c, Around(r));
      OnFirst(p, c, Names(s[1..]));
      if p != [] {
        PrepareOpens(s[1..], r, p[1..]);
      }
    } else {
      OpenPathOpens(Level(s[0].name, Whole(s)), n, p);
      if |s| > 1 {
        OutOfContext(s, n, p);
      } else {
        OnNothing(p);
      }
    }
  }

  /** Builders that the name does not go through have no path in common with it. */
  lemma OutOfContext(s: seq<Level>, n: seq<byte>, p: Route)
    requires 1 < |s| && !InContext(s[1].name, n)
    ensures On(p, Around(n)) ==> !On(p, Names(s))
  {
    hide Around, On;
    var k := FirstDot(n);
    AroundFirst(n);
    OnNothing(p);
    OnFirst(p, s[1].name, Names(s[1..]));
    if 0 < k < |n| {
      OnFirst(p, n[..k], Around(n[k + 1..]));
    }
  }

  /** The objects that a field at the end of `route` brings. */
  function Below(route: Route, f: Field, p: Route): nat {
    if route <= p then FieldOpens(f, p[|route|..]) else 0
  }

  lemma BelowFirst(c: seq<byte>, route: Route, f: Field, p: Route)
    ensures Below([c] + route, f, p) == if p != [] && p[0] == c then Below(route, f, p[1..]) else 0
  {
    hide FieldOpens;
    if p != [] && p[0] == c {
      assert p == [c] + p[1..];
      assert [c] + route <= p <==> route <= p[1..];
      if route <= p[1..] {
        assert p[|[c] + route|..] == p[1..][|route|..];
      }
    }
  }

  lemma BelowNothing(route: Route, f: Field, p: Route)
    requires |p| <= |route|
    ensures Below(route, f, p) == 0
  {
  }

  /** An element that is appended brings the objects in it. */
  lemma {:induction false} AppendOpens(s: seq<Level>, f: Field, p: Route)
    requires s != []
    ensures Names(AppendTo(s, f)) == Names(s)
    ensures Opens(Whole(AppendTo(s, f)), p) == Opens(Whole(s), p) + Below(Names(s), f, p)
    decreases |s|
  {
    hide Opens, Below;
    var r := AppendTo(s, f);
    if |s| == 1 {
      OpensAppend(s[0].fields, [f], p);
      OpensOne(f, p);
      BelowHere(f, p);
    } else {
      assert r[1..] == AppendTo(s[1..], f) && r[0] == s[0] && r[1].name == s[1].name;
      AppendOpens(s[1..], f, if p == [] then [] else p[1..]);
      WholeOpens(s, p);
      WholeOpens(r, p);
      BelowFirst(s[1].name, Names(s[1..]), f, p);
      if |p| == 1 {
        BelowNothing(Names(s[1..]), f, p[1..]);
      }
    }
  }

  lemma BelowHere(f: Field, p: Route)
    ensures Below([], f, p) == FieldOpens(f, p)
  {
    hide FieldOpens;
    assert p[0..] == p;
  }

  // ---------------------------------------------------------------- all names

  /** An object that is appended as it is; an empty one only opens its path. */
  predicate Full(v: Value) { v.Object? && v != Object([]) }

  /** How many objects of path `p` a full object brings. */
  function Inner(f: Field, p: Route): nat {
    if Full(f.value) then Below(Around(f.name), Field(Last(f.name), f.value), p) else 0
  }

  function Last(n: seq<byte>): seq<byte> { Parts(n)[|Parts(n)| - 1] }

  function Inners(m: Doc, p: Route): nat
    decreases |m|
  {
    if m == [] then 0 else Inners(m[..|m| - 1], p) + Inner(m[|m| - 1], p)
  }

  /** How often, going through the names in order, `p` gets on the path. */
  function Runs(m: Doc, p: Route): nat
    decreases |m|
  {
    if m == [] then 0
    else Runs(m[..|m| - 1], p) + One(Reaches(m[|m| - 1], p) && !(1 < |m| && Reaches(m[|m| - 2], p)))
  }

  predicate Reaches(f: Field, p: Route) { On(p, Around(Target(f))) }

  lemma AddedOpens(s: seq<Level>, f: Field, p: Route)
    requires s != [] && StackOk(s) && !Throws(s, Target(f))
    ensures StackOk(Added(s, f)) && Names(Added(s, f)) == Around(Target(f))
    ensures Opens(Whole(Added(s, f)), p) == Opens(Whole(s), p) + One(Reaches(f, p) && !On(p, Names(s))) + Inner(f, p)
  {
    hide Opens, Whole, Prepare, Throws, Names, Parts, On, Below;
    var n := Target(f);
    PrepareOk(s, n);
    PrepareNamed(s, n);
    PrepareOpens(s, n, p);
    var q := Prepare(s, n);
    assert Around(n) == Names(q.stack) && Last(n) == q.rest;
    if f.value != Object([]) {
      AppendOpens(q.stack, Field(q.rest, f.value), p);
      AppendPath(q.stack, Field(q.rest, f.value));
      if !f.value.Object? {
        NoneInside(Names(q.stack), Field(q.rest, f.value), p);
      }
    }
  }

  lemma NoneInside(route: Route, f: Field, p: Route)
    requires !f.value.Object?
    ensures Below(route, f, p) == 0
  {
  }

  /** A path is opened as often as the names, in their order, get on it, and once more for each object that is brought. */
  lemma {:induction false} BuiltOpens(m: Doc, p: Route)
    requires Built([], m).Some?
    ensures StackOk(Built([], m).value) && Opens(Whole(Built([], m).value), p) == Runs(m, p) + Inners(m, p)
    ensures On(p, Names(Built([], m).value)) <==> m != [] && Reaches(m[|m| - 1], p)
    decreases |m|
  {
    hide Opens, Whole, Added, Throws, Names, Around, On, Target, StackOk, Inner;
    if m == [] {
      OneOk(Level([], []));
      OneName(Level([], []));
      OnNothing(p);
      WholeOne(Level([], []));
      NoOpens(p);
    } else {
      BuiltOpens(m[..|m| - 1], p);
      AddedOpens(Built([], m[..|m| - 1]).value, m[|m| - 1], p);
    }
  }

  // ---------------------------------------------------------------- gaps

  /** `p` is on the path, then off it, then on it again. */
  ghost predicate Gap(m: Doc, p: Route) {
    exists i, k, j :: 0 <= i < k < j < |m| && Reaches(m[i], p) && !Reaches(m[k], p) && Reaches(m[j], p)
  }

  lemma {:induction false} NoRuns(m: Doc, p: Route)
    ensures Runs(m, p) == 0 <==> forall i :: 0 <= i < |m| ==> !Reaches(m[i], p)
    decreases |m|
  {
    hide Reaches;
    if m != [] {
      NoRuns(m[..|m| - 1], p);
      assert 1 < |m| ==> m[|m| - 2] == m[..|m| - 1][|m| - 2];
    }
  }

  lemma {:induction false} OneRun(m: Doc, p: Route)
    ensures Runs(m, p) <= 1 <==> !Gap(m, p)
    decreases |m|
  {
    hide Reaches;
    if m != [] {
      var init := m[..|m| - 1];
      NoRuns(init, p);
      OneRun(init, p);
      assert Gap(init, p) ==> Gap(m, p);
    }
  }
}
