/** Looking dotted names up in what dotted2nested builds. */
module DottedLookup {
  import opened Bytes
  import opened Document
  import opened Compare
  import opened DottedDocs
  import opened BsonFormat
  import opened BsonWalk
  import opened BsonIterator
  import opened EmbeddedStack
  import opened DottedNested
  import opened DottedShape

  /** getField: the first field of that name. */
  function GetField(d: Doc, n: seq<byte>): Option<Value> {
    if d == [] then None else if d[0].name == n then Some(d[0].value) else GetField(d[1..], n)
  }

  /** getFieldDotted: the whole name first, then the part before its first dot and the rest inside. */
  function GetFieldDotted(d: Doc, n: seq<byte>): Option<Value>
    decreases |n|
  {
    var e, k := GetField(d, n), FirstDot(n);
    if e.Some? || k == |n| then e
    else
      var sub := GetObjectField(d, n[..k]);
      if sub == [] then None else GetFieldDotted(sub, n[k + 1..])
  }

  /** getObjectField: nothing where the field is neither an object nor an array. */
  function GetObjectField(d: Doc, n: seq<byte>): Doc {
    match GetField(d, n)
    case Some(Object(doc)) => doc
    case Some(Array(doc)) => doc
    case _ => []
  }

  method FindField(d: Doc, n: seq<byte>) returns (e: Option<Value>)
    ensures e == GetField(d, n)
  {
    var i := 0;
    assert d[0..] == d;
    while i < |d|
      invariant i <= |d| && GetField(d, n) == GetField(d[i..], n)
    {
      if d[i].name == n {
        return Some(d[i].value);
      }
      i := i + 1;
    }
    e := None;
  }

  method FindFieldDotted(d: Doc, n: seq<byte>) returns (e: Option<Value>)
    ensures e == GetFieldDotted(d, n)
    decreases |n|
  {
    hide GetField;
    e := FindField(d, n);
    if e.None? {
      var k := FirstDot(n);
      if k < |n| {
        var left := FindField(d, n[..k]);
        var sub := if left.Some? && (left.value.Object? || left.value.Array?) then left.value.doc else [];
        if sub != [] {
          e := FindFieldDotted(sub, n[k + 1..]);
        }
      }
    }
  }

  // ---------------------------------------------------------------- what a lookup finds

  /** The first field of that name has that value. */
  ghost predicate IsFirst(d: Doc, n: seq<byte>, v: Value) {
    exists i :: 0 <= i < |d| && d[i] == Field(n, v) && forall j :: 0 <= j < i ==> d[j].name != n
  }

  predicate HasNone(d: Doc, n: seq<byte>) {
    forall i :: 0 <= i < |d| ==> d[i].name != n
  }

  /** A component without a dot, and the rest of the name behind the dot. */
  predicate Splits(n: seq<byte>, c: seq<byte>, x: seq<byte>) {
    n == c + [DOT] + x && DOT !in c
  }

  /** Where the name leads: to a field of that name; or else, where the first field under its first component is an object
      or an array, to where the rest leads in there. */
  ghost predicate Leads(d: Doc, n: seq<byte>, v: Value)
    decreases |n|
  {
    || IsFirst(d, n, v)
    || (HasNone(d, n)
        && exists c, x, w: Value :: Splits(n, c, x) && IsFirst(d, c, w) && (w.Object? || w.Array?) && Leads(w.doc, x, v))
  }

  lemma {:induction false} GetFieldIff(d: Doc, n: seq<byte>)
    ensures forall v :: GetField(d, n) == Some(v) <==> IsFirst(d, n, v)
    ensures GetField(d, n) == None <==> HasNone(d, n)
    decreases |d|
  {
    if d != [] {
      var r := d[1..];
      assert forall i :: 0 < i < |d| ==> d[i] == r[i - 1];
      GetFieldIff(r, n);
      if d[0].name != n {
        forall v ensures IsFirst(d, n, v) <==> IsFirst(r, n, v) {
          FirstBehind(d, n, v);
        }
      } else {
        forall v | IsFirst(d, n, v) ensures v == d[0].value {
          var i :| 0 <= i < |d| && d[i] == Field(n, v) && forall j :: 0 <= j < i ==> d[j].name != n;
          assert i == 0;
        }
        assert IsFirst(d, n, d[0].value) by {
          assert d[0] == Field(n, d[0].value);
        }
      }
    }
  }

  lemma FirstBehind(d: Doc, n: seq<byte>, v: Value)
    requires d != [] && d[0].name != n
    ensures IsFirst(d, n, v) <==> IsFirst(d[1..], n, v)
  {
    var r := d[1..];
    if IsFirst(d, n, v) {
      var i :| 0 <= i < |d| && d[i] == Field(n, v) && forall j :: 0 <= j < i ==> d[j].name != n;
      assert r[i - 1] == d[i] && forall j :: 0 <= j < i - 1 ==> r[j] == d[j + 1];
    }
    if IsFirst(r, n, v) {
      var i :| 0 <= i < |r| && r[i] == Field(n, v) && forall j :: 0 <= j < i ==> r[j].name != n;
      assert d[i + 1] == r[i] && forall j :: 0 < j < i + 1 ==> d[j] == r[j - 1];
    }
  }

  lemma SplitsAt(n: seq<byte>, c: seq<byte>, x: seq<byte>)
    requires Splits(n, c, x)
    ensures FirstDot(n) == |c| < |n| && n[..|c|] == c && n[|c| + 1..] == x
  {
    FirstDotAt(c, x);
  }

  /** The lookup finds exactly what the name leads to. */
  lemma {:induction false} FoundIff(d: Doc, n: seq<byte>, v: Value)
    ensures GetFieldDotted(d, n) == Some(v) <==> Leads(d, n, v)
    decreases |n|
  {
    hide GetField, IsFirst, HasNone, FirstDot;
    var k := FirstDot(n);
    GetFieldIff(d, n);
    if GetField(d, n).None? {
      if k < |n| {
        InsideIff(d, n, v);
      } else {
        forall c, x ensures !Splits(n, c, x) {
          if Splits(n, c, x) {
            SplitsAt(n, c, x);
          }
        }
      }
    }
  }

  lemma {:induction false} InsideIff(d: Doc, n: seq<byte>, v: Value)
    requires HasNone(d, n) && GetField(d, n).None? && FirstDot(n) < |n|
    ensures GetFieldDotted(d, n) == Some(v) <==> Leads(d, n, v)
    decreases |n|, 0
  {
    hide GetField, IsFirst, HasNone, FirstDot;
    var k := FirstDot(n);
    var c, x := n[..k], n[k + 1..];
    assert Splits(n, c, x);
    GetFieldIff(d, n);
    GetFieldIff(d, c);
    var w := GetField(d, c);
    if w.Some? && (w.value.Object? || w.value.Array?) {
      FoundIff(w.value.doc, x, v);
      NothingInside(x);
    }
    forall b, y | Splits(n, b, y) ensures b == c && y == x {
      SplitsAt(n, b, y);
    }
  }

  lemma NothingInside(x: seq<byte>)
    ensures GetFieldDotted([], x) == None
  {
  }

  // ---------------------------------------------------------------- where an element of the dotted form comes from

  function Prefixed(d: Doc, base: seq<byte>): Doc {
    seq(|d|, i requires 0 <= i < |d| => Field(base + d[i].name, d[i].value))
  }

  lemma {:induction false} FlattenPrefixed(d: Doc, base: seq<byte>)
    ensures Flatten(d, base) == Prefixed(Flatten(d, []), base)
    decreases d
  {
    if d != [] {
      FlattenPrefixed(d[1..], base);
      var f := d[0];
      assert [] + f.name == f.name;
      if f.value.Object? {
        FlattenPrefixed(f.value.doc, base + f.name + [DOT]);
        FlattenPrefixed(f.value.doc, [] + f.name + [DOT]);
        PrefixedTwice(Flatten(f.value.doc, []), f.name + [DOT], base);
        assert base + (f.name + [DOT]) == base + f.name + [DOT];
      }
      PrefixedPlus(FlattenField(f, []), Flatten(d[1..], []), base);
    }
  }

  lemma PrefixedTwice(d: Doc, p: seq<byte>, base: seq<byte>)
    ensures Prefixed(Prefixed(d, p), base) == Prefixed(d, base + p)
  {
    forall i | 0 <= i < |d| ensures Prefixed(Prefixed(d, p), base)[i] == Prefixed(d, base + p)[i] {
      assert base + (p + d[i].name) == base + p + d[i].name;
    }
  }

  lemma PrefixedPlus(d: Doc, e: Doc, base: seq<byte>)
    ensures Prefixed(d + e, base) == Prefixed(d, base) + Prefixed(e, base)
  {
  }

  /** The dotted form, around field `i`. */
  lemma FlattenAround(d: Doc, i: nat)
    requires i < |d|
    ensures Flatten(d, []) == Flatten(d[..i], []) + FlattenField(d[i], []) + Flatten(d[i + 1..], [])
  {
    hide Flatten, FlattenField;
    var a, b, c := d[..i], [d[i]], d[i + 1..];
    Around(d, i);
    FlattenAppend(a + b, c, []);
    FlattenAppend(a, b, []);
    FlattenOne(d[i], []);
  }

  lemma Around<T>(d: seq<T>, i: nat)
    requires i < |d|
    ensures d == d[..i] + [d[i]] + d[i + 1..]
  {
  }

  lemma FlattenPlain(f: Field)
    requires !f.value.Object?
    ensures FlattenField(f, []) == [f]
  {
    assert [] + f.name == f.name;
  }

  lemma FlattenInner(f: Field)
    requires f.value.Object?
    ensures FlattenField(f, []) == Prefixed(Flatten(f.value.doc, []), f.name + [DOT])
  {
    hide Flatten;
    FlattenPrefixed(f.value.doc, [] + f.name + [DOT]);
    assert [] + f.name + [DOT] == f.name + [DOT];
  }

  /** Every element of the dotted form comes from one of the fields. */
  lemma {:induction false} FromField(d: Doc, g: Field) returns (i: nat)
    requires g in Flatten(d, [])
    ensures i < |d| && g in FlattenField(d[i], [])
  {
    hide FlattenField;
    if g in FlattenField(d[0], []) {
      i := 0;
    } else {
      i := FromField(d[1..], g);
      i := i + 1;
    }
  }

  lemma IntoFlatten(d: Doc, i: nat, g: Field)
    requires i < |d| && g in FlattenField(d[i], [])
    ensures g in Flatten(d, [])
  {
    hide Flatten, FlattenField;
    FlattenAround(d, i);
  }

  /** A tidy document that is not empty has elements. */
  lemma {:induction false} TidyFlatten(d: Doc)
    requires Tidy(d) && d != []
    ensures Flatten(d, []) != []
    decreases d
  {
    if d[0].value.Object? {
      TidyFlatten(d[0].value.doc);
      FlattenInner(d[0]);
    }
  }

  lemma AscendingMiddle(a: Doc, b: Doc, c: Doc, f: Field, g: Field)
    requires Ascending(a + b + c) && f in a && g in b
    ensures Less(f.name, g.name)
  {
    hide Less;
    var i :| 0 <= i < |a| && a[i] == f;
    var j :| 0 <= j < |b| && b[j] == g;
    assert (a + b + c)[i] == f && (a + b + c)[|a| + j] == g;
  }

  /** Of two fields the earlier has the smaller elements. */
  lemma FieldsAscending(d: Doc, i: nat, j: nat, f: Field, g: Field)
    requires i < j < |d| && Ascending(Flatten(d, [])) && f in FlattenField(d[i], []) && g in FlattenField(d[j], [])
    ensures Less(f.name, g.name)
  {
    hide Flatten, FlattenField, Less, Ascending;
    FlattenAround(d, j);
    assert d[..j][i] == d[i];
    IntoFlatten(d[..j], i, f);
    AscendingMiddle(Flatten(d[..j], []), FlattenField(d[j], []), Flatten(d[j + 1..], []), f, g);
  }

  lemma {:induction false} LexiCancel(p: seq<byte>, a: seq<byte>, b: seq<byte>)
    ensures Lexi(p + a, p + b) == Lexi(a, b)
  {
    if p == [] {
      assert p + a == a && p + b == b;
    } else {
      assert (p + a)[1..] == p[1..] + a && (p + b)[1..] == p[1..] + b;
      LexiCancel(p[1..], a, b);
    }
  }

  /** The elements of an embedded object are in order, too. */
  lemma InnerAscending(d: Doc, i: nat)
    requires i < |d| && d[i].value.Object? && Ascending(Flatten(d, []))
    ensures Ascending(Flatten(d[i].value.doc, []))
  {
    hide Flatten, Lexi;
    FlattenAround(d, i);
    FlattenInner(d[i]);
    var a, s, p := Flatten(d[..i], []), Flatten(d[i].value.doc, []), d[i].name + [DOT];
    forall j, k | 0 <= j < k < |s| ensures Less(s[j].name, s[k].name) {
      assert Flatten(d, [])[|a| + j] == Field(p + s[j].name, s[j].value);
      assert Flatten(d, [])[|a| + k] == Field(p + s[k].name, s[k].value);
      LexiCancel(p, s[j].name, s[k].name);
    }
  }

  // ---------------------------------------------------------------- finding a field

  /** The first field of a name, by its place. */
  lemma {:induction false} FirstOfName(d: Doc, i: nat, n: seq<byte>)
    requires i < |d| && d[i].name == n && forall j :: 0 <= j < i ==> d[j].name != n
    ensures GetField(d, n) == Some(d[i].value)
  {
    if i != 0 {
      FirstOfName(d[1..], i - 1, n);
    }
  }

  lemma {:induction false} NoneOfName(d: Doc, n: seq<byte>)
    requires forall j :: 0 <= j < |d| ==> d[j].name != n
    ensures GetField(d, n).None?
  {
    if d != [] {
      NoneOfName(d[1..], n);
    }
  }

  /** An element of an embedded object has a dot behind that object's name. */
  lemma InnerName(f: Field, g: Field) returns (x: Field)
    requires f.value.Object? && g in FlattenField(f, [])
    ensures x in Flatten(f.value.doc, []) && g == Field(f.name + [DOT] + x.name, x.value)
  {
    hide Flatten;
    FlattenInner(f);
    var s := Flatten(f.value.doc, []);
    var j :| 0 <= j < |s| && Prefixed(s, f.name + [DOT])[j] == g;
    x := s[j];
  }

  lemma InnerElement(f: Field) returns (g: Field)
    requires f.value.Object? && f.value.doc != [] && Tidy(f.value.doc)
    ensures g in FlattenField(f, []) && f.name + [DOT] <= g.name
  {
    hide Flatten;
    TidyFlatten(f.value.doc);
    FlattenInner(f);
    g := Prefixed(Flatten(f.value.doc, []), f.name + [DOT])[0];
    assert g in FlattenField(f, []);
  }

  lemma InnerMember(f: Field, x: Field)
    requires f.value.Object? && x in Flatten(f.value.doc, [])
    ensures Field(f.name + [DOT] + x.name, x.value) in FlattenField(f, [])
  {
    hide Flatten;
    FlattenInner(f);
    var s := Flatten(f.value.doc, []);
    var j :| 0 <= j < |s| && s[j] == x;
    assert Prefixed(s, f.name + [DOT])[j] == Field(f.name + [DOT] + x.name, x.value);
  }

  lemma PrefixLess(a: seq<byte>, b: seq<byte>)
    requires a + [DOT] <= b
    ensures !Less(b, a)
  {
    hide Lexi;
    StartsWith(a, [DOT], b);
    PrefixLexi(a, b);
    LexiSwap(a, b);
  }

  /** A field that is no object is found: nothing before it has its name. */
  lemma PlainFound(d: Doc, i: nat)
    requires Tidy(d) && Ascending(Flatten(d, [])) && i < |d| && !d[i].value.Object?
    ensures GetField(d, d[i].name) == Some(d[i].value)
  {
    hide Flatten, FlattenField, Less, Ascending;
    forall j | 0 <= j < i ensures d[j].name != d[i].name {
      FlattenPlain(d[i]);
      if d[j].value.Object? {
        var g := InnerElement(d[j]);
        FieldsAscending(d, j, i, g, d[i]);
        if d[j].name == d[i].name {
          PrefixLess(d[i].name, g.name);
        }
      } else {
        FlattenPlain(d[j]);
        FieldsAscending(d, j, i, d[j], d[i]);
        LessFacts(d[i].name, d[j].name, []);
      }
    }
    FirstOfName(d, i, d[i].name);
  }

  // ---------------------------------------------------------------- the theorem

  /** Another element's name, with a dot, starts the name. */
  ghost predicate Shadowed(m: Doc, n: seq<byte>) {
    exists i :: 0 <= i < |m| && m[i].name + [DOT] <= n
  }

  ghost predicate NoArrays(m: Doc) {
    forall i :: 0 <= i < |m| ==> !m[i].value.Array?
  }

  lemma NotShadowed(m: Doc, n: seq<byte>, g: Field)
    requires g in m && g.name + [DOT] <= n
    ensures Shadowed(m, n)
  {
  }

  lemma DotWithin(a: seq<byte>, n: seq<byte>)
    ensures a + [DOT] <= n ==> DOT in n
  {
    if a + [DOT] <= n {
      assert (a + [DOT])[|a|] == n[|a|];
    }
  }

  lemma DotFreeNotShadowed(m: Doc, n: seq<byte>)
    requires DOT !in n
    ensures !Shadowed(m, n)
  {
    forall i | 0 <= i < |m| ensures !(m[i].name + [DOT] <= n) {
      DotWithin(m[i].name, n);
    }
  }

  /** What lookup finds, for an element `g` of the dotted form of a document shaped as dotted2nested shapes it. */
  ghost predicate Found(d: Doc, g: Field) {
    var m := Flatten(d, []);
    && (!Shadowed(m, g.name) ==> GetFieldDotted(d, g.name) == Some(g.value))
    && (Shadowed(m, g.name) && NoArrays(m) ==> GetFieldDotted(d, g.name) == None)
  }

  lemma PlainLookup(d: Doc, i: nat)
    requires Tidy(d) && Ascending(Flatten(d, [])) && i < |d| && !d[i].value.Object?
    ensures Found(d, d[i])
  {
    hide Flatten, Tidy, Shadowed, GetField;
    PlainFound(d, i);
    TidyName(d, i);
    DotFreeNotShadowed(Flatten(d, []), d[i].name);
  }

  lemma TidyName(d: Doc, i: nat)
    requires Tidy(d) && i < |d|
    ensures DOT !in d[i].name
    ensures d[i].value.Object? ==> d[i].value.doc != [] && Tidy(d[i].value.doc)
  {
  }

  /** Is the name of the embedded object also that of a field that is none? */
  predicate Hidden(d: Doc, c: seq<byte>) {
    exists j :: 0 <= j < |d| && !d[j].value.Object? && d[j].name == c
  }

  /** A dotted name is looked up in the embedded object its first component names, unless a field hides that. */
  lemma InnerLookup(d: Doc, i: nat, x: seq<byte>)
    requires Tidy(d) && Distinct(d) && i < |d| && d[i].value.Object?
    requires Ascending(Flatten(d, []))
    ensures var n := d[i].name + [DOT] + x;
      && (!Hidden(d, d[i].name) ==> GetFieldDotted(d, n) == GetFieldDotted(d[i].value.doc, x))
      && (Hidden(d, d[i].name) && NoArrays(Flatten(d, [])) ==> GetFieldDotted(d, n) == None)
  {
    hide Flatten, GetField, Tidy, Distinct;
    var c := d[i].name;
    var n := c + [DOT] + x;
    TidyName(d, i);
    FirstDotAt(c, x);
    assert n[..|c|] == c && n[|c| + 1..] == x;
    forall j | 0 <= j < |d| ensures d[j].name != n {
      TidyName(d, j);
      DotWithin(c, n);
    }
    NoneOfName(d, n);
    if Hidden(d, c) {
      var j :| 0 <= j < |d| && !d[j].value.Object? && d[j].name == c;
      PlainFound(d, j);
      if NoArrays(Flatten(d, [])) {
        PlainElement(d, j);
      }
    } else {
      forall j | 0 <= j < i ensures d[j].name != c {
        if d[j].value.Object? {
          DistinctAt(d, j, i);
        }
      }
      FirstOfName(d, i, c);
    }
  }

  lemma DistinctAt(d: Doc, j: nat, i: nat)
    requires Distinct(d) && j < i < |d| && d[j].value.Object? && d[i].value.Object?
    ensures d[j].name != d[i].name
  {
  }

  lemma PlainElement(d: Doc, j: nat)
    requires j < |d| && !d[j].value.Object?
    ensures d[j] in Flatten(d, [])
  {
    hide Flatten;
    FlattenPlain(d[j]);
    IntoFlatten(d, j, d[j]);
  }

  /** What shadows a dotted name: a field that hides its embedded object, or an element inside shadowing the rest. */
  lemma ShadowedInner(d: Doc, i: nat, x: seq<byte>)
    requires Tidy(d) && Distinct(d) && i < |d| && d[i].value.Object?
    ensures Shadowed(Flatten(d, []), d[i].name + [DOT] + x) <==> Hidden(d, d[i].name) || Shadowed(Flatten(d[i].value.doc, []), x)
  {
    hide Flatten, FlattenField, Tidy;
    var c, m, s := d[i].name, Flatten(d, []), Flatten(d[i].value.doc, []);
    var n := c + [DOT] + x;
    if Hidden(d, c) {
      var j :| 0 <= j < |d| && !d[j].value.Object? && d[j].name == c;
      PlainElement(d, j);
      NotShadowed(m, n, d[j]);
    }
    if Shadowed(s, x) {
      var k :| 0 <= k < |s| && s[k].name + [DOT] <= x;
      var g := Field(c + [DOT] + s[k].name, s[k].value);
      InnerMember(d[i], s[k]);
      IntoFlatten(d, i, g);
      PrefixCancel(c, s[k].name + [DOT], x);
      assert c + [DOT] + (s[k].name + [DOT]) == g.name + [DOT];
      NotShadowed(m, n, g);
    }
    if Shadowed(m, n) && !Hidden(d, c) {
      var k :| 0 <= k < |m| && m[k].name + [DOT] <= n;
      var j := FromField(d, m[k]);
      TidyName(d, j);
      TidyName(d, i);
      if d[j].value.Object? {
        var y := InnerName(d[j], m[k]);
        FirstComponent(d[j].name, y.name + [DOT], c, x);
        assert d[j].name + [DOT] + (y.name + [DOT]) == m[k].name + [DOT];
        PrefixCancel(c, y.name + [DOT], x);
        NotShadowed(s, x, y);
      } else {
        PlainShadow(d[j], m[k], c, x);
      }
    }
  }

  lemma PlainShadow(f: Field, g: Field, c: seq<byte>, x: seq<byte>)
    requires !f.value.Object? && g in FlattenField(f, []) && DOT !in f.name && DOT !in c
    requires g.name + [DOT] <= c + [DOT] + x
    ensures f.name == c
  {
    FlattenPlain(f);
    FirstComponent(f.name, [], c, x);
    assert f.name + [DOT] + [] == g.name + [DOT];
  }

  lemma PrefixCancel(c: seq<byte>, a: seq<byte>, b: seq<byte>)
    ensures c + [DOT] + a <= c + [DOT] + b <==> a <= b
  {
    var x, y := c + [DOT] + a, c + [DOT] + b;
    if x <= y {
      assert x[|c| + 1..] == a && y[|c| + 1..][..|a|] == y[..|x|][|c| + 1..];
    }
  }

  /** Dotted names that start alike have the same first component. */
  lemma FirstComponent(a: seq<byte>, p: seq<byte>, b: seq<byte>, q: seq<byte>)
    requires DOT !in a && DOT !in b
    ensures a + [DOT] + p <= b + [DOT] + q ==> a == b
  {
    if a + [DOT] + p <= b + [DOT] + q {
      var x, y := a + [DOT] + p, b + [DOT] + q;
      FirstDotAt(a, p);
      FirstDotAt(b, q);
      assert x == y[..|x|] && x[..|a| + 1] == a + [DOT];
      FirstDotAt(a, y[|a| + 1..]);
      assert y == a + [DOT] + y[|a| + 1..];
      assert y[..|a|] == a && y[..|b|] == b;
    }
  }

  /** Every element of the dotted form is found under its name, exactly unless another element's name is a dotted start
      of it. */
  lemma {:induction false} LookupElement(d: Doc, g: Field)
    requires Tidy(d) && Distinct(d) && Ascending(Flatten(d, [])) && g in Flatten(d, [])
    ensures Found(d, g)
    decreases |g.name|
  {
    hide Flatten, FlattenField, Ascending, Tidy, Shadowed, NoArrays, GetFieldDotted;
    var i := FromField(d, g);
    if d[i].value.Object? {
      var x := InnerName(d[i], g);
      TidyName(d, i);
      InnerAscending(d, i);
      InnerDistinct(d, i);
      LookupElement(d[i].value.doc, x);
      InnerLookup(d, i, x.name);
      ShadowedInner(d, i, x.name);
      NoInnerArrays(d, i);
    } else {
      FlattenPlain(d[i]);
      PlainLookup(d, i);
    }
  }

  lemma InnerDistinct(d: Doc, i: nat)
    requires Distinct(d) && i < |d| && d[i].value.Object?
    ensures Distinct(d[i].value.doc)
  {
  }

  lemma NoInnerArrays(d: Doc, i: nat)
    requires i < |d| && d[i].value.Object?
    ensures NoArrays(Flatten(d, [])) ==> NoArrays(Flatten(d[i].value.doc, []))
  {
    hide Flatten, FlattenField;
    var m, s := Flatten(d, []), Flatten(d[i].value.doc, []);
    if NoArrays(m) {
      forall k | 0 <= k < |s| ensures !s[k].value.Array? {
        InnerMember(d[i], s[k]);
        IntoFlatten(d, i, Field(d[i].name + [DOT] + s[k].name, s[k].value));
      }
    }
  }

  /** Lookup commutes with nesting. For values that are neither objects nor arrays, under good names, the nested document
      has under a dotted name exactly what the flat one has under it, unless another name is a dotted start of this one:
      then it has nothing. */
  lemma LookupIff(m: Doc, r: Doc, n: seq<byte>)
    requires Ascending(m) && Flat(m) && GoodNames(m) && NoArrays(m)
    requires Built([], m).Some? && r == Whole(Built([], m).value)
    requires LastValue(m, n).Some?
    ensures GetFieldDotted(r, n) == LastValue(m, n) <==> !Shadowed(m, n)
    ensures Shadowed(m, n) ==> GetFieldDotted(r, n).None?
  {
    hide Built, Whole, Flatten, GoodNames, Ascending, Shadowed, Distinct, Tidy, GetFieldDotted;
    BuiltShape(m, r);
    LastValueIn(m, n);
    LookupElement(r, Field(n, LastValue(m, n).value));
  }

  /** With arrays among the values, lookup still succeeds where no name is a dotted start of this one. */
  lemma LookupThrough(m: Doc, r: Doc, n: seq<byte>)
    requires Ascending(m) && Flat(m) && GoodNames(m)
    requires Built([], m).Some? && r == Whole(Built([], m).value)
    requires LastValue(m, n).Some? && !Shadowed(m, n)
    ensures GetFieldDotted(r, n) == LastValue(m, n)
  {
    hide Built, Whole, Flatten, GoodNames, Ascending, Shadowed, Distinct, Tidy, GetFieldDotted;
    BuiltShape(m, r);
    LastValueIn(m, n);
    LookupElement(r, Field(n, LastValue(m, n).value));
  }

  // ---------------------------------------------------------------- in terms of the flat document

  ghost predicate DistinctNames(d: Doc) {
    forall i, j :: 0 <= i < j < |d| ==> d[i].name != d[j].name
  }

  /** Without repeated names the first field of a name, which getField finds, is the last, which the map keeps. */
  lemma FirstIsLast(d: Doc, n: seq<byte>)
    requires DistinctNames(d) && LastValue(d, n).Some?
    ensures GetField(d, n) == LastValue(d, n)
  {
    LastValueIn(d, n);
    var i :| 0 <= i < |d| && d[i].name == n && LastValue(d, n) == Some(d[i].value);
    FirstOfName(d, i, n);
  }

  lemma ShadowedSorted(d: Doc, n: seq<byte>)
    ensures Shadowed(SortedMap(d), n) <==> Shadowed(d, n)
  {
    hide Ascending, SortedMap;
    SortedMaps(d);
    SameShadow(SortedMap(d), d, n);
    SameShadow(d, SortedMap(d), n);
  }

  lemma SameShadow(m: Doc, d: Doc, n: seq<byte>)
    requires forall x :: LastValue(m, x) == LastValue(d, x)
    ensures Shadowed(m, n) ==> Shadowed(d, n)
  {
    if Shadowed(m, n) {
      var i :| 0 <= i < |m| && m[i].name + [DOT] <= n;
      LastValueIn(m, m[i].name);
      LastValueIn(d, m[i].name);
      assert LastValue(m, m[i].name) == LastValue(d, m[i].name);
    }
  }

  /** dotted2nested( d ), and a lookup on either side of it, for a document of distinct good names and values that are no
      objects: unless the nested document is too long for a BSONObj, the nested lookup gives what the flat one gives if no
      name is a dotted start of this one. Otherwise it gives nothing, arrays aside. */
  method NestAndFind(d: Doc, n: seq<byte>) returns (flat: Option<Value>, thrown: bool, nested: Option<Value>)
    requires DocInRange(d) && DocClean(d) && |EncodeDoc(d)| <= LIMIT
    requires DistinctNames(d) && Flat(SortedMap(d)) && GoodNames(SortedMap(d)) && LastValue(d, n).Some?
    ensures flat == LastValue(d, n)
    ensures Built([], SortedMap(d)).Some? && (thrown <==> LIMIT < |EncodeDoc(Whole(Built([], SortedMap(d)).value))|)
    ensures !thrown && !Shadowed(d, n) ==> nested == flat
    ensures !thrown && NoArrays(SortedMap(d)) && Shadowed(d, n) ==> nested.None?
  {
    hide Built, Whole, GoodNames, Ascending, Shadowed, SortedMap, GetField, GetFieldDotted, LastValue, Flat, NoArrays;
    hide EncodeDoc, WalkDoc, DocInRange, DocClean, Sound;
    SortedMaps(d);
    FirstIsLast(d, n);
    ShadowedSorted(d, n);
    flat := FindField(d, n);
    var bytes := ToNested(d);
    thrown := bytes.None?;
    if thrown {
      return flat, true, None;
    }
    ghost var r := Whole(Built([], SortedMap(d)).value);
    NestedReads(d);
    var read := ReadDoc(bytes.value, 0);
    nested := FindFieldDotted(read.value, n);
    if !Shadowed(d, n) {
      LookupThrough(SortedMap(d), r, n);
    } else if NoArrays(SortedMap(d)) {
      LookupIff(SortedMap(d), r, n);
    }
  }
}
