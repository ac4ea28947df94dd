/** What the stack of open builders behind dotted2nested stands for. */
module EmbeddedStack {
  import opened Bytes
  import opened Document
  import opened BsonFormat
  import opened BsonRoundTrip
  import opened BsonBuilder
  import opened DottedDocs

  /** An open builder: the name of its object in the builder below, and what has been appended to it. */
  datatype Level = Level(name: seq<byte>, fields: Doc)

  /** What the bottom builder holds once all builders above it are done. */
  function Whole(s: seq<Level>): Doc
    requires s != []
    decreases |s|
  {
    if |s| == 1 then s[0].fields else s[0].fields + [Field(s[1].name, Object(Whole(s[1..])))]
  }

  /** `c` is the first component of the name, or all of it. */
  predicate InContext(c: seq<byte>, n: seq<byte>) {
    |c| <= |n| && n[..|c|] == c && (|c| == |n| || n[|c|] == DOT)
  }

  /** substr() behind the end: a name is that of an open builder. */
  predicate Throws(s: seq<Level>, n: seq<byte>)
    requires s != []
    decreases |s|
  {
    |s| > 1 && InContext(s[1].name, n) && (|s[1].name| == |n| || Throws(s[1..], n[|s[1].name| + 1..]))
  }

  /** The builders after prepareContext, and what is left of the name. */
  datatype Prepared = Prepared(stack: seq<Level>, rest: seq<byte>)

  function Prepare(s: seq<Level>, n: seq<byte>): (p: Prepared)
    requires s != [] && !Throws(s, n)
    ensures p.stack != [] && p.stack[0].name == s[0].name
    decreases |s|
  {
    if |s| > 1 && InContext(s[1].name, n)
    then Onto(s[..1], Prepare(s[1..], n[|s[1].name| + 1..]))
    else OpenPath(Level(s[0].name, Whole(s)), n)
  }

  function OpenPath(l: Level, n: seq<byte>): (p: Prepared)
    ensures p.stack != [] && p.stack[0].name == l.name
    decreases |n|
  {
    var k := FirstDot(n);
    if k == |n| then Prepared([l], n)
    else if k == 0 then Prepared([l], n[1..])
    else Onto([l], OpenPath(Level(n[..k], []), n[k + 1..]))
  }

  function Onto(s: seq<Level>, p: Prepared): Prepared {
    Prepared(s + p.stack, p.rest)
  }

  function AppendTo(s: seq<Level>, f: Field): (r: seq<Level>)
    requires s != []
    ensures r != []
  {
    s[..|s| - 1] + [Level(s[|s| - 1].name, s[|s| - 1].fields + [f])]
  }

  const FOO: seq<byte> := [46, 102, 111, 111]  // ".foo"

  /** appendAs: an empty object only prepares its context. */
  function Added(s: seq<Level>, f: Field): (r: seq<Level>)
    requires s != [] && !Throws(s, Target(f))
    ensures r != [] && r[0].name == s[0].name
  {
    var p := Prepare(s, Target(f));
    if f.value == Object([]) then p.stack else AppendTo(p.stack, Field(p.rest, f.value))
  }

  /** The name the context is prepared for. */
  function Target(f: Field): seq<byte> {
    if f.value == Object([]) then f.name + FOO else f.name
  }

  // ---------------------------------------------------------------- the loops of prepareContext

  lemma OntoOnto(s: seq<Level>, t: seq<Level>, p: Prepared)
    ensures Onto(s, Onto(t, p)) == Onto(s + t, p)
  {
    assert s + (t + p.stack) == (s + t) + p.stack;
  }

  /** One round of the loop over the open builders. */
  lemma StepIn(s: seq<Level>, n: seq<byte>)
    requires 1 < |s| && InContext(s[1].name, n)
    ensures |s[1].name| == |n| ==> Throws(s, n)
    ensures |s[1].name| < |n| ==> Throws(s, n) == Throws(s[1..], n[|s[1].name| + 1..])
    ensures !Throws(s, n) ==> |s[1].name| < |n| && Prepare(s, n) == Onto(s[..1], Prepare(s[1..], n[|s[1].name| + 1..]))
  {
    hide Whole, OpenPath;
  }

  /** The loop ends: the builders above are closed. */
  lemma StepOut(s: seq<Level>, n: seq<byte>)
    requires s != [] && (1 < |s| ==> !InContext(s[1].name, n))
    ensures !Throws(s, n) && Prepare(s, n) == OpenPath(Level(s[0].name, Whole(s)), n)
  {
    hide Whole, OpenPath, InContext;
  }

  /** One round of the loop over the components. */
  lemma OpenStep(l: Level, n: seq<byte>)
    ensures SplitOff(n).0 == [] ==> OpenPath(l, n) == Prepared([l], SplitOff(n).1)
    ensures SplitOff(n).0 != [] ==> OpenPath(l, n) == Onto([l], OpenPath(Level(SplitOff(n).0, []), SplitOff(n).1))
    ensures SplitOff(n).0 != [] ==> |SplitOff(n).1| < |n|
  {
  }

  lemma OntoNothing(p: Prepared)
    ensures Onto([], p) == p
  {
    assert [] + p.stack == p.stack;
  }

  lemma WholeOne(l: Level)
    ensures Whole([l]) == l.fields
  {
  }

  /** Closing the top builder changes nothing in the whole. */
  lemma {:induction false} PopWhole(s: seq<Level>, t: seq<Level>)
    requires 1 < |s| && |t| == |s| - 1 && t[..|t| - 1] == s[..|t| - 1]
    requires t[|t| - 1] == Level(s[|t| - 1].name, Whole(s[|t| - 1..]))
    ensures Whole(t) == Whole(s) && t[0].name == s[0].name
    decreases |s|
  {
    if |t| == 1 {
      assert s[0..] == s;
    } else {
      assert t[1..][..|t| - 2] == t[..|t| - 1][1..] == s[..|t| - 1][1..] == s[1..][..|t| - 2];
      assert s[1..][|t| - 2..] == s[|t| - 1..];
      PopWhole(s[1..], t[1..]);
      assert t[..|t| - 1][0] == s[..|t| - 1][0];
    }
  }

  function SplitOff(n: seq<byte>): (seq<byte>, seq<byte>) {
    var k := FirstDot(n);
    if k == |n| then ([], n) else (n[..k], n[k + 1..])
  }

  lemma HasRest(c: seq<byte>, n: seq<byte>)
    requires InContext(c, n) && |c| != |n|
    ensures |c| < |n|
  {
  }

  // ---------------------------------------------------------------- sizes

  /** Whatever the builders hold fits. */
  predicate LevelsFit(s: seq<Level>) {
    forall i :: 0 <= i < |s| ==> DocFits(s[i].fields)
  }

  lemma DocFitsMore(d: Doc, f: Field)
    ensures DocFits(d + [f]) <==> DocFits(d) && ValueFits(f.value)
  {
    hide ValueFits;
    assert (d + [f])[|d|] == f;
    if DocFits(d + [f]) {
      forall i | 0 <= i < |d| ensures ValueFits(d[i].value) {
        assert (d + [f])[i] == d[i];
      }
    }
  }

  lemma LevelsFitMore(s: seq<Level>, l: Level)
    ensures LevelsFit(s + [l]) <==> LevelsFit(s) && DocFits(l.fields)
  {
    hide DocFits;
    assert (s + [l])[|s|] == l;
    if LevelsFit(s + [l]) {
      forall i | 0 <= i < |s| ensures DocFits(s[i].fields) {
        assert (s + [l])[i] == s[i];
      }
    }
  }

  /** One more field in the top builder. */
  lemma AppendFits(s: seq<Level>, f: Field)
    requires s != []
    ensures LevelsFit(AppendTo(s, f)) <==> LevelsFit(s) && ValueFits(f.value)
  {
    hide DocFits, ValueFits, LevelsFit;
    var rest, top := s[..|s| - 1], s[|s| - 1];
    assert s == rest + [top];
    DocFitsMore(top.fields, f);
    LevelsFitMore(rest, top);
    LevelsFitMore(rest, Level(top.name, top.fields + [f]));
  }

  /** Closing the top builder: afterwards everything fits if everything did, and the closed object does. */
  lemma PopFits(s: seq<Level>)
    requires 1 < |s|
    ensures LevelsFit(Popped(s)) <==> LevelsFit(s) && |EncodeDoc(s[|s| - 1].fields)| <= LIMIT
  {
    hide DocFits, AppendTo, EncodeFields, LevelsFit;
    var rest, top := s[..|s| - 1], s[|s| - 1];
    assert s == rest + [top];
    LevelsFitMore(rest, top);
    AppendFits(rest, Field(top.name, Object(top.fields)));
    PartsFit(top.fields);
  }

  /** The top builder is done: its object is complete in the builder below. */
  function Popped(s: seq<Level>): (t: seq<Level>)
    requires 1 < |s|
    ensures |t| == |s| - 1
  {
    AppendTo(s[..|s| - 1], Field(s[|s| - 1].name, Object(s[|s| - 1].fields)))
  }

  /** The bytes of the whole, without length and end marker. */
  function Weight(s: seq<Level>): nat
    requires s != []
  {
    |EncodeFields(Whole(s))|
  }

  lemma ObjectBytes(n: seq<byte>, d: Doc)
    ensures EncodeField(Field(n, Object(d))) == Header(3, n) + EncodeDoc(d)
  {
  }

  lemma ObjectLength(n: seq<byte>, d: Doc)
    ensures |EncodeField(Field(n, Object(d)))| == |n| + 2 + |EncodeFields(d)| + 5
  {
    hide EncodeField, EncodeFields, EncodeDoc;
    ObjectBytes(n, d);
    DocLength(d);
  }

  lemma {:induction false} AppendWeight(s: seq<Level>, f: Field)
    requires s != []
    ensures Weight(AppendTo(s, f)) == Weight(s) + |EncodeField(f)|
    decreases |s|
  {
    hide EncodeField, EncodeFields;
    var t := AppendTo(s, f);
    if |s| == 1 {
      FieldsMore(s[0].fields, f);
    } else {
      assert t[1..] == AppendTo(s[1..], f) && t[0] == s[0] && t[1].name == s[1].name;
      AppendWeight(s[1..], f);
      WholeWeight(s);
      WholeWeight(t);
    }
  }

  lemma WholeWeight(s: seq<Level>)
    requires 1 < |s|
    ensures Weight(s) == |EncodeFields(s[0].fields)| + |s[1].name| + 2 + Weight(s[1..]) + 5
  {
    hide EncodeField, EncodeFields;
    FieldsMore(s[0].fields, Field(s[1].name, Object(Whole(s[1..]))));
    ObjectLength(s[1].name, Whole(s[1..]));
  }

  lemma PoppedWhole(s: seq<Level>)
    requires 1 < |s|
    ensures Whole(Popped(s)) == Whole(s)
    ensures Popped(s)[..|s| - 2] == s[..|s| - 2]
    ensures Popped(s)[|s| - 2] == Level(s[|s| - 2].name, Whole(s[|s| - 2..]))
  {
    hide Whole, Popped;
    PoppedTop(s);
    PopWhole(s, Popped(s));
  }

  lemma PoppedTop(s: seq<Level>)
    requires 1 < |s|
    ensures Popped(s)[..|s| - 2] == s[..|s| - 2]
    ensures Popped(s)[|s| - 2] == Level(s[|s| - 2].name, Whole(s[|s| - 2..]))
  {
    hide Whole;
    var n := |s| - 1;
    TwoWhole(s[n - 1], s[n]);
    assert s[n - 1..] == [s[n - 1], s[n]];
    assert Popped(s)[..n - 1] == s[..n - 1];
  }

  lemma PoppedNames(s: seq<Level>)
    requires 1 < |s|
    ensures forall i :: 0 <= i < |s| - 1 ==> Popped(s)[i].name == s[i].name
  {
  }

  /** Closing the top builder leaves those below `k` alone, and is closing it in the rest. */
  lemma PoppedTail(s: seq<Level>, k: nat)
    requires k + 1 < |s|
    ensures Popped(s)[..k] == s[..k] && Popped(s)[k].name == s[k].name
    ensures Whole(Popped(s)[k..]) == Whole(s[k..])
  {
    hide Whole;
    var t := s[k..];
    assert t[..|t| - 1] == s[..|s| - 1][k..] && t[|t| - 1] == s[|s| - 1];
    assert Popped(s)[k..] == Popped(t);
    PoppedWhole(t);
  }

  lemma TwoWhole(l: Level, top: Level)
    ensures Whole([l, top]) == l.fields + [Field(top.name, Object(top.fields))]
  {
    assert [l, top][1..] == [top];
  }

  /** A new builder weighs its header, its length and its end marker. */
  lemma PushWeight(s: seq<Level>, n: seq<byte>)
    requires s != []
    ensures Weight(s + [Level(n, [])]) == Weight(s) + |n| + 7
  {
    hide EncodeField, EncodeFields;
    var t := s + [Level(n, [])];
    assert t[..|s|] == s;
    PoppedWhole(t);
    AppendWeight(s, Field(n, Object([])));
    ObjectLength(n, []);
    NoFields([]);
  }

  // ---------------------------------------------------------------- bytes

  /** `started` is the buffer when a nested builder has started behind `prev`: there is room for its length. */
  predicate Follows(started: seq<byte>, prev: seq<byte>) {
    |started| == |prev| + 4 && started[..|prev|] == prev
  }

  /** The buffer when each of the builders started, the bottom one behind `before`. */
  ghost predicate Chain(s: seq<Level>, starts: seq<seq<byte>>, before: seq<byte>) {
    && |starts| == |s| && s != [] && starts[0] == before
    && forall i :: 0 < i < |s| ==>
      Follows(starts[i], starts[i - 1] + EncodeFields(s[i - 1].fields) + Header(3, s[i].name))
  }

  /** The buffer holds what has been appended to each of the builders. */
  ghost predicate Laid(c: seq<byte>, s: seq<Level>, starts: seq<seq<byte>>, before: seq<byte>) {
    Chain(s, starts, before) && c == starts[|s| - 1] + EncodeFields(s[|s| - 1].fields)
  }

  lemma LaidAppend(c: seq<byte>, s: seq<Level>, starts: seq<seq<byte>>, before: seq<byte>, f: Field)
    requires Laid(c, s, starts, before)
    ensures Laid(c + EncodeField(f), AppendTo(s, f), starts, before)
  {
    hide EncodeField, EncodeFields, Follows, Header;
    var n := |s| - 1;
    FieldsMore(s[n].fields, f);
    Assoc(starts[n], EncodeFields(s[n].fields), EncodeField(f));
    var t := AppendTo(s, f);
    assert t[n].name == s[n].name && forall i :: 0 <= i < n ==> t[i] == s[i];
  }

  lemma LaidPush(c: seq<byte>, s: seq<Level>, starts: seq<seq<byte>>, before: seq<byte>, n: seq<byte>, started: seq<byte>)
    requires Laid(c, s, starts, before) && Follows(started, c + Header(3, n))
    ensures Laid(started, s + [Level(n, [])], starts + [started], before)
  {
    hide EncodeFields, Follows, Header;
    NoFields([]);
    assert started + [] == started;
    var t, u := s + [Level(n, [])], starts + [started];
    forall i | 0 < i < |t| ensures Follows(u[i], u[i - 1] + EncodeFields(t[i - 1].fields) + Header(3, t[i].name)) {
      if i < |s| {
        assert t[i] == s[i] && t[i - 1] == s[i - 1] && u[i] == starts[i] && u[i - 1] == starts[i - 1];
      } else {
        assert t[i - 1] == s[i - 1] && u[i - 1] == starts[i - 1];
      }
    }
  }

  /** done() on the top builder, whose object starts at `at`, leaves the bytes of an element in the builder below. */
  lemma LaidPop(c: seq<byte>, s: seq<Level>, starts: seq<seq<byte>>, before: seq<byte>, at: nat)
    requires Laid(c, s, starts, before) && 1 < |s| && at + 4 == |starts[|s| - 1]|
    ensures |c| + 1 - at == |EncodeDoc(s[|s| - 1].fields)|
    ensures Laid(c[..at] + I32(|c| + 1 - at) + (c[at + 4..] + [0]), Popped(s), starts[..|s| - 1], before)
  {
    hide EncodeFields, EncodeDoc, EncodeField, Header, I32;
    var n, top := |s| - 1, s[|s| - 1];
    var below := starts[n - 1] + EncodeFields(s[n - 1].fields);
    var prev := below + Header(3, top.name);
    assert Follows(starts[n], prev);
    DocLength(top.fields);
    Assembled(prev, starts[n], top.fields);
    ObjectBytes(top.name, top.fields);
    Assoc(below, Header(3, top.name), EncodeDoc(top.fields));
    LaidPrefix(s, starts, before);
    LaidAppend(below, s[..n], starts[..n], before, Field(top.name, Object(top.fields)));
  }

  lemma LaidPrefix(s: seq<Level>, starts: seq<seq<byte>>, before: seq<byte>)
    requires Chain(s, starts, before) && 1 < |s|
    ensures var n := |s| - 1; Laid(starts[n - 1] + EncodeFields(s[n - 1].fields), s[..n], starts[..n], before)
  {
    hide EncodeFields, Follows, Header;
    var n := |s| - 1;
    forall i | 0 < i < n
      ensures Follows(starts[..n][i], starts[..n][i - 1] + EncodeFields(s[..n][i - 1].fields) + Header(3, s[..n][i].name))
    {
    }
  }

  /** What the buffer still lacks is an end marker for each open builder. */
  lemma {:induction false} LaidLength(c: seq<byte>, s: seq<Level>, starts: seq<seq<byte>>, before: seq<byte>)
    requires Laid(c, s, starts, before)
    ensures |c| + |s| - 1 == |before| + Weight(s)
    decreases |s|
  {
    hide EncodeFields, EncodeField, Popped;
    if |s| > 1 {
      var n := |s| - 1;
      var below := starts[n - 1] + EncodeFields(s[n - 1].fields);
      LaidPrefix(s, starts, before);
      LaidLength(below, s[..n], starts[..n], before);
      assert Follows(starts[n], below + Header(3, s[n].name));
      PoppedWhole(s);
      PoppedWeight(s);
    }
  }

  lemma PoppedWeight(s: seq<Level>)
    requires 1 < |s|
    ensures var n := |s| - 1; Weight(Popped(s)) == Weight(s[..n]) + |s[n].name| + 2 + |EncodeFields(s[n].fields)| + 5
  {
    hide EncodeFields, EncodeField;
    var n := |s| - 1;
    AppendWeight(s[..n], Field(s[n].name, Object(s[n].fields)));
    ObjectLength(s[n].name, s[n].fields);
  }

  // ---------------------------------------------------------------- exceptions

  /** Something is too long for a BSONObj, or half of the buffer's limit is not enough. */
  ghost predicate Excused(s: seq<Level>, before: seq<byte>)
    requires s != []
  {
    !LevelsFit(s) || BUFFER_MAX < 2 * (|before| + Weight(s))
  }

  /** Once an exception has been thrown there was reason to; until then everything fits and the bytes `c` of the buffer are
      those that have been appended. */
  ghost predicate Accounted(thrown: bool, c: seq<byte>, s: seq<Level>, starts: seq<seq<byte>>, before: seq<byte>)
    requires s != []
  {
    if thrown then Excused(s, before) else LevelsFit(s) && Laid(c, s, starts, before)
  }

  lemma AccountPush(was: bool, c: seq<byte>, s: seq<Level>, starts: seq<seq<byte>>, before: seq<byte>, n: seq<byte>,
                    thrown: bool, started: seq<byte>)
    requires s != [] && Accounted(was, c, s, starts, before) && (was ==> thrown)
    requires !was && 2 * (|c| + |n| + 6) <= BUFFER_MAX ==> !thrown
    requires !thrown ==> Follows(started, c + Header(3, n))
    ensures Accounted(thrown, started, s + [Level(n, [])], starts + [started], before)
  {
    hide LevelsFit, Weight, Laid, Header, Follows;
    PushWeight(s, n);
    LevelsFitMore(s, Level(n, []));
    if !was {
      LaidLength(c, s, starts, before);
    }
    if !thrown {
      LaidPush(c, s, starts, before, n, started);
    }
  }

  lemma StartsInside(c: seq<byte>, s: seq<Level>, starts: seq<seq<byte>>, before: seq<byte>)
    requires s != [] && Accounted(false, c, s, starts, before)
    ensures |starts| == |s| && |starts[|s| - 1]| <= |c|
  {
    hide EncodeFields, LevelsFit;
  }

  lemma AccountPop(was: bool, c: seq<byte>, s: seq<Level>, starts: seq<seq<byte>>, before: seq<byte>, at: nat, thrown: bool,
                   d: seq<byte>)
    requires 1 < |s| == |starts| && Accounted(was, c, s, starts, before) && (was ==> thrown)
    requires !was ==> at + 4 == |starts[|s| - 1]| <= |c|
    requires !was && 2 * (|c| + 1) <= BUFFER_MAX && |c| + 1 - at <= LIMIT ==> !thrown
    requires !thrown ==> |c| + 1 - at <= LIMIT && d == c[..at] + I32(|c| + 1 - at) + (c[at + 4..] + [0])
    ensures Accounted(thrown, d, Popped(s), starts[..|s| - 1], before)
  {
    hide LevelsFit, Weight, Laid, I32, Popped, EncodeFields, Whole;
    PopFits(s);
    PopWeight(s);
    if !was {
      LaidLength(c, s, starts, before);
      LaidPop(c, s, starts, before, at);
    }
  }

  lemma PopWeight(s: seq<Level>)
    requires 1 < |s|
    ensures Weight(Popped(s)) == Weight(s)
  {
    hide Whole;
    PoppedWhole(s);
  }

  lemma AccountAppend(was: bool, c: seq<byte>, s: seq<Level>, starts: seq<seq<byte>>, before: seq<byte>, f: Field, thrown: bool,
                      d: seq<byte>)
    requires s != [] && Accounted(was, c, s, starts, before) && (was ==> thrown) && ValueFits(f.value)
    requires !was && 2 * (|c| + |EncodeField(f)|) <= BUFFER_MAX ==> !thrown
    requires !thrown ==> d == c + EncodeField(f)
    ensures Accounted(thrown, d, AppendTo(s, f), starts, before)
  {
    hide LevelsFit, Weight, Laid, EncodeField, ValueFits;
    AppendWeight(s, f);
    AppendFits(s, f);
    if !was {
      LaidLength(c, s, starts, before);
      LaidAppend(c, s, starts, before, f);
    }
  }

  /** All builders but the bottom one are done. */
  lemma OneLevel(thrown: bool, c: seq<byte>, l: Level, starts: seq<seq<byte>>, before: seq<byte>)
    requires Accounted(thrown, c, [l], starts, before)
    ensures thrown ==> !DocFits(l.fields) || BUFFER_MAX < 2 * (|before| + |EncodeFields(l.fields)|)
    ensures !thrown ==> DocFits(l.fields) && c == before + EncodeFields(l.fields)
  {
    hide DocFits, EncodeFields;
    WholeOne(l);
    assert LevelsFit([l]) <==> DocFits([l][0].fields);
  }
}
