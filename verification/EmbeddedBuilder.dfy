/** EmbeddedBuilder: nested builders on one buffer, opened and finished as dotted names come in. */
module EmbeddedBuilder {
  import opened Bytes
  import opened Document
  import opened BsonFormat
  import opened BsonRoundTrip
  import opened BsonBuilder
  import opened DottedDocs
  import opened EmbeddedStack

  datatype Open = Open(name: seq<byte>, builder: BSONObjBuilder)

  /** The open builders are those of the levels, on one buffer. */
  predicate Matches(os: seq<Open>, b: BufBuilder, s: seq<Level>) {
    |os| == |s| && forall i :: 0 <= i < |os| ==> os[i].builder.b == b && os[i].name == s[i].name
  }

  predicate Apart(os: seq<Open>) {
    forall i, j :: 0 < i < j < |os| ==> os[i].builder != os[j].builder
  }

  /** The builders know where their objects start. */
  predicate InPlace(os: seq<Open>, starts: seq<seq<byte>>) {
    |os| == |starts| && forall i :: 0 < i < |os| ==> os[i].builder.offset + 4 == |starts[i]|
  }

  lemma Pushed(os: seq<Open>, o: Open, b: BufBuilder, s: seq<Level>)
    requires os != [] && Matches(os, b, s) && o.builder.b == b && Apart(os)
    requires forall i :: 0 < i < |os| ==> os[i].builder != o.builder
    ensures Matches(os + [o], b, s + [Level(o.name, [])]) && Apart(os + [o])
  {
  }

  lemma PoppedOff(os: seq<Open>, b: BufBuilder, s: seq<Level>, starts: seq<seq<byte>>)
    requires 1 < |s| == |starts| && Matches(os, b, s) && Apart(os)
    ensures Matches(os[..|os| - 1], b, Popped(s)) && Apart(os[..|os| - 1])
    ensures InPlace(os, starts) ==> InPlace(os[..|os| - 1], starts[..|s| - 1])
  {
    hide Popped;
    PoppedNames(s);
  }

  lemma Top(os: seq<Open>, b: BufBuilder, s: seq<Level>)
    requires os != [] && Matches(os, b, s)
    ensures os[|os| - 1].builder.b == b
  {
  }

  class EmbeddedBuilder {
    var builders: seq<Open>
    /** The buffer they share, and what it held at the start. */
    ghost const b: BufBuilder
    ghost const before: seq<byte>
    /** What has been appended to each builder, and the buffer when it started. */
    ghost var levels: seq<Level>
    ghost var starts: seq<seq<byte>>

    /** The builders that this object has opened. */
    ghost var nested: set<BSONObjBuilder>

    ghost predicate InStep()
      reads this, nested
    {
      && |builders| == |levels| == |starts| && levels != [] && Matches(builders, b, levels) && Apart(builders)
      && forall i :: 0 < i < |builders| ==> builders[i].builder in nested && !builders[i].builder.doneCalled
    }

    ghost function Bytes(): seq<byte>
      requires b.Valid()
      reads b, b.data
    {
      if b.thrown then [] else b.Contents()
    }

    ghost predicate Valid()
      reads this, nested, b, b.data
    {
      && levels != [] && |builders| == |levels|
      && InStep() && b.Valid() && Accounted(b.thrown, Bytes(), levels, starts, before)
      && (b.thrown || (b.size <= BUFFER_MAX && InPlace(builders, starts)))
    }

    constructor (nb: BSONObjBuilder)
      requires nb.b.Valid() && !nb.b.thrown && nb.b.size <= BUFFER_MAX
      ensures Valid() && b == nb.b && before == nb.b.Contents() && levels == [Level([], [])] && nested == {}
    {
      builders, nested := [Open([], nb)], {};
      b, before, levels, starts := nb.b, nb.b.Contents(), [Level([], [])], [nb.b.Contents()];
      new;
      NoFields([]);
      assert b.Contents() + [] == b.Contents();
    }

    /** A builder for the embedded object `name`, in the same buffer. */
    method AddBuilder(name: seq<byte>)
      requires Valid() && |name| <= LIMIT
      modifies this, b, b.data
      ensures Valid() && levels == old(levels) + [Level(name, [])] && fresh(nested - old(nested))
      ensures b.data == old(b.data) || fresh(b.data)
    {
      hide Accounted, Header, BufBuilder.Contents, Laid, Matches, Apart;
      ghost var s := levels;
      Top(builders, b, s);
      var newBuilder := builders[|builders| - 1].builder.Sub(3, name);
      AccountPush(old(b.thrown), old(Bytes()), s, starts, before, name, b.thrown, Bytes());
      Pushed(builders, Open(name, newBuilder), b, s);
      builders, nested := builders + [Open(name, newBuilder)], nested + {newBuilder};
      levels, starts := s + [Level(name, [])], starts + [Bytes()];
    }

    /** The top builder is done: its object is complete in the builder below. */
    method PopBuilder()
      requires Valid() && 1 < |builders|
      modifies this, b, b.data, nested
      ensures Valid() && levels == Popped(old(levels)) && nested == old(nested)
      ensures b.data == old(b.data) || fresh(b.data)
    {
      hide Accounted, I32, Popped, BufBuilder.Contents, Matches;
      ghost var s, n := levels, |levels| - 1;
      Top(builders, b, s);
      if !b.thrown {
        StartsInside(b.Contents(), s, starts, before);
      }
      PoppedOff(builders, b, s, starts);
      var at := builders[|builders| - 1].builder.Done();
      AccountPop(old(b.thrown), old(Bytes()), s, starts, before, at, b.thrown, Bytes());
      builders := builders[..|builders| - 1];
      levels, starts := Popped(s), starts[..n];
    }

    /** The first loop of prepareContext: how far the name goes through the open builders. */
    method FindContext(name: seq<byte>) returns (onPath: bool, i: nat, rest: seq<byte>)
      requires Valid()
      ensures 1 <= i <= |levels| && (onPath <==> Throws(levels, name)) && |rest| <= |name|
      ensures !onPath ==>
        Prepare(levels, name) == Onto(levels[..i - 1], OpenPath(Level(levels[i - 1].name, Whole(levels[i - 1..])), rest))
    {
      hide InContext, Whole, Throws, Prepare, OpenPath, Onto, Accounted, InPlace, Bytes;
      rest, onPath, i := name, false, 1;
      assert levels[..0] == [] && levels[0..] == levels;
      if !Throws(levels, name) {
        OntoNothing(Prepare(levels, name));
      }
      while i < |builders| && InContext(builders[i].name, rest)
        invariant 1 <= i <= |builders| && |rest| <= |name|
        invariant Throws(levels, name) == Throws(levels[i - 1..], rest)
        invariant !Throws(levels, name) ==> Prepare(levels, name) == Onto(levels[..i - 1], Prepare(levels[i - 1..], rest))
        decreases |builders| - i
      {
        ghost var s := levels[i - 1..];
        assert s[1] == levels[i] && s[1..] == levels[i..] && s[..1] == [levels[i - 1]];
        StepIn(s, rest);
        if |rest| == |builders[i].name| {
          onPath := true;
          return;
        }
        HasRest(builders[i].name, rest);
        rest := rest[|builders[i].name| + 1..];
        if !Throws(s[1..], rest) {
          OntoOnto(levels[..i - 1], s[..1], Prepare(s[1..], rest));
          assert levels[..i - 1] + s[..1] == levels[..i];
        }
        i := i + 1;
      }
      assert i < |levels| ==> levels[i - 1..][1] == levels[i];
      StepOut(levels[i - 1..], rest);
    }

    /** The second loop: the builders from `i` up are done. */
    method PopFrom(i: nat)
      requires Valid() && 1 <= i <= |builders|
      modifies this, b, b.data, nested
      ensures Valid() && nested == old(nested) && (b.data == old(b.data) || fresh(b.data))
      ensures levels == old(levels)[..i - 1] + [Level(old(levels)[i - 1].name, Whole(old(levels)[i - 1..]))]
    {
      hide Whole, Accounted, InStep, InPlace, Bytes, Popped;
      var j := |builders| - 1;
      while i <= j
        invariant Valid() && i - 1 <= j && |builders| == j + 1 <= old(|builders|)
        invariant nested == old(nested) && (b.data == old(b.data) || fresh(b.data))
        invariant levels[..i - 1] == old(levels)[..i - 1] && levels[i - 1].name == old(levels)[i - 1].name
        invariant Whole(levels[i - 1..]) == Whole(old(levels)[i - 1..])
        decreases j
      {
        PoppedTail(levels, i - 1);
        PopBuilder();
        j := j - 1;
      }
      WholeOne(levels[i - 1]);
      assert levels[i - 1..] == [levels[i - 1]];
    }

    /** The third loop: a builder for each further component but the last. */
    method OpenFor(name: seq<byte>) returns (rest: seq<byte>)
      requires Valid() && |name| <= LIMIT
      modifies this, b, b.data
      ensures Valid() && fresh(nested - old(nested)) && (b.data == old(b.data) || fresh(b.data)) && |rest| <= |name|
      ensures var was := old(levels);
        Prepared(levels, rest) == Onto(was[..|was| - 1], OpenPath(was[|was| - 1], name))
    {
      hide OpenPath, SplitOff, Accounted, InStep, InPlace, Bytes, Onto;
      rest := name;
      ghost var all := Onto(levels[..|levels| - 1], OpenPath(levels[|levels| - 1], name));
      var next, left := SplitDot(rest);
      while next != []
        invariant Valid() && fresh(nested - old(nested)) && (b.data == old(b.data) || fresh(b.data)) && |rest| <= |name|
        invariant all == Onto(levels[..|levels| - 1], OpenPath(levels[|levels| - 1], rest))
        invariant (next, left) == SplitOff(rest)
        decreases |rest|
      {
        SplitLength(rest);
        OpenOne(levels, rest);
        AddBuilder(next);
        rest := left;
        next, left := SplitDot(rest);
      }
      SplitLength(rest);
      OpenNone(levels, rest);
      rest := left;
    }

    /** prepareContext: keep the builders the name goes through, finish the others, open those that are missing. */
    method PrepareContext(name: seq<byte>) returns (onPath: bool, rest: seq<byte>)
      requires Valid() && |name| <= LIMIT
      modifies this, b, b.data, nested
      ensures Valid() && fresh(nested - old(nested)) && (b.data == old(b.data) || fresh(b.data)) && |rest| <= |name|
      ensures onPath <==> Throws(old(levels), name)
      ensures !onPath ==> Prepared(levels, rest) == Prepare(old(levels), name)
    {
      hide Whole, Throws, OpenPath, Accounted, InStep, InPlace, Bytes;
      var i;
      onPath, i, rest := FindContext(name);
      if !onPath {
        PopFrom(i);
        assert levels[..|levels| - 1] == old(levels)[..i - 1];
        rest := OpenFor(rest);
      }
    }

    /** appendAs( e, name ), for an element of a BSONObj. */
    method AppendAs(f: Field) returns (onPath: bool)
      requires Valid() && |EncodeField(f)| <= LIMIT
      modifies this, b, b.data, nested
      ensures Valid() && fresh(nested - old(nested)) && (b.data == old(b.data) || fresh(b.data))
      ensures onPath <==> Throws(old(levels), Target(f))
      ensures !onPath ==> levels == Added(old(levels), f)
    {
      hide Throws, Prepare, Accounted, InStep, InPlace, Bytes, EncodeField;
      var rest;
      ElementLength(f, []);
      if f.value == Object([]) {
        onPath, rest := PrepareContext(f.name + FOO);
        return;
      }
      onPath, rest := PrepareContext(f.name);
      if !onPath {
        ElementLength(f, rest);
        Append(Field(rest, f.value));
      }
    }

    /** back()->appendAs( e, name ) */
    method Append(f: Field)
      requires Valid() && |EncodeField(f)| <= LIMIT
      modifies this, b, b.data
      ensures Valid() && nested == old(nested) && (b.data == old(b.data) || fresh(b.data))
      ensures levels == AppendTo(old(levels), f)
    {
      hide Accounted, EncodeField, BufBuilder.Contents;
      builders[|builders| - 1].builder.AppendAs(f.value, f.name);
      FieldFits(f);
      AccountAppend(old(b.thrown), old(Bytes()), levels, starts, before, f, b.thrown, Bytes());
      levels := AppendTo(levels, f);
    }

    /** done() */
    method Done()
      requires Valid()
      modifies this, b, b.data, nested
      ensures Valid() && levels == [Level(old(levels)[0].name, Whole(old(levels)))]
      ensures b.Valid() && (b.data == old(b.data) || fresh(b.data))
      ensures var d := Whole(old(levels));
        if b.thrown then !DocFits(d) || BUFFER_MAX < 2 * (|before| + |EncodeFields(d)|)
        else DocFits(d) && b.size <= BUFFER_MAX && b.Contents() == before + EncodeFields(d)
    {
      hide Whole, Accounted, InStep, InPlace, DocFits, EncodeFields;
      assert levels[0..] == levels;
      PopFrom(1);
      assert levels == [levels[0]];
      OneLevel(b.thrown, Bytes(), levels[0], starts, before);
    }
  }

  /** Under a name that is no longer, an element takes no more bytes. */
  lemma ElementLength(f: Field, n: seq<byte>)
    ensures |n| <= |f.name| ==> |EncodeField(Field(n, f.value))| <= |EncodeField(f)|
    ensures |f.name| + 2 <= |EncodeField(f)| && (f.value == Object([]) ==> |f.name| + 7 <= |EncodeField(f)|)
  {
    hide Payload, EncodeDoc;
    if f.value == Object([]) {
      ObjectLength(f.name, []);
      NoFields([]);
    }
  }

  /** Opening the first component and going on with the rest. */
  lemma OpenOne(s: seq<Level>, n: seq<byte>)
    requires s != [] && SplitOff(n).0 != []
    ensures var t := s + [Level(SplitOff(n).0, [])];
      Onto(s[..|s| - 1], OpenPath(s[|s| - 1], n)) == Onto(t[..|t| - 1], OpenPath(t[|t| - 1], SplitOff(n).1))
    ensures |SplitOff(n).1| < |n|
  {
    hide OpenPath, SplitOff, Onto;
    var t, top := s + [Level(SplitOff(n).0, [])], s[|s| - 1];
    OpenStep(top, n);
    OntoOnto(s[..|s| - 1], [top], OpenPath(Level(SplitOff(n).0, []), SplitOff(n).1));
    assert s[..|s| - 1] + [top] == s == t[..|t| - 1];
  }

  lemma OpenNone(s: seq<Level>, n: seq<byte>)
    requires s != [] && SplitOff(n).0 == []
    ensures Onto(s[..|s| - 1], OpenPath(s[|s| - 1], n)) == Prepared(s, SplitOff(n).1)
  {
    hide OpenPath, SplitOff;
    OpenStep(s[|s| - 1], n);
    assert s[..|s| - 1] + [s[|s| - 1]] == s;
  }

  lemma SplitLength(n: seq<byte>)
    ensures |SplitOff(n).0| <= |n| && |SplitOff(n).1| <= |n|
  {
  }

  /** splitDot: nothing, and the name unchanged, if there is no dot. */
  method SplitDot(n: seq<byte>) returns (first: seq<byte>, rest: seq<byte>)
    ensures (first, rest) == SplitOff(n)
  {
    var k := FirstDot(n);
    if k == |n| {
      return [], n;
    }
    return n[..k], n[k + 1..];
  }
}
