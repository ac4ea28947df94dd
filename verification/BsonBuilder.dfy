/** Building documents: nested builders write into one growing buffer and fill in their lengths when they are done. */
module BsonBuilder {
  import opened Bytes
  import opened Document
  import opened BsonFormat
  import opened BsonRoundTrip

  const BUFFER_MAX: int := 0x400_0000

  /** The size grow_reallocate() asks for when `l` bytes no longer fit in `size`. */
  function NewSize(size: nat, l: nat): nat {
    var a := if size == 0 then 512 else size * 2;
    if a < l then l + 16 * 1024 else a
  }

  /** 64 MB for a buffer, 16 MB and 16 KB for an object: a buffer takes any object with room to spare, whatever the sizes it
      has gone through. */
  lemma Limits()
    ensures BUFFER_MAX == 64 * 1024 * 1024 && LIMIT == (16 * 1024 + 16) * 1024 && 2 * (LIMIT + 4) <= BUFFER_MAX
  {
  }

  class BufBuilder {
    var data: array<byte>
    var l: nat
    var size: nat
    /** msgasserted() threw: nothing that follows runs. */
    var thrown: bool

    ghost predicate Valid()
      reads this
    {
      thrown || l <= size == data.Length
    }

    /** An int can count `n` more bytes. */
    ghost predicate Room(n: nat)
      reads this
    {
      Valid() && (thrown || l + n < TWO31)
    }

    ghost function Contents(): (s: seq<byte>)
      requires Valid() && !thrown
      reads this, data
      ensures |s| == l
    {
      data[..l]
    }

    /** `x` has been written behind what was there, unless the buffer would have outgrown its limit. Up to half of the
        limit it never does. */
    twostate predicate Appended(x: seq<byte>)
      requires old(Valid())
      reads this, data
    {
      Attempted(x, true)
    }

    /** The same for bytes with objects among them, on which a BSONObj is constructed: that throws unless they fit. */
    twostate predicate Attempted(x: seq<byte>, fits: bool)
      requires old(Valid())
      reads this, data
    {
      && Valid()
      && (old(thrown) ==> thrown)
      && (data == old(data) || fresh(data))
      && (!thrown ==> fits && Contents() == old(Contents()) + x)
      && (!thrown && old(size) <= BUFFER_MAX ==> size <= BUFFER_MAX)
      && (!old(thrown) && fits && 2 * (old(l) + |x|) <= BUFFER_MAX ==> !thrown)
    }

    constructor (initsize: nat)
      ensures Valid() && !thrown && fresh(data) && size == initsize && Contents() == []
    {
      data := new byte[initsize];
      l, size, thrown := 0, initsize, false;
    }

    method Grow(n: nat) returns (oldlen: nat)
      requires Valid() && !thrown && l + n < TWO31
      modifies this
      ensures Valid() && oldlen == old(l)
      ensures !thrown && old(size) <= BUFFER_MAX ==> size <= BUFFER_MAX
      ensures thrown <==> old(size) < old(l) + n && BUFFER_MAX < NewSize(old(size), old(l) + n)
      ensures !thrown ==> l == old(l) + n && data[..oldlen] == old(data[..l])
      ensures data == old(data) || fresh(data)
    {
      oldlen := l;
      l := l + n;
      if size < l {
        GrowReallocate(oldlen);
      }
    }

    /** realloc keeps the bytes of the old block. */
    method GrowReallocate(oldlen: nat)
      requires oldlen <= size == data.Length && size < l && !thrown
      modifies this
      ensures l == old(l) && (thrown <==> BUFFER_MAX < NewSize(old(size), l)) && (!thrown ==> size <= BUFFER_MAX)
      ensures !thrown ==> l <= size == data.Length && data[..oldlen] == old(data[..oldlen])
      ensures data == old(data) || fresh(data)
    {
      var a := size * 2;
      if a == 0 {
        a := 512;
      }
      if a < l {
        a := l + 16 * 1024;
      }
      if BUFFER_MAX < a {
        thrown := true;
        return;
      }
      var block := new byte[a];
      forall i | 0 <= i < size {
        block[i] := data[i];
      }
      assert block[..oldlen] == data[..oldlen];
      data := block;
      size := a;
    }

    /** appendBuf, and with it every append of a value of fixed size. */
    method AppendBuf(src: seq<byte>)
      requires Room(|src|)
      modifies this, data
      ensures Appended(src)
    {
      if thrown {
        return;
      }
      var at := Grow(|src|);
      if !thrown {
        forall i | 0 <= i < |src| {
          data[at + i] := src[i];
        }
        assert data[..l] == data[..at] + src;
      }
    }

    method AppendChar(c: byte)
      requires Room(1)
      modifies this, data
      ensures Appended([c])
    {
      AppendBuf([c]);
    }

    method AppendInt(n: int)
      requires Room(4)
      modifies this, data
      ensures Appended(I32(n))
    {
      AppendBuf(I32(n));
    }

    method AppendStr(s: seq<byte>)
      requires Room(|s| + 1)
      modifies this, data
      ensures Appended(s + [0])
    {
      AppendBuf(s + [0]);
    }

    /** Room for something to be filled in later. */
    method Skip(n: nat)
      requires Room(n)
      modifies this
      ensures Valid() && (old(thrown) ==> thrown)
      ensures !thrown ==> l == old(l) + n && Contents()[..old(l)] == old(Contents())
      ensures !thrown && old(size) <= BUFFER_MAX ==> size <= BUFFER_MAX
      ensures data == old(data) || fresh(data)
      ensures !old(thrown) && 2 * (old(l) + n) <= BUFFER_MAX ==> !thrown
    {
      if thrown {
        return;
      }
      var at := Grow(n);
    }

    method SetLen(newLen: nat)
      requires Valid() && !thrown && newLen <= l
      modifies this`l
      ensures Valid() && Contents() == old(Contents())[..newLen]
    {
      l := newLen;
    }

    /** *((int*)(data + at)) = n */
    method PutInt(at: nat, n: int)
      requires Valid() && !thrown && at + 4 <= l
      modifies data
      ensures Contents() == old(Contents()[..at]) + I32(n) + old(Contents()[at + 4..])
    {
      var w := I32(n);
      data[at], data[at + 1], data[at + 2], data[at + 3] := w[0], w[1], w[2], w[3];
      assert data[at..at + 4] == w;
      assert data[..l] == data[..at] + data[at..at + 4] + data[at + 4..l];
      assert data[..at] == old(data[..l])[..at] && data[at + 4..l] == old(data[..l])[at + 4..];
    }
  }

  class BSONObjBuilder {
    /** The buffer, shared with the builder of the enclosing object if there is one. */
    const b: BufBuilder
    /** Where this builder's object starts. */
    const offset: nat
    var doneCalled: bool

    ghost predicate Valid()
      reads this, b
    {
      b.Valid() && (b.thrown || offset + 4 <= b.l)
    }

    /** A builder of its own: room for the reference count and the length. */
    constructor (initsize: nat)
      ensures Valid() && fresh(b) && fresh(b.data)
      ensures !doneCalled && !b.thrown && offset == 4 && b.l == 8 && b.Contents()[..4] == [0, 0, 0, 0]
      ensures initsize + 4 <= BUFFER_MAX ==> b.size <= BUFFER_MAX
    {
      b := new BufBuilder(initsize + 4);
      offset := 4;
      doneCalled := false;
      new;
      b.AppendBuf([0, 0, 0, 0]);
      b.Skip(4);
    }

    /** A builder inside another: room for the length. */
    constructor Nested(base: BufBuilder)
      requires base.Room(4)
      modifies base
      ensures Valid() && b == base && offset == old(base.l) && !doneCalled
      ensures old(base.thrown) ==> base.thrown
      ensures !base.thrown ==> base.l == old(base.l) + 4 && base.Contents()[..offset] == old(base.Contents())
      ensures base.data == old(base.data) || fresh(base.data)
      ensures !base.thrown && old(base.size) <= BUFFER_MAX ==> base.size <= BUFFER_MAX
      ensures !old(base.thrown) && 2 * (old(base.l) + 4) <= BUFFER_MAX ==> !base.thrown
    {
      b := base;
      offset := base.l;
      doneCalled := false;
      new;
      b.Skip(4);
    }

    /** The type byte and the name: subobjStart, subarrayStart and the start of every other append. */
    method Start(code: byte, name: seq<byte>)
      requires b.Room(|name| + 2)
      modifies b, b.data
      ensures b.Appended(Header(code, name))
    {
      b.AppendChar(code);
      b.AppendStr(name);
      if !b.thrown {
        Assoc(old(b.Contents()), [code], name + [0]);
      }
    }

    /** BSONObjBuilder( subobjStart( name ) ), or subarrayStart: a builder for an embedded object. */
    method Sub(code: byte, name: seq<byte>) returns (child: BSONObjBuilder)
      requires b.Room(|name| + 6)
      modifies b, b.data
      ensures fresh(child) && child.b == b && child.Valid() && !child.doneCalled
      ensures (old(b.thrown) ==> b.thrown) && (b.data == old(b.data) || fresh(b.data))
      ensures !b.thrown && old(b.size) <= BUFFER_MAX ==> b.size <= BUFFER_MAX
      ensures !b.thrown ==> b.l == child.offset + 4
      ensures !b.thrown ==> b.Contents()[..child.offset] == old(b.Contents()) + Header(code, name)
      ensures !old(b.thrown) && 2 * (old(b.l) + |name| + 6) <= BUFFER_MAX ==> !b.thrown
    {
      hide Header;
      Start(code, name);
      child := new BSONObjBuilder.Nested(b);
    }

    /** doneFast(): the end marker, and the length of everything since the builder's start in the place left for it. */
    method DoneFast() returns (at: nat)
      requires Valid() && !doneCalled && b.Room(1)
      modifies this, b, b.data
      ensures Valid() && doneCalled && at == offset && (old(b.thrown) ==> b.thrown)
      ensures b.data == old(b.data) || fresh(b.data)
      ensures !b.thrown && old(b.size) <= BUFFER_MAX ==> b.size <= BUFFER_MAX
      ensures !b.thrown ==> var was := old(b.Contents());
        b.Contents() == was[..offset] + I32(|was| + 1 - offset) + (was[offset + 4..] + [0])
      ensures !old(b.thrown) && 2 * (old(b.l) + 1) <= BUFFER_MAX ==> !b.thrown
    {
      at := offset;
      doneCalled := true;
      b.AppendChar(0);
      if !b.thrown {
        var size := b.l - offset;
        b.PutInt(offset, size);
        ghost var was := old(b.Contents());
        assert (was + [0])[..offset] == was[..offset] && (was + [0])[offset + 4..] == was[offset + 4..] + [0];
      }
    }

    /** done() and obj(): a BSONObj on the finished object. */
    method Done() returns (at: nat)
      requires Valid() && !doneCalled && b.Room(1)
      modifies this, b, b.data
      ensures Valid() && doneCalled && at == offset && (old(b.thrown) ==> b.thrown)
      ensures b.data == old(b.data) || fresh(b.data)
      ensures !b.thrown && old(b.size) <= BUFFER_MAX ==> b.size <= BUFFER_MAX
      ensures !b.thrown ==> var was := old(b.Contents());
        && |was| + 1 - offset <= LIMIT
        && b.Contents() == was[..offset] + I32(|was| + 1 - offset) + (was[offset + 4..] + [0])
      ensures !old(b.thrown) && 2 * (old(b.l) + 1) <= BUFFER_MAX && old(b.l) + 1 - offset <= LIMIT ==> !b.thrown
    {
      hide I32, S32;
      at := DoneFast();
      if !b.thrown {
        ghost var was := old(b.Contents());
        StoredLength(was[..offset], |was| + 1 - offset, was[offset + 4..] + [0]);
      }
      CheckObject(at);
    }

    /** The constructor of a BSONObj on the object at `at`: isValid() looks at its size. */
    method CheckObject(at: nat)
      requires b.Valid() && (b.thrown || at + 4 <= b.l)
      modifies b`thrown
      ensures b.thrown <==> old(b.thrown) || !(0 < S32(old(b.Contents()), at) <= LIMIT)
    {
      hide S32;
      if !b.thrown {
        var size := S32(b.data[..b.l], at);
        b.thrown := !(0 < size <= LIMIT);
      }
    }

    /** asTempObj(): a look at the object so far. The builder can be appended to afterwards as if nothing had happened. */
    method AsTempObj() returns (obj: seq<byte>)
      requires Valid() && !doneCalled && !b.thrown && b.Room(1)
      modifies this, b, b.data
      ensures b.Valid() && (b.data == old(b.data) || fresh(b.data))
      ensures !b.thrown ==> Valid() && !doneCalled && b.l == old(b.l)
      ensures !b.thrown ==> var was := old(b.Contents());
        && |was| + 1 - offset <= LIMIT
        && obj == I32(|was| + 1 - offset) + (was[offset + 4..] + [0])
        && b.Contents()[..offset] == was[..offset] && b.Contents()[offset + 4..] == was[offset + 4..]
      ensures 2 * (old(b.l) + 1) <= BUFFER_MAX && old(b.l) + 1 - offset <= LIMIT ==> !b.thrown
    {
      hide I32;
      obj := [];
      var at := Done();
      if !b.thrown {
        ghost var was, len := old(b.Contents()), I32(old(b.l) + 1 - offset);
        obj := b.data[at..b.l];
        assert obj == len + (was[offset + 4..] + [0]);
        b.SetLen(b.l - 1);
        assert b.Contents() == was[..offset] + len + was[offset + 4..];
        doneCalled := false;
      }
    }

    /** Append every field of `d`. */
    method AppendFields(d: Doc)
      requires b.Room(|EncodeFields(d)|)
      modifies b, b.data
      ensures b.Attempted(EncodeFields(d), DocFits(d))
      decreases d, 1
    {
      hide EncodeField, ValueFits;
      var i := 0;
      while i < |d|
        invariant i <= |d| && b.Valid()
        invariant b.Attempted(EncodeFields(d[..i]), DocFits(d[..i]))
      {
        FieldsGrow(d, i);
        AppendField(d[i]);
        if !b.thrown {
          Assoc(old(b.Contents()), EncodeFields(d[..i]), EncodeField(d[i]));
        }
        i := i + 1;
      }
      assert d[..|d|] == d;
    }

    method AppendField(f: Field)
      requires b.Room(|EncodeField(f)|)
      modifies b, b.data
      ensures b.Attempted(EncodeField(f), ValueFits(f.value))
      decreases f, 0
    {
      hide Payload, TypeCode, ValueFits;
      Start(TypeCode(f.value), f.name);
      AppendValue(f.value);
      if !b.thrown {
        Assoc(old(b.Contents()), Header(TypeCode(f.value), f.name), Payload(f.value));
      }
    }

    /** appendAs(): the bytes of an element's value under another name. No BSONObj is constructed on them. */
    method AppendAs(v: Value, name: seq<byte>)
      requires b.Room(|EncodeField(Field(name, v))|)
      modifies b, b.data
      ensures b.Appended(EncodeField(Field(name, v)))
    {
      hide Payload, TypeCode;
      Start(TypeCode(v), name);
      b.AppendBuf(Payload(v));
      if !b.thrown {
        Assoc(old(b.Contents()), Header(TypeCode(v), name), Payload(v));
      }
    }

    method AppendValue(v: Value)
      requires b.Room(|Payload(v)|)
      modifies b, b.data
      ensures b.Attempted(Payload(v), ValueFits(v))
      decreases v, 0
    {
      hide I32, I64, Sized, EncodeDoc;
      match v {
        case MinKey =>
        case MaxKey =>
        case Undefined =>
        case Null =>
        case Double(n) => b.AppendBuf(I64(n));
        case Int(n) => b.AppendInt(n);
        case Long(n) => b.AppendBuf(I64(n));
        case Bool(x) => b.AppendChar(if x then 1 else 0);
        case Date(n) => b.AppendBuf(I64(n));
        case Timestamp(n) => b.AppendBuf(I64(n));
        case Oid(oid) => b.AppendBuf(oid);
        case Str(s) => AppendSized(s);
        case Symbol(s) => AppendSized(s);
        case Code(s) => AppendSized(s);
        case Object(d) => AppendObject(d);
        case Array(d) => AppendObject(d);
        case BinData(sub, data) => AppendBinData(sub, data);
        case RegEx(p, f) => AppendRegEx(p, f);
        case DBRef(ns, oid) => AppendDBRef(ns, oid);
        case CodeWScope(s, d) => AppendScoped(s, d);
      }
    }

    method AppendSized(s: seq<byte>)
      requires b.Room(|s| + 5)
      modifies b, b.data
      ensures b.Appended(Sized(s))
    {
      hide I32;
      b.AppendInt(|s| + 1);
      b.AppendStr(s);
      if !b.thrown {
        Assoc(old(b.Contents()), I32(|s| + 1), s + [0]);
      }
    }

    method AppendBinData(sub: byte, bytes: seq<byte>)
      requires b.Room(5 + |bytes|)
      modifies b, b.data
      ensures b.Appended(I32(|bytes|) + ([sub] + bytes))
    {
      hide I32;
      b.AppendInt(|bytes|);
      b.AppendChar(sub);
      b.AppendBuf(bytes);
      if !b.thrown {
        Assoc(old(b.Contents()), I32(|bytes|), [sub]);
        Assoc(I32(|bytes|), [sub], bytes);
        Assoc(old(b.Contents()), I32(|bytes|) + [sub], bytes);
      }
    }

    method AppendRegEx(p: seq<byte>, f: seq<byte>)
      requires b.Room(|p| + 1 + |f| + 1)
      modifies b, b.data
      ensures b.Appended((p + [0]) + (f + [0]))
    {
      b.AppendStr(p);
      b.AppendStr(f);
      if !b.thrown {
        Assoc(old(b.Contents()), p + [0], f + [0]);
      }
    }

    method AppendDBRef(ns: seq<byte>, oid: seq<byte>)
      requires b.Room(|ns| + 5 + |oid|)
      modifies b, b.data
      ensures b.Appended(Sized(ns) + oid)
    {
      hide Sized;
      AppendSized(ns);
      b.AppendBuf(oid);
      if !b.thrown {
        Assoc(old(b.Contents()), Sized(ns), oid);
      }
    }

    /** A builder for the embedded object, in the same buffer. */
    method AppendObject(d: Doc)
      requires b.Room(|EncodeDoc(d)|)
      modifies b, b.data
      ensures b.Attempted(EncodeDoc(d), |EncodeDoc(d)| <= LIMIT)
      decreases d, 2
    {
      hide I32, EncodeFields, EncodeDoc, DocFits;
      DocLength(d);
      PartsFit(d);
      var sub := new BSONObjBuilder.Nested(b);
      ghost var started := if b.thrown then [] else b.Contents();
      sub.AppendFields(d);
      var at := sub.Done();
      if !b.thrown {
        Assembled(old(b.Contents()), started, d);
      }
    }

    /** `obj` is an object built beforehand. */
    method AppendCodeWScope(s: seq<byte>, obj: seq<byte>)
      requires b.Room(4 + 4 + |s| + 1 + |obj|)
      modifies b, b.data
      ensures b.Appended(I32(4 + 4 + |s| + 1 + |obj|) + (Sized(s) + obj))
    {
      hide I32, Sized;
      b.AppendInt(4 + 4 + |s| + 1 + |obj|);
      AppendSized(s);
      b.AppendBuf(obj);
      if !b.thrown {
        Assoc(old(b.Contents()), I32(4 + 4 + |s| + 1 + |obj|), Sized(s));
        Assoc(I32(4 + 4 + |s| + 1 + |obj|), Sized(s), obj);
        Assoc(old(b.Contents()), I32(4 + 4 + |s| + 1 + |obj|) + Sized(s), obj);
      }
    }

    /** The scope is built in a buffer of its own. */
    method AppendScoped(s: seq<byte>, d: Doc)
      requires b.Room(4 + 4 + |s| + 1 + |EncodeDoc(d)|)
      modifies b, b.data
      ensures b.Attempted(I32(4 + 4 + |s| + 1 + |EncodeDoc(d)|) + (Sized(s) + EncodeDoc(d)), |EncodeDoc(d)| <= LIMIT)
      decreases d, 3
    {
      hide I32, EncodeDoc, Sized;
      if b.thrown {
        return;
      }
      var scope := new BSONObjBuilder(512);
      var at := scope.Build(d);
      if scope.b.thrown {
        b.thrown := true;
      } else {
        AppendCodeWScope(s, scope.b.data[at..scope.b.l]);
      }
    }

    /** Build all of `d` with a new builder, and take it with obj() or done(): the buffer then holds the reference count and
        exactly the bytes of `d`, if they are within the limit of a BSONObj. */
    method Build(d: Doc) returns (at: nat)
      requires Valid() && !doneCalled && !b.thrown && offset == 4 && b.l == 8 && b.Room(|EncodeDoc(d)| - 4)
      modifies this, b, b.data
      ensures b.Valid() && at == 4
      ensures !b.thrown <==> |EncodeDoc(d)| <= LIMIT
      ensures !b.thrown ==> 4 <= b.l && b.Contents() == old(b.Contents())[..4] + EncodeDoc(d)
      decreases d, 2
    {
      hide I32, EncodeFields, EncodeDoc, DocFits;
      DocLength(d);
      PartsFit(d);
      ghost var started := b.Contents();
      AppendFields(d);
      at := Done();
      if !b.thrown {
        Assembled(started[..at], started, d);
      }
    }
  }

  lemma DocLength(d: Doc)
    ensures |EncodeDoc(d)| == |EncodeFields(d)| + 5
  {
  }

  lemma StoredLength(before: seq<byte>, n: int, behind: seq<byte>)
    requires -TWO31 <= n < TWO31
    ensures S32(before + I32(n) + behind, |before|) == n
  {
    hide I32, S32;
    var b := before + I32(n) + behind;
    assert b[|before|..|before| + 4] == I32(n);
    IntRead(b, |before|, n);
  }

  /** In an object that fits, everything fits. */
  lemma PartsFit(d: Doc)
    ensures |EncodeDoc(d)| <= LIMIT ==> DocFits(d)
  {
    hide I32, EncodeFields, EncodeDoc, EncodeField, ValueFits;
    DocLength(d);
    forall i | 0 <= i < |d| && |EncodeDoc(d)| <= LIMIT ensures ValueFits(d[i].value) {
      FieldsGrow(d, i);
      FieldFits(d[i]);
    }
  }

  lemma FieldFits(f: Field)
    requires |EncodeField(f)| <= LIMIT
    ensures ValueFits(f.value)
  {
    hide I32, EncodeFields, EncodeDoc, Sized;
  }

  /** The length, the fields and the end marker, behind what was there before. */
  lemma Assembled(before: seq<byte>, started: seq<byte>, d: Doc)
    requires |started| == |before| + 4 && started[..|before|] == before
    ensures var was := started + EncodeFields(d);
      was[..|before|] + I32(|was| + 1 - |before|) + (was[|before| + 4..] + [0]) == before + EncodeDoc(d)
  {
    hide I32, EncodeFields;
    var was := started + EncodeFields(d);
    assert was[..|before|] == before && was[|before| + 4..] == EncodeFields(d);
    Assoc(before, I32(|was| + 1 - |before|), EncodeFields(d) + [0]);
  }

  lemma FieldsMore(d: Doc, f: Field)
    ensures EncodeFields(d + [f]) == EncodeFields(d) + EncodeField(f)
  {
    hide EncodeField;
    assert (d + [f])[..|d|] == d;
  }

  lemma OneField(f: Field)
    ensures EncodeFields([f]) == EncodeField(f) && (DocFits([f]) <==> ValueFits(f.value))
  {
    hide EncodeField, ValueFits;
    assert [f][..0] == [];
    assert [] + EncodeField(f) == EncodeField(f);
  }

  lemma {:induction false} EncodeAppend(d: Doc, e: Doc)
    ensures EncodeFields(d + e) == EncodeFields(d) + EncodeFields(e)
    decreases |e|
  {
    hide EncodeField;
    if e == [] {
      assert d + e == d && EncodeFields(d) + [] == EncodeFields(d);
    } else {
      var init, f := e[..|e| - 1], e[|e| - 1];
      EncodeAppend(d, init);
      assert (d + e)[..|d + e| - 1] == d + init && (d + e)[|d + e| - 1] == f;
      Assoc(EncodeFields(d), EncodeFields(init), EncodeField(f));
    }
  }

  lemma FieldsGrow(d: Doc, i: nat)
    requires i < |d|
    ensures EncodeFields(d[..i + 1]) == EncodeFields(d[..i]) + EncodeField(d[i])
    ensures |EncodeFields(d[..i + 1])| <= |EncodeFields(d)|
    decreases |d|
  {
    hide EncodeField;
    assert d[..i + 1][..i] == d[..i];
    if i + 1 < |d| {
      FieldsGrow(d[..|d| - 1], i);
      assert d[..|d| - 1][..i + 1] == d[..i + 1] && d[..|d| - 1][..i] == d[..i];
    } else {
      assert d[..i + 1] == d;
    }
  }
}
