/** jsonString and fromjson, and the round trip of text and bytes. */
module Json {
  import opened Bytes
  import opened Document
  import opened BsonFormat
  import opened BsonBuilder
  import opened JsonText
  import opened JsonBuilder
  import A = JsonAccepted
  import G = JsonGrammar
  import R = JsonRoundTrip

  // ---------------------------------------------------------------- printing

  /** BSONObj::jsonString */
  method JsonString(d: Doc, pretty: nat) returns (s: seq<byte>)
    ensures s == PrintDoc(d, pretty)
    decreases d, 1
  {
    hide PrintMember, PrintMembers, Between;
    if d == [] {
      return [LBRACE, RBRACE];
    }
    s := [LBRACE, SPACE];
    var i := 0;
    assert d[0..] == d;
    while i < |d|
      invariant i <= |d|
      invariant PrintDoc(d, pretty) == s + if i < |d| then PrintMembers(d[i..], pretty) else []
    {
      var e := MemberString(d[i], Deeper(pretty));
      MembersStep(s, d, i, pretty);
      s := s + e;
      if i + 1 == |d| {
        s := s + [SPACE, RBRACE];
      } else {
        s := s + [COMMA];
        s := s + Between(pretty);
      }
      i := i + 1;
    }
  }

  function BehindMember(d: Doc, i: nat, pretty: nat): seq<byte>
    requires i < |d|
  {
    if i + 1 == |d| then [SPACE, RBRACE] else [COMMA] + Between(pretty) + PrintMembers(d[i + 1..], pretty)
  }

  lemma MembersStep(s: seq<byte>, d: Doc, i: nat, pretty: nat)
    requires i < |d|
    ensures s + PrintMembers(d[i..], pretty) == s + PrintMember(d[i], Deeper(pretty)) + BehindMember(d, i, pretty)
  {
    hide PrintMember, Between;
    assert d[i..][1..] == d[i + 1..];
  }

  /** An element with its name. */
  method MemberString(f: Field, pretty: nat) returns (s: seq<byte>)
    ensures s == PrintMember(f, pretty)
    decreases f, 0
  {
    hide Escape;
    if f.value.Undefined? {
      return [];
    }
    s := [QUOTE];
    var name := EscapeString(CStr(f.name));
    s := s + name + [QUOTE] + [SPACE, COLON, SPACE];
    var v := ValueString(f.value, pretty);
    s := s + v;
    assert [QUOTE] + Escape(CStr(f.name)) + [QUOTE] + [SPACE, COLON, SPACE] + v == PrintMember(f, pretty);
  }

  /** BSONElement::jsonString, without the name. */
  method ValueString(v: Value, pretty: nat) returns (s: seq<byte>)
    ensures s == PrintValue(v, pretty)
    decreases v, 2
  {
    hide Escape, Digits, PrintDoc, PrintItems;
    match v {
      case Str(x) =>
        var e := EscapeString(x);
        s := [QUOTE] + e + [QUOTE];
      case Symbol(x) =>
        var e := EscapeString(x);
        s := [QUOTE] + e + [QUOTE];
      case Int(n) => s := IntText(n);
      case Long(n) => s := IntText(n);
      case Bool(b) => s := if b then TRUE_TEXT else FALSE_TEXT;
      case Null => s := NULL_TEXT;
      case Object(d) => s := JsonString(d, pretty);
      case Array(d) => s := ArrayString(d, pretty);
      case _ => s := [];
    }
  }

  method ArrayString(d: Doc, pretty: nat) returns (s: seq<byte>)
    ensures s == PrintValue(Array(d), pretty)
    decreases d, 1
  {
    hide PrintItems, Pad;
    if d == [] {
      return [LBRACKET, RBRACKET];
    }
    s := [LBRACKET, SPACE];
    var i := 0;
    assert d[0..] == d;
    while i < |d|
      invariant i <= |d|
      invariant PrintValue(Array(d), pretty) == s + if i < |d| then PrintItems(d[i..], pretty) else []
    {
      ItemsStep(s, d, i, pretty);
      s := s + Pad(pretty);
      var e := ValueString(d[i].value, Deeper(pretty));
      s := s + e;
      s := s + if i + 1 == |d| then [SPACE, RBRACKET] else [COMMA, SPACE];
      i := i + 1;
    }
  }

  function BehindItem(d: Doc, i: nat, pretty: nat): seq<byte>
    requires i < |d|
  {
    if i + 1 == |d| then [SPACE, RBRACKET] else [COMMA, SPACE] + PrintItems(d[i + 1..], pretty)
  }

  lemma ItemsStep(s: seq<byte>, d: Doc, i: nat, pretty: nat)
    requires i < |d|
    ensures s + PrintItems(d[i..], pretty) == s + Pad(pretty) + PrintValue(d[i].value, Deeper(pretty)) + BehindItem(d, i, pretty)
  {
    hide PrintValue, Pad;
    assert d[i..][1..] == d[i + 1..];
  }

  // ---------------------------------------------------------------- parsing

  /** The whole text into an empty stack of builders: afterwards all three stacks are empty again, and the buffer holds the
      bytes of the document. */
  method ParseWhole(ob: ObjectBuilder, t: seq<byte>) returns (r: Outcome, bytes: seq<byte>)
    requires TextFits(t) && ob.builders == [] && ob.InStep()
    modifies ob
    ensures Same(r, G.Whole(t))
    ensures r.Matched? ==> ob.builders == [] && ob.fieldNames == [] && ob.indexes == [] && bytes == EncodeDoc(G.Whole(t).v)
  {
    hide G.Braced, EncodeFields, EncodeDoc, CStr, DocFits;
    bytes := [];
    var p := G.Skip(t, 0);
    if !G.At(t, p, LBRACE) {
      r := NoMatch;
      return;
    }
    var root := ob.Init();
    var b := root.b;
    ghost var started := b.Contents();
    r := ParseBraced(ob, b, t, p + 1);
    if !r.Matched? {
      return;
    }
    if G.Skip(t, r.next) != |t| {
      r := NoMatch;
      return;
    }
    ghost var d := G.Braced(t, p + 1).v;
    DocLength(d);
    PartsFit(d);
    ob.PopDone(b, started[..4], started, d);
    if b.thrown {
      r := NoMatch;
      return;
    }
    bytes := b.data[4..b.l];
    assert b.Contents()[4..] == EncodeDoc(d);
  }

  const NO_FIELDS: seq<byte> := [5, 0, 0, 0, 0]

  lemma NoFieldsBytes()
    ensures EncodeDoc([]) == NO_FIELDS
  {
    hide I32;
    FiveBytes();
    assert EncodeFields([]) == [];
  }

  lemma FiveBytes()
    ensures I32(5) == [5, 0, 0, 0]
  {
    assert LE32(5) == [5, 0, 0, 0];
  }

  /** fromjson. The caller sees an exception wherever it does not match. */
  method FromJson(str: seq<byte>) returns (r: Outcome, bytes: seq<byte>)
    requires TextFits(str)
    ensures Same(r, G.FromJson(str))
    ensures r.Matched? <==> exists d :: A.Reads(str, d)
    ensures r.Matched? ==> forall d :: A.Reads(str, d) ==> bytes == EncodeDoc(d)
    ensures r.Matched? ==> bytes == EncodeDoc(G.FromJson(str).v)
  {
    hide G.Whole, EncodeDoc, CStr, A.Reads;
    A.Accepted(str);
    var t := CStr(str);
    if t == [] {
      NoFieldsBytes();
      return Matched(0), NO_FIELDS;
    }
    var ob := new ObjectBuilder();
    r, bytes := ParseWhole(ob, t);
  }

  /** Print a document and parse the text. If no name at any depth is reserved and the result fits, its bytes are those of
      what the text stands for, which is the document itself if text can tell it apart. Otherwise parsing fails, or meets a
      special form, which is not part of this model. */
  method PrintAndParse(d: Doc, pretty: nat) returns (text: seq<byte>, r: Outcome, bytes: seq<byte>)
    requires R.DocPrintable(d) && TextFits(PrintDoc(d, pretty))
    ensures text == PrintDoc(d, pretty)
    ensures r.Matched? <==> R.DocFine(d) && |EncodeDoc(R.CanonDoc(d))| <= LIMIT
    ensures r.Matched? ==> bytes == EncodeDoc(R.CanonDoc(d))
    ensures r.Matched? && R.DocCanonical(d) ==> bytes == EncodeDoc(d)
  {
    hide PrintDoc, EncodeDoc, R.DocPrintable, R.DocFine, R.DocPlain, R.CanonDoc, R.DocCanonical, G.FromJson, TextFits;
    text := JsonString(d, pretty);
    R.PrintThenParse(d, pretty);
    R.DocCanonIff(d);
    r, bytes := FromJson(text);
  }
}
