/** What the JSON grammar accepts, and the document it stands for. */
module JsonGrammar {
  import opened Bytes
  import opened Document
  import opened BsonFormat
  import opened JsonText

  /** The result of a rule: a value and the place behind it, failure, or one of the alternatives that are not part of this
      model: real numbers, dates, object ids, binary data, regular expressions, and references that are not objects. */
  datatype Parsed<T> = Ok(v: T, next: nat) | Fail | Unsupported

  predicate IsSpace(c: byte) { c == SPACE || 9 <= c <= 13 }

  predicate IsAlpha(c: byte) { 65 <= c <= 90 || 97 <= c <= 122 }

  /** The skipper: the next place that is no white space. */
  function Skip(t: seq<byte>, pos: nat): (p: nat)
    requires pos <= |t|
    ensures pos <= p <= |t|
    decreases |t| - pos
  {
    if pos < |t| && IsSpace(t[pos]) then Skip(t, pos + 1) else pos
  }

  predicate At(t: seq<byte>, p: nat, c: byte) { p < |t| && t[p] == c }

  // ---------------------------------------------------------------- strings

  /** fromHex; not a digit gives 16. */
  function HexValue(c: byte): nat {
    if IsDigit(c) then c - 48 else if 97 <= c <= 102 then c - 87 else if 65 <= c <= 70 then c - 55 else 16
  }

  predicate Hex4(t: seq<byte>, p: nat) {
    p + 4 <= |t| && forall i :: p <= i < p + 4 ==> HexValue(t[i]) < 16
  }

  /** chU: a code unit in UTF-8. */
  function Utf8(first: byte, second: byte): seq<byte> {
    if first == 0 && second < 0x80 then [second]
    else if first < 0x08 then [0xc0 + first * 4 + second / 64, 0x80 + second % 64]
    else [0xe0 + first / 16, 0x80 + (first * 4 + second / 64) % 64, 0x80 + second % 64]
  }

  /** chE, for the letters that have a meaning. */
  function EscapeLetter(c: byte): seq<byte> {
    if c == 98 then [8] else if c == 102 then [12] else if c == 110 then [10] else if c == 114 then [13]
    else if c == 116 then [9] else if c == 118 then [11] else []
  }

  /** One character inside quotes, escaped or not: its bytes and the place behind it; the same place if there is none. */
  function Char(t: seq<byte>, i: nat): (r: (seq<byte>, nat))
    requires i < |t|
    ensures i <= r.1 <= |t|
  {
    if t[i] == BACKSLASH then
      if i + 1 == |t| then ([], i)
      else if EscapeLetter(t[i + 1]) != [] then (EscapeLetter(t[i + 1]), i + 2)
      else if t[i + 1] == 117 && Hex4(t, i + 2) then
        (Utf8(HexValue(t[i + 2]) * 16 + HexValue(t[i + 3]), HexValue(t[i + 4]) * 16 + HexValue(t[i + 5])), i + 6)
      else if t[i + 1] != 120 && !IsDigit(t[i + 1]) then ([t[i + 1]], i + 2)
      else ([], i)
    else if t[i] <= 0x1f then ([], i)
    else ([t[i]], i + 1)
  }

  /** The characters of `str` or `singleQuoteStr` behind the opening quote `q`. */
  function Chars(t: seq<byte>, pos: nat, q: byte): (r: Parsed<seq<byte>>)
    ensures r.Ok? ==> pos < r.next <= |t|
    decreases |t| - pos
  {
    if |t| <= pos then Fail
    else if t[pos] == q then Ok([], pos + 1)
    else
      var c := Char(t, pos);
      if c.1 == pos then Fail else Before(c.0, Chars(t, c.1, q))
  }

  function Before(s: seq<byte>, r: Parsed<seq<byte>>): Parsed<seq<byte>> {
    if r.Ok? then Ok(s + r.v, r.next) else r
  }

  lemma OneChar(t: seq<byte>, i: nat, q: byte)
    ensures |t| <= i ==> Chars(t, i, q).Fail?
    ensures i < |t| && t[i] == q ==> Chars(t, i, q) == Ok([], i + 1)
    ensures i < |t| && t[i] != q && Char(t, i).1 == i ==> Chars(t, i, q).Fail?
    ensures i < |t| && t[i] != q && Char(t, i).1 != i ==> Chars(t, i, q) == Before(Char(t, i).0, Chars(t, Char(t, i).1, q))
  {
    hide Char;
  }

  // ---------------------------------------------------------------- names

  predicate NameChar(c: byte, first: bool) {
    IsAlpha(c) || c == 36 || c == 95 || (!first && IsDigit(c))
  }

  /** The end of an unquoted name. */
  function NameEnd(t: seq<byte>, pos: nat): (e: nat)
    requires pos <= |t|
    ensures pos <= e <= |t|
    decreases |t| - pos
  {
    if pos < |t| && NameChar(t[pos], false) then NameEnd(t, pos + 1) else pos
  }

  /** fieldName: quoted either way, and then not reserved; or an identifier. The name ends at its first zero byte. */
  function Name(t: seq<byte>, pos: nat): (r: Parsed<seq<byte>>)
    requires pos <= |t|
    ensures r.Ok? ==> pos < r.next <= |t|
  {
    var p := Skip(t, pos);
    if p == |t| then Fail
    else if t[p] == QUOTE || t[p] == 39 then
      var r := Chars(t, p + 1, t[p]);
      if r.Ok? && Reserved(r.v) then Fail else if r.Ok? then Ok(CStr(r.v), r.next) else r
    else if NameChar(t[p], true) then Ok(CStr(t[p..NameEnd(t, p + 1)]), NameEnd(t, p + 1))
    else Fail
  }

  // ---------------------------------------------------------------- numbers

  function DigitsEnd(t: seq<byte>, pos: nat): (e: nat)
    requires pos <= |t|
    ensures pos <= e <= |t|
    ensures forall i :: pos <= i < e ==> IsDigit(t[i])
    decreases |t| - pos
  {
    if pos < |t| && IsDigit(t[pos]) then DigitsEnd(t, pos + 1) else pos
  }

  function DecimalValue(s: seq<byte>): nat
    requires forall i :: 0 <= i < |s| ==> IsDigit(s[i])
  {
    if s == [] then 0
    else
      assert IsDigit(s[|s| - 1]);
      10 * DecimalValue(s[..|s| - 1]) + s[|s| - 1] as int - 48
  }

  /** number and integer: a sign and up to 19 digits, in the range of a long; an int if it fits. */
  function Number(t: seq<byte>, p: nat): (r: Parsed<Value>)
    requires p < |t|
    ensures r.Ok? ==> p < r.next <= |t|
  {
    var negative := t[p] == MINUS;
    var p1 := if negative || t[p] == 43 then p + 1 else p;
    var e := DigitsEnd(t, p1);
    if e < |t| && (t[e] == 46 || t[e] == 69 || t[e] == 101) then Unsupported
    else if e == p1 then Fail
    else
      var e1 := if p1 + 19 < e then p1 + 19 else e;
      assert forall i :: 0 <= i < e1 - p1 ==> t[p1..e1][i] == t[p1 + i];
      var magnitude: int := DecimalValue(t[p1..e1]);
      Ranged(if negative then -magnitude else magnitude, e1)
  }

  /** intValue: an int if the number fits one. */
  function Ranged(n: int, next: nat): Parsed<Value> {
    if -TWO31 <= n < TWO31 then Ok(Int(n), next) else if -TWO63 <= n < TWO63 then Ok(Long(n), next) else Fail
  }

  // ---------------------------------------------------------------- values

  function Literal(n: seq<byte>): (l: seq<byte>)
    ensures |l| == |n| + 2
  {
    [QUOTE] + n + [QUOTE]
  }

  /** The quoted names that start an alternative to an object which is not part of this model. */
  predicate SpecialAt(t: seq<byte>, p: nat) {
    || Holds(t, p, Literal(DATE_NAME)) || Holds(t, p, Literal(OID_NAME))
    || Holds(t, p, Literal(BINARY_NAME)) || Holds(t, p, Literal(REGEX_NAME))
  }

  /** 24 hexadecimal digits in quotes. */
  predicate QuotedOid(t: seq<byte>, p: nat) {
    p + 26 <= |t| && t[p] == QUOTE && t[p + 25] == QUOTE && IsOid(t[p + 1..p + 25])
  }

  predicate IsOid(s: seq<byte>) {
    |s| == 24 && forall i :: 0 <= i < 24 ==> HexValue(s[i]) < 16
  }

  /** stringToOid */
  function OidOf(s: seq<byte>): (oid: seq<byte>)
    requires IsOid(s)
    ensures |oid| == 12
  {
    seq(12, i requires 0 <= i < 12 => HexValue(s[2 * i]) * 16 + HexValue(s[2 * i + 1]))
  }

  /** dbrefS behind the brace: the name space. */
  function RefAt(t: seq<byte>, pos: nat): (r: Parsed<Value>)
    requires pos <= |t|
    ensures r.Ok? ==> pos < r.next <= |t|
  {
    var p := Skip(t, pos);
    if !Holds(t, p, Literal(REF_NAME)) then Fail
    else
      var p1 := Skip(t, p + |Literal(REF_NAME)|);
      if !At(t, p1, COLON) then Fail
      else
        var p2 := Skip(t, p1 + 1);
        if !At(t, p2, QUOTE) then Fail
        else
          var ns := Chars(t, p2 + 1, QUOTE);
          if ns.Ok? then RefIdAt(t, ns.next, ns.v) else Fail
  }

  /** The rest of dbrefS. */
  function RefIdAt(t: seq<byte>, pos: nat, ns: seq<byte>): (r: Parsed<Value>)
    requires pos <= |t|
    ensures r.Ok? ==> pos < r.next <= |t|
  {
    var p := Skip(t, pos);
    if !At(t, p, COMMA) then Fail
    else
      var id := IdAt(t, p + 1);
      if id.Ok? then Ok(DBRef(ns, OidOf(id.v)), id.next) else Fail
  }

  /** The digits of the object id, and the closing brace. */
  function IdAt(t: seq<byte>, pos: nat): (r: Parsed<seq<byte>>)
    requires pos <= |t|
    ensures r.Ok? ==> pos < r.next <= |t| && IsOid(r.v)
  {
    var p := Skip(t, pos);
    if !Holds(t, p, Literal(ID_NAME)) then Fail
    else
      var p1 := Skip(t, p + |Literal(ID_NAME)|);
      if !At(t, p1, COLON) then Fail
      else
        var p2 := Skip(t, p1 + 1);
        if !QuotedOid(t, p2) then Fail
        else
          var p3 := Skip(t, p2 + 26);
          if At(t, p3, RBRACE) then Ok(t[p2 + 1..p2 + 25], p3 + 1) else Fail
  }

  function ValueAt(t: seq<byte>, pos: nat): (r: Parsed<Value>)
    requires pos <= |t|
    ensures r.Ok? ==> pos < r.next <= |t|
    decreases |t| - pos, 1
  {
    var p := Skip(t, pos);
    if p == |t| then Fail
    else
      var c := t[p];
      if c == QUOTE || c == 39 then
        var r := Chars(t, p + 1, c);
        if r.Ok? then Ok(Str(r.v), r.next) else if r.Fail? then Fail else Unsupported
      else if IsDigit(c) || c == MINUS || c == 43 || c == 46 then Number(t, p)
      else if c == LBRACKET then
        AsArray(Bracketed(t, p + 1))
      else if Holds(t, p, TRUE_TEXT) then Ok(Bool(true), p + 4)
      else if Holds(t, p, FALSE_TEXT) then Ok(Bool(false), p + 5)
      else if Holds(t, p, NULL_TEXT) then Ok(Null, p + 4)
      else if c == 68 || c == 79 || c == 47 || c == 110 then Unsupported
      else if c == LBRACE then
        if SpecialAt(t, Skip(t, p + 1)) then Unsupported
        else if RefAt(t, p + 1).Ok? then RefAt(t, p + 1)
        else AsObject(Braced(t, p + 1))
      else Fail
  }

  function AsArray(r: Parsed<Doc>): Parsed<Value> {
    if r.Ok? then Ok(Array(r.v), r.next) else if r.Fail? then Fail else Unsupported
  }

  function AsObject(r: Parsed<Doc>): Parsed<Value> {
    if r.Ok? then Ok(Object(r.v), r.next) else if r.Fail? then Fail else Unsupported
  }

  /** An object behind its opening brace. */
  function Braced(t: seq<byte>, pos: nat): (r: Parsed<Doc>)
    requires pos <= |t|
    ensures r.Ok? ==> pos < r.next <= |t|
    decreases |t| - pos, 2
  {
    if At(t, Skip(t, pos), RBRACE) then Ok([], Skip(t, pos) + 1) else Members(t, pos)
  }

  /** An array behind its opening bracket. */
  function Bracketed(t: seq<byte>, pos: nat): (r: Parsed<Doc>)
    requires pos <= |t|
    ensures r.Ok? ==> pos < r.next <= |t|
    decreases |t| - pos, 3
  {
    if At(t, Skip(t, pos), RBRACKET) then Ok([], Skip(t, pos) + 1) else Items(t, pos, 0)
  }

  /** fieldName >> ':' >> value */
  function Member(t: seq<byte>, pos: nat): (r: Parsed<Field>)
    requires pos <= |t|
    ensures r.Ok? ==> pos < r.next <= |t|
    decreases |t| - pos, 0
  {
    var name := Name(t, pos);
    if !name.Ok? then (if name.Fail? then Fail else Unsupported)
    else
      var p := Skip(t, name.next);
      if !At(t, p, COLON) then Fail
      else
        var value := ValueAt(t, p + 1);
        if value.Ok? then Ok(Field(name.v, value.v), value.next) else if value.Fail? then Fail else Unsupported
  }

  /** One or more members, and the closing brace. */
  function Members(t: seq<byte>, pos: nat): (r: Parsed<Doc>)
    requires pos <= |t|
    ensures r.Ok? ==> pos < r.next <= |t|
    decreases |t| - pos, 1
  {
    var f := Member(t, pos);
    if !f.Ok? then (if f.Fail? then Fail else Unsupported)
    else
      var q := Skip(t, f.next);
      if At(t, q, RBRACE) then Ok([f.v], q + 1)
      else if At(t, q, COMMA) then Prepend(f.v, Members(t, q + 1))
      else Fail
  }

  /** One or more array elements, named by their indexes, and the closing bracket. */
  function Items(t: seq<byte>, pos: nat, index: nat): (r: Parsed<Doc>)
    requires pos <= |t|
    ensures r.Ok? ==> pos < r.next <= |t|
    decreases |t| - pos, 2
  {
    var value := ValueAt(t, pos);
    if !value.Ok? then (if value.Fail? then Fail else Unsupported)
    else
      var q := Skip(t, value.next);
      if At(t, q, RBRACKET) then Ok([Field(Digits(index), value.v)], q + 1)
      else if At(t, q, COMMA) then Prepend(Field(Digits(index), value.v), Items(t, q + 1, index + 1))
      else Fail
  }

  function Prepend(f: Field, r: Parsed<Doc>): Parsed<Doc> {
    if r.Ok? then Ok([f] + r.v, r.next) else r
  }

  /** One object with only white space behind it. A BSONObj is constructed on it, and on each embedded object, which throws
      if it is too long. */
  function Whole(t: seq<byte>): Parsed<Doc> {
    var p := Skip(t, 0);
    if !At(t, p, LBRACE) then Fail
    else
      var r := Braced(t, p + 1);
      if r.Ok? && (Skip(t, r.next) != |t| || LIMIT < |EncodeDoc(r.v)|) then Fail else r
  }

  /** fromjson: nothing is the empty document. */
  function FromJson(str: seq<byte>): Parsed<Doc> {
    var t := CStr(str);
    if t == [] then Ok([], 0) else Whole(t)
  }
}
