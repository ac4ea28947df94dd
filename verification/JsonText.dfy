/** Printing documents as JSON: escape() and jsonString(). */
module JsonText {
  import opened Bytes
  import opened Document

  const QUOTE: byte := 34
  const COMMA: byte := 44
  const COLON: byte := 58
  const BACKSLASH: byte := 92
  const LBRACKET: byte := 91
  const RBRACKET: byte := 93
  const LBRACE: byte := 123
  const RBRACE: byte := 125
  const SPACE: byte := 32
  const NEWLINE: byte := 10
  const MINUS: byte := 45
  const TRUE_TEXT: seq<byte> := [116, 114, 117, 101]
  const FALSE_TEXT: seq<byte> := [102, 97, 108, 115, 101]
  const NULL_TEXT: seq<byte> := [110, 117, 108, 108]

  // ---------------------------------------------------------------- strings

  /** A lower-case hexadecimal digit. */
  function HexDigit(n: nat): byte
    requires n < 16
  {
    if n < 10 then 48 + n else 87 + n
  }

  /** One byte of escape( s ). */
  function EscapeByte(c: byte): (r: seq<byte>)
    ensures 1 <= |r|
  {
    if c == QUOTE || c == BACKSLASH then [BACKSLASH, c]
    else if c == 8 then [BACKSLASH, 98]
    else if c == 12 then [BACKSLASH, 102]
    else if c == 10 then [BACKSLASH, 110]
    else if c == 13 then [BACKSLASH, 114]
    else if c == 9 then [BACKSLASH, 116]
    else if c <= 0x1f then [BACKSLASH, 117, 48, 48, HexDigit(c / 16), HexDigit(c % 16)]
    else [c]
  }

  function Escape(s: seq<byte>): seq<byte> {
    if s == [] then [] else EscapeByte(s[0]) + Escape(s[1..])
  }

  method EscapeString(s: seq<byte>) returns (r: seq<byte>)
    ensures r == Escape(s)
  {
    hide EscapeByte;
    r := [];
    var i := 0;
    assert s[0..] == s;
    while i < |s|
      invariant i <= |s| && Escape(s) == r + Escape(s[i..])
    {
      assert s[i..][1..] == s[i + 1..];
      assert r + (EscapeByte(s[i]) + Escape(s[i + 1..])) == (r + EscapeByte(s[i])) + Escape(s[i + 1..]);
      r := r + EscapeByte(s[i]);
      i := i + 1;
    }
  }

  function Quoted(s: seq<byte>): seq<byte> {
    [QUOTE] + Escape(s) + [QUOTE]
  }

  // ---------------------------------------------------------------- numbers

  function Digits(n: nat): (s: seq<byte>)
    ensures 1 <= |s|
  {
    if n < 10 then [48 + n] else Digits(n / 10) + [48 + n % 10]
  }

  /** A long, and an int as a double of 16 significant digits: the plain decimal form. */
  function IntText(n: int): seq<byte> {
    if n < 0 then [MINUS] + Digits(-n) else Digits(n)
  }

  // ---------------------------------------------------------------- documents

  const OID_NAME: seq<byte> := [36, 111, 105, 100]                           // $oid
  const BINARY_NAME: seq<byte> := [36, 98, 105, 110, 97, 114, 121]           // $binary
  const TYPE_NAME: seq<byte> := [36, 116, 121, 112, 101]                     // $type
  const DATE_NAME: seq<byte> := [36, 100, 97, 116, 101]                      // $date
  const REGEX_NAME: seq<byte> := [36, 114, 101, 103, 101, 120]               // $regex
  const OPTIONS_NAME: seq<byte> := [36, 111, 112, 116, 105, 111, 110, 115]   // $options
  const REF_NAME: seq<byte> := [36, 114, 101, 102]                           // $ref
  const ID_NAME: seq<byte> := [36, 105, 100]                                 // $id

  /** The names fieldNameEnd refuses. */
  predicate Reserved(n: seq<byte>) {
    n == OID_NAME || n == BINARY_NAME || n == TYPE_NAME || n == DATE_NAME || n == REGEX_NAME || n == OPTIONS_NAME
  }

  function Blanks(n: nat): seq<byte> {
    if n == 0 then [] else [SPACE, SPACE] + Blanks(n - 1)
  }

  /** A new line, indented. */
  function Break(pretty: nat): seq<byte> {
    [NEWLINE] + Blanks(pretty)
  }

  /** What separates two members, behind the comma. */
  function Between(pretty: nat): seq<byte> {
    if pretty == 0 then [SPACE] else Break(pretty)
  }

  /** What precedes an array element. */
  function Pad(pretty: nat): seq<byte> {
    if pretty == 0 then [] else Break(pretty)
  }

  function Deeper(pretty: nat): nat {
    if pretty == 0 then 0 else pretty + 1
  }

  /** BSONObj::jsonString; the braces are those of the whole. */
  function PrintDoc(d: Doc, pretty: nat): seq<byte>
    decreases d, 1
  {
    if d == [] then [LBRACE, RBRACE] else [LBRACE, SPACE] + PrintMembers(d, pretty)
  }

  function PrintMembers(d: Doc, pretty: nat): seq<byte>
    requires d != []
    decreases d, 0
  {
    PrintMember(d[0], Deeper(pretty))
      + if |d| == 1 then [SPACE, RBRACE]
        else [COMMA] + Between(pretty) + PrintMembers(d[1..], pretty)
  }

  /** An undefined member is not printed, nor is its name. */
  function PrintMember(f: Field, pretty: nat): seq<byte>
    decreases f, 0
  {
    if f.value.Undefined? then [] else Quoted(CStr(f.name)) + [SPACE, COLON, SPACE] + PrintValue(f.value, pretty)
  }

  /** BSONElement::jsonString without the name, for the types that parse back. */
  function PrintValue(v: Value, pretty: nat): seq<byte>
    decreases v, 2
  {
    match v
    case Str(s) => Quoted(s)
    case Symbol(s) => Quoted(s)
    case Int(n) => IntText(n)
    case Long(n) => IntText(n)
    case Bool(b) => if b then TRUE_TEXT else FALSE_TEXT
    case Null => NULL_TEXT
    case Object(d) => PrintDoc(d, pretty)
    case Array(d) => if d == [] then [LBRACKET, RBRACKET] else [LBRACKET, SPACE] + PrintItems(d, pretty)
    case _ => []
  }

  function PrintItems(d: Doc, pretty: nat): seq<byte>
    requires d != []
    decreases d, 1
  {
    Pad(pretty) + PrintValue(d[0].value, Deeper(pretty))
      + if |d| == 1 then [SPACE, RBRACKET] else [COMMA, SPACE] + PrintItems(d[1..], pretty)
  }
}
