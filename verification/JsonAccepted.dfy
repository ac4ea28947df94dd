/** The other half of JsonSpellings: whatever text the parser accepts is a spelling of the document it reads. So it accepts
    the spellings and nothing else, and no text spells two documents. */
module JsonAccepted {
  import opened Bytes
  import opened Document
  import opened BsonFormat
  import opened JsonText
  import opened JsonGrammar
  import opened JsonPieces
  import opened JsonLexemes
  import opened JsonSpellings
  import R = JsonRoundTrip

  // ---------------------------------------------------------------- white space and strings

  lemma Between(t: seq<byte>, a: nat, b: nat)
    requires a <= b <= |t|
    ensures Holds(t, a, t[a..b])
  {
  }

  lemma BlankThere(t: seq<byte>, pos: nat)
    requires pos <= |t|
    ensures Blank(t[pos..Skip(t, pos)]) && Holds(t, pos, t[pos..Skip(t, pos)])
  {
    hide IsSpace, Skip;
    SkipIs(t, pos);
  }

  lemma LetterThere(t: seq<byte>, p: nat, q: byte) returns (l: Letter)
    requires p < |t| && t[p] != q && Char(t, p).1 != p
    ensures LetterOk(l, q) && Holds(t, p, LetterText(l)) && Char(t, p) == (LetterMeant(l), p + |LetterText(l)|)
    ensures l == Short('u' as int) ==> !Hex4(t, p + 2)
  {
    hide Utf8, EscapeLetter, HexValue;
    if t[p] != BACKSLASH {
      l := Plain(t[p]);
      assert t[p..p + 1] == [t[p]];
    } else if EscapeLetter(t[p + 1]) == [] && t[p + 1] == 117 && Hex4(t, p + 2) {
      l := CodeUnit(t[p + 2..p + 6]);
      UnitThere(t, p);
    } else {
      l := Short(t[p + 1]);
      assert t[p..p + 2] == [BACKSLASH, t[p + 1]];
      Excluded(t[p + 1]);
      LettersEscaped(t[p + 1]);
    }
  }

  lemma UnitThere(t: seq<byte>, p: nat)
    requires p + 1 < |t| && t[p] == BACKSLASH && t[p + 1] == 117 && Hex4(t, p + 2)
    ensures var l := CodeUnit(t[p + 2..p + 6]);
      LetterOk(l, QUOTE) && Holds(t, p, LetterText(l)) && Char(t, p) == (LetterMeant(l), p + |LetterText(l)|)
  {
    hide HexValue, Utf8, EscapeLetter;
    var d := t[p + 2..p + 6];
    assert t[p..p + 6] == [BACKSLASH, 117] + d;
    UnitRead(t, p, d);
  }

  lemma LettersEscaped(c: byte)
    ensures EscapeLetter(c) != [] ==> c != 120 && !IsDigit(c) && c != 117
  {
  }

  lemma {:induction false} LettersThere(t: seq<byte>, p: nat, q: byte) returns (s: seq<Letter>)
    requires IsQuote(q) && Chars(t, p, q).Ok?
    ensures LettersOk(s, q) && Holds(t, p, LettersText(s) + [q])
    ensures Chars(t, p, q) == Ok(Meant(s), p + |LettersText(s) + [q]|)
    decreases |t| - p
  {
    hide Char, LetterOk, LetterText, LetterMeant, Chars, Hex4, Holds;
    OneChar(t, p, q);
    if t[p] == q {
      s := [];
      Between(t, p, p + 1);
      assert LettersText(s) + [q] == [q] == t[p..p + 1];
    } else {
      var l := LetterThere(t, p, q);
      var rest := LettersThere(t, p + |LetterText(l)|, q);
      s := [l] + rest;
      var x := LettersText(rest) + [q];
      HoldsParts(t, p, LetterText(l), x);
      assert LettersText(s) + [q] == LetterText(l) + x && s[1..] == rest;
      if l == Short('u' as int) {
        TwoBytes('u' as int);
        NoUnit(t, p + 2, x);
      }
    }
  }

  lemma QuotedThere(t: seq<byte>, p: nat) returns (s: seq<Letter>)
    requires p < |t| && IsQuote(t[p]) && Chars(t, p + 1, t[p]).Ok?
    ensures var q := t[p]; var x := [q] + (LettersText(s) + [q]);
      LettersOk(s, q) && Holds(t, p, x) && Chars(t, p + 1, q) == Ok(Meant(s), p + |x|)
  {
    hide Chars, LettersText, LettersOk, Meant, Holds;
    s := LettersThere(t, p + 1, t[p]);
    Between(t, p, p + 1);
    assert t[p..p + 1] == [t[p]];
    HoldsParts(t, p, [t[p]], LettersText(s) + [t[p]]);
  }

  // ---------------------------------------------------------------- names and numbers

  lemma NameThere(t: seq<byte>, pos: nat) returns (n: Label)
    requires pos <= |t| && Name(t, pos).Ok?
    ensures var p := Skip(t, pos); NameOk(n) && Holds(t, p, NameText(n)) && Name(t, pos) == Ok(NameMeant(n), p + |NameText(n)|)
  {
    hide Chars, LettersText, LettersOk, Meant, Holds, NameChar, NameEnd, CStr, Reserved, ReservedNames, Skip;
    var p := Skip(t, pos);
    if t[p] == QUOTE || t[p] == 39 {
      var s := QuotedThere(t, p);
      ReservedIs(Meant(s));
      n := InQuotes(t[p], s);
    } else {
      NameEndIs(t, p + 1);
      n := Bare(t[p..NameEnd(t, p + 1)]);
      Between(t, p, NameEnd(t, p + 1));
    }
  }

  lemma NumberThere(t: seq<byte>, p: nat) returns (sign: seq<byte>, d: seq<byte>)
    requires p < |t| && Number(t, p).Ok?
    ensures NumberOk(sign, d) && Holds(t, p, sign + d) && Number(t, p) == Ok(ValueMeant(Num(sign, d)), p + |sign + d|)
  {
    hide Decimal, Number, DigitsEnd, Holds;
    var p1 := if IsSign(t[p]) then p + 1 else p;
    var e := DigitsEnd(t, p1);
    var e1 := if e <= p1 + 19 then e else p1 + 19;
    NumberMeans(t, p, p1, e, e1);
    sign, d := t[p..p1], t[p1..e1];
    assert forall i :: 0 <= i < |d| ==> d[i] == t[p1 + i];
    assert sign == [] || sign == [t[p]];
    assert sign + d == t[p..e1];
    Between(t, p, e1);
  }

  // ---------------------------------------------------------------- values

  lemma StringThere(t: seq<byte>, pos: nat) returns (x: Text)
    requires pos <= |t| && ValueAt(t, pos).Ok? && Skip(t, pos) < |t| && IsQuote(t[Skip(t, pos)])
    ensures var p := Skip(t, pos); TextOk(x) && Holds(t, p, Written(x)) && ValueAt(t, pos) == Ok(ValueMeant(x), p + |Written(x)|)
  {
    hide Chars, Number, Bracketed, Braced, SpecialAt, RefAt, LettersText, LettersOk, Meant, Skip, Holds;
    var p := Skip(t, pos);
    var s := QuotedThere(t, p);
    x := Words(t[p], s);
  }

  predicate StartsNumber(c: byte) { IsDigit(c) || c == MINUS || c == 43 || c == 46 }

  lemma NumThere(t: seq<byte>, pos: nat) returns (x: Text)
    requires pos <= |t| && ValueAt(t, pos).Ok? && Skip(t, pos) < |t| && StartsNumber(t[Skip(t, pos)])
    ensures var p := Skip(t, pos); TextOk(x) && Holds(t, p, Written(x)) && ValueAt(t, pos) == Ok(ValueMeant(x), p + |Written(x)|)
  {
    hide Chars, Number, Bracketed, Braced, SpecialAt, RefAt, NumberOk, Decimal, Skip, Holds;
    var p := Skip(t, pos);
    var sign, d := NumberThere(t, p);
    x := Num(sign, d);
  }

  /** What is neither quoted nor a number nor bracketed is one of three words. */
  lemma WordThere(t: seq<byte>, pos: nat) returns (x: Text)
    requires pos <= |t| && ValueAt(t, pos).Ok? && Skip(t, pos) < |t|
    requires var c := t[Skip(t, pos)]; !IsQuote(c) && !StartsNumber(c) && c != LBRACKET && c != LBRACE
    ensures var p := Skip(t, pos); TextOk(x) && Holds(t, p, Written(x)) && ValueAt(t, pos) == Ok(ValueMeant(x), p + |Written(x)|)
  {
    hide Chars, Number, Bracketed, Braced, SpecialAt, RefAt, Skip, Holds;
    x := Word(ValueAt(t, pos).v);
  }

  lemma {:induction false} ValueThere(t: seq<byte>, pos: nat) returns (x: Text)
    requires pos <= |t| && ValueAt(t, pos).Ok?
    ensures var p := Skip(t, pos); TextOk(x) && Holds(t, p, Written(x)) && ValueAt(t, pos) == Ok(ValueMeant(x), p + |Written(x)|)
    decreases |t| - pos, 4
  {
    hide ValueAt, Bracketed, Braced, Skip, Holds, ItemsText, MembersText, ItemsOk, MembersOk, Blank, ItemsMeant, DocMeant, RefForm,
      LettersText, LettersOk, NumberOk, Written, ValueMeant, TextOk;
    var p := Skip(t, pos);
    ValueSome(t, pos);
    if IsQuote(t[p]) {
      x := StringThere(t, pos);
    } else if StartsNumber(t[p]) {
      x := NumThere(t, pos);
    } else if t[p] == LBRACKET {
      SkipIs(t, pos);
      ArrayAt(t, pos, p);
      x := ArrayThere(t, p);
    } else if t[p] == LBRACE {
      SkipIs(t, pos);
      ObjectAt(t, pos, p);
      x := ObjectThere(t, p);
    } else {
      x := WordThere(t, pos);
    }
  }

  lemma ValueSome(t: seq<byte>, pos: nat)
    requires pos <= |t| && ValueAt(t, pos).Ok?
    ensures Skip(t, pos) < |t|
  {
  }

  // ---------------------------------------------------------------- arrays

  lemma {:induction false} ArrayThere(t: seq<byte>, p: nat) returns (x: Text)
    requires p < |t| && t[p] == LBRACKET && Bracketed(t, p + 1).Ok?
    ensures TextOk(x) && Holds(t, p, Written(x)) && AsArray(Bracketed(t, p + 1)) == Ok(ValueMeant(x), p + |Written(x)|)
    decreases |t| - p, 0
  {
    hide Items, ItemsText, ItemsOk, ItemsMeant, Skip, Holds, Blank;
    var inside, items := [], [];
    Between(t, p, p + 1);
    assert t[p..p + 1] == [LBRACKET];
    if At(t, Skip(t, p + 1), RBRACKET) {
      inside := t[p + 1..Skip(t, p + 1)];
      BlankThere(t, p + 1);
      ByteThere(t, Skip(t, p + 1), RBRACKET);
      HoldsParts(t, p + 1, inside, [RBRACKET]);
      HoldsParts(t, p, [LBRACKET], inside + [RBRACKET]);
    } else {
      items := ItemsThere(t, p + 1, 0);
      NoBlank();
      HoldsParts(t, p, [LBRACKET], ItemsText(items));
    }
    NoItems();
    x := Arr(inside, items);
  }

  lemma ByteThere(t: seq<byte>, p: nat, c: byte)
    requires At(t, p, c)
    ensures Holds(t, p, [c])
  {
    assert t[p..p + 1] == [c];
  }

  lemma NoBlank()
    ensures Blank([])
  {
  }

  lemma NoItems()
    ensures ItemsOk([]) && ItemsMeant([], 0) == []
    ensures MembersOk([]) && DocMeant([]) == []
  {
  }

  lemma {:induction false} ItemsThere(t: seq<byte>, p: nat, index: nat) returns (s: seq<Item>)
    requires p <= |t| && Items(t, p, index).Ok?
    ensures s != [] && ItemsOk(s) && Holds(t, p, ItemsText(s)) && Items(t, p, index) == Ok(ItemsMeant(s, index), p + |ItemsText(s)|)
    decreases |t| - p, 5
  {
    hide ItemText, ItemsText, ItemsMeant, Holds, ValueAt, Digits, Written, ValueMeant, TextOk, Skip, Items, ItemOk, ItemsOk;
    ItemsSome(t, p, index);
    var x := ValueThere(t, p);
    var e := ValueAt(t, p).next;
    var i, q := Item(t[p..Skip(t, p)], x, t[e..Skip(t, e)]), Skip(t, e);
    ItemThere(t, p, i, q);
    ItemsStep(t, p, index);
    var rest := [];
    if At(t, q, RBRACKET) {
      ByteThere(t, q, RBRACKET);
      s := [i];
      NoItems();
    } else {
      rest := ItemsThere(t, q + 1, index + 1);
      s := [i] + rest;
      ByteThere(t, q, COMMA);
      HoldsParts(t, q, [COMMA], ItemsText(rest));
    }
    assert s[1..] == rest;
    ItemsParts(s, index);
    ItemsOkMore(s);
    HoldsParts(t, p, ItemText(i), if |s| == 1 then [RBRACKET] else [COMMA] + ItemsText(rest));
    var f := [Field(Digits(index), ValueMeant(x))];
    assert f + [] == f;
  }

  lemma ItemsSome(t: seq<byte>, p: nat, index: nat)
    requires p <= |t| && Items(t, p, index).Ok?
    ensures ValueAt(t, p).Ok?
  {
    hide ValueAt;
  }

  lemma ItemsOkMore(s: seq<Item>)
    requires s != [] && ItemOk(s[0]) && ItemsOk(s[1..])
    ensures ItemsOk(s)
  {
    hide ItemOk;
    forall i | 0 <= i < |s| ensures ItemOk(s[i]) {
      if 0 < i {
        assert s[i] == s[1..][i - 1];
      }
    }
  }

  lemma ItemThere(t: seq<byte>, p: nat, i: Item, q: nat)
    requires p <= |t| && ValueAt(t, p).Ok? && TextOk(i.text) && Holds(t, Skip(t, p), Written(i.text))
    requires var e := ValueAt(t, p).next;
      e == Skip(t, p) + |Written(i.text)| && i.pre == t[p..Skip(t, p)] && i.post == t[e..Skip(t, e)] && q == Skip(t, e)
    ensures ItemOk(i) && Holds(t, p, ItemText(i)) && q == p + |ItemText(i)|
  {
    hide Holds, Skip, Written, TextOk, ValueAt, Blank;
    var e := ValueAt(t, p).next;
    BlankThere(t, p);
    BlankThere(t, e);
    HoldsParts(t, Skip(t, p), Written(i.text), i.post);
    HoldsParts(t, p, i.pre, Written(i.text) + i.post);
  }

  // ---------------------------------------------------------------- objects

  lemma {:induction false} ObjectThere(t: seq<byte>, p: nat) returns (x: Text)
    requires p < |t| && t[p] == LBRACE && (RefAt(t, p + 1).Ok? || Braced(t, p + 1).Ok?)
    ensures TextOk(x) && Holds(t, p, Written(x))
    ensures Ok(ValueMeant(x), p + |Written(x)|) == if RefAt(t, p + 1).Ok? then RefAt(t, p + 1) else AsObject(Braced(t, p + 1))
    decreases |t| - p, 1
  {
    hide RefAt, Braced, Holds, Blank, MembersOk, DocMeant, RefForm, RefMeant, MembersText, Skip, SpecialAt;
    if RefAt(t, p + 1).Ok? {
      RefAccepted(t, p + 1);
    }
    var inside, members := BracedThere(t, p);
    BracedRead(t, p, inside, members);
    x := Obj(inside, members);
  }

  lemma {:induction false} BracedThere(t: seq<byte>, p: nat) returns (inside: seq<byte>, members: seq<Entry>)
    requires p < |t| && t[p] == LBRACE && Braced(t, p + 1).Ok?
    ensures Blank(inside) && MembersOk(members) && Holds(t, p, Written(Obj(inside, members)))
    decreases |t| - p, 0
  {
    hide Members, MembersText, MembersOk, Skip, Holds, Blank;
    inside, members := [], [];
    ByteThere(t, p, LBRACE);
    if At(t, Skip(t, p + 1), RBRACE) {
      inside := t[p + 1..Skip(t, p + 1)];
      BlankThere(t, p + 1);
      ByteThere(t, Skip(t, p + 1), RBRACE);
      NoItems();
      HoldsParts(t, p + 1, inside, [RBRACE]);
      HoldsParts(t, p, [LBRACE], inside + [RBRACE]);
    } else {
      members := MembersThere(t, p + 1);
      NoBlank();
      HoldsParts(t, p, [LBRACE], MembersText(members));
    }
  }

  lemma {:induction false} MembersThere(t: seq<byte>, p: nat) returns (s: seq<Entry>)
    requires p <= |t| && Members(t, p).Ok?
    ensures s != [] && MembersOk(s) && Holds(t, p, MembersText(s))
    decreases |t| - p, 5
  {
    hide MemberText, MembersText, Holds, ValueAt, Name, NameText, NameOk, Written, TextOk, Skip, Members, MemberOk, MembersOk, NameMeant,
      ValueMeant, DocMeant, ItemText, ItemOk, Blank;
    MembersSome(t, p);
    var n := NameThere(t, p);
    var b := Name(t, p).next;
    var c := Skip(t, b);
    var x := ValueThere(t, c + 1);
    var e := ValueAt(t, c + 1).next;
    var m := Entry(t[p..Skip(t, p)], n, t[b..c], Item(t[c + 1..Skip(t, c + 1)], x, t[e..Skip(t, e)]));
    var q := Skip(t, e);
    BlankThere(t, p);
    BlankThere(t, b);
    ItemThere(t, c + 1, m.item, q);
    MemberThere(t, p, Skip(t, p), b, c, m);
    MemberFine(m);
    MemberStep(t, p);
    MembersStep(t, p);
    var rest := [];
    if At(t, q, RBRACE) {
      ByteThere(t, q, RBRACE);
      s := [m];
      NoItems();
    } else {
      rest := MembersThere(t, q + 1);
      s := [m] + rest;
      ByteThere(t, q, COMMA);
      HoldsParts(t, q, [COMMA], MembersText(rest));
    }
    assert s[1..] == rest;
    MembersParts(s);
    MembersOkMore(s);
    HoldsParts(t, p, MemberText(m), if |s| == 1 then [RBRACE] else [COMMA] + MembersText(rest));
  }

  lemma MembersSome(t: seq<byte>, p: nat)
    requires p <= |t| && Members(t, p).Ok?
    ensures Name(t, p).Ok? && At(t, Skip(t, Name(t, p).next), COLON)
    ensures ValueAt(t, Skip(t, Name(t, p).next) + 1).Ok? && p < Name(t, p).next
  {
    hide ValueAt, Name, Skip;
  }

  lemma MembersOkMore(s: seq<Entry>)
    requires s != [] && MemberOk(s[0]) && MembersOk(s[1..])
    ensures MembersOk(s)
  {
    hide MemberOk;
    forall i | 0 <= i < |s| ensures MemberOk(s[i]) {
      if 0 < i {
        assert s[i] == s[1..][i - 1];
      }
    }
  }

  /** White space, a name, white space, a colon and a value, one behind the other. */
  lemma MemberThere(t: seq<byte>, p: nat, a: nat, b: nat, c: nat, m: Entry)
    requires p <= a <= b <= c && At(t, c, COLON) && m.pre == t[p..a] && m.post == t[b..c]
    requires Holds(t, a, NameText(m.name)) && b == a + |NameText(m.name)| && Holds(t, c + 1, ItemText(m.item))
    ensures Holds(t, p, MemberText(m)) && |MemberText(m)| == c + 1 + |ItemText(m.item)| - p
  {
    hide Holds, NameText, ItemText;
    Between(t, p, a);
    Between(t, b, c);
    ByteThere(t, c, COLON);
    HoldsParts(t, c, [COLON], ItemText(m.item));
    HoldsParts(t, b, m.post, [COLON] + ItemText(m.item));
    HoldsParts(t, a, NameText(m.name), m.post + ([COLON] + ItemText(m.item)));
    HoldsParts(t, p, m.pre, NameText(m.name) + (m.post + ([COLON] + ItemText(m.item))));
  }

  lemma MemberFine(m: Entry)
    requires Blank(m.pre) && Blank(m.post) && NameOk(m.name) && ItemOk(m.item)
    ensures MemberOk(m)
  {
  }

  // ---------------------------------------------------------------- references are objects

  lemma {:induction false} PlainsOk(x: seq<byte>, q: byte)
    requires forall i :: 0 <= i < |x| ==> 0x20 <= x[i] && x[i] != q && x[i] != BACKSLASH
    ensures LettersOk(Plains(x), q)
  {
    if x != [] {
      PlainsOk(x[1..], q);
    }
  }

  lemma PlainChars(t: seq<byte>, p: nat, x: seq<byte>)
    requires Holds(t, p, Literal(x)) && forall i :: 0 <= i < |x| ==> 0x20 <= x[i] && x[i] != QUOTE && x[i] != BACKSLASH
    ensures p < |t| && t[p] == QUOTE && Chars(t, p + 1, QUOTE) == Ok(x, p + |Literal(x)|)
  {
    hide Chars, LettersText, LettersOk, Meant, Plains, Holds;
    PlainsOk(x, QUOTE);
    PlainsText(x);
    assert Literal(x) == [QUOTE] + (x + [QUOTE]);
    QuotedRead(t, p, Plains(x), QUOTE);
  }

  lemma NameQuoted(t: seq<byte>, p: nat, x: seq<byte>)
    requires p <= |t| && Skip(t, p) < |t| && t[Skip(t, p)] == QUOTE && !Reserved(x)
    requires Chars(t, Skip(t, p) + 1, QUOTE) == Ok(x, Skip(t, p) + |Literal(x)|)
    ensures Name(t, p) == Ok(CStr(x), Skip(t, p) + |Literal(x)|)
  {
    hide Chars, CStr, Reserved, Skip;
  }

  lemma ValueQuoted(t: seq<byte>, p: nat)
    requires p <= |t| && At(t, Skip(t, p), QUOTE) && Chars(t, Skip(t, p) + 1, QUOTE).Ok?
    ensures var r := Chars(t, Skip(t, p) + 1, QUOTE); ValueAt(t, p) == Ok(Str(r.v), r.next)
  {
    hide Chars, Skip, Number, Bracketed, Braced, SpecialAt, RefAt;
  }

  lemma RefNames()
    ensures !Reserved(REF_NAME) && !Reserved(ID_NAME)
  {
    assert REF_NAME[1] == 114 && REF_NAME[3] == 102 && |ID_NAME| == 3;
  }

  /** The members of a reference are members like any others. */
  lemma IdAccepted(t: seq<byte>, p: nat)
    requires p <= |t| && IdAt(t, p).Ok?
    ensures Members(t, p).Ok?
  {
    hide Chars, CStr, Reserved, Skip, Holds, Literal, ValueAt, Name, IsOid;
    RefNames();
    var a := Skip(t, p);
    PlainChars(t, a, ID_NAME);
    NameQuoted(t, p, ID_NAME);
    var c := Skip(t, a + |Literal(ID_NAME)|);
    var v := Skip(t, c + 1);
    OidChars(t, v);
    ValueQuoted(t, c + 1);
    MemberStep(t, p);
    MembersStep(t, p);
  }

  lemma OidChars(t: seq<byte>, p: nat)
    requires QuotedOid(t, p)
    ensures Chars(t, p + 1, QUOTE).Ok? && Chars(t, p + 1, QUOTE).next == p + 26
  {
    hide Chars, IsOid;
    var y := t[p + 1..p + 25];
    assert t[p..p + 26] == Literal(y);
    OidPrints(y);
    PlainChars(t, p, y);
  }

  lemma OidPrints(y: seq<byte>)
    requires IsOid(y)
    ensures forall i :: 0 <= i < |y| ==> 0x20 <= y[i] && y[i] != QUOTE && y[i] != BACKSLASH
  {
  }

  lemma RefAccepted(t: seq<byte>, p: nat)
    requires p <= |t| && RefAt(t, p).Ok?
    ensures Braced(t, p).Ok?
  {
    hide Chars, CStr, Reserved, Skip, Holds, Literal, ValueAt, Name, Members, IdAt, OidOf;
    RefNames();
    var a := Skip(t, p);
    PlainChars(t, a, REF_NAME);
    NameQuoted(t, p, REF_NAME);
    var c := Skip(t, a + |Literal(REF_NAME)|);
    var v := Skip(t, c + 1);
    ValueQuoted(t, c + 1);
    var ns := Chars(t, v + 1, QUOTE);
    IdAccepted(t, Skip(t, ns.next) + 1);
    MemberStep(t, p);
    MembersStep(t, p);
  }

  // ---------------------------------------------------------------- whole texts

  /** An object with white space around it. */
  predicate IsWhole(t: seq<byte>, pre: seq<byte>, inside: seq<byte>, members: seq<Entry>, post: seq<byte>) {
    && Blank(pre) && Blank(inside) && MembersOk(members) && Blank(post)
    && t == pre + (Written(Obj(inside, members)) + post)
  }

  ghost predicate Spells(t: seq<byte>, d: Doc) {
    exists pre, inside, members, post :: IsWhole(t, pre, inside, members, post) && d == DocMeant(members)
  }

  /** What fromjson takes for the document: nothing, or a text that spells it, if it is within the limit of a BSONObj. */
  ghost predicate Reads(str: seq<byte>, d: Doc) {
    |EncodeDoc(d)| <= LIMIT && if CStr(str) == [] then d == [] else Spells(CStr(str), d)
  }

  /** fromjson accepts these texts, as those documents, and no others. */
  lemma AcceptedIff(str: seq<byte>, d: Doc)
    ensures FromJson(str).Ok? && FromJson(str).v == d <==> Reads(str, d)
  {
    hide Spells, EncodeDoc, Whole, CStr;
    var t := CStr(str);
    NothingLength();
    if t != [] {
      if Whole(t).Ok? {
        WholeThere(t);
      }
      if Spells(t, d) {
        SpelledRead(t, d);
      }
    }
  }

  lemma Accepted(str: seq<byte>)
    ensures FromJson(str).Ok? <==> exists d :: Reads(str, d)
    ensures FromJson(str).Ok? ==> forall d :: Reads(str, d) <==> d == FromJson(str).v
  {
    hide Reads, FromJson;
    forall d ensures FromJson(str).Ok? && FromJson(str).v == d <==> Reads(str, d) {
      AcceptedIff(str, d);
    }
    if FromJson(str).Ok? {
      assert Reads(str, FromJson(str).v);
    }
  }

  lemma NothingLength()
    ensures |EncodeDoc([])| <= LIMIT
  {
  }

  lemma WholeThere(t: seq<byte>)
    requires Whole(t).Ok?
    ensures Spells(t, Whole(t).v) && |EncodeDoc(Whole(t).v)| <= LIMIT
  {
    hide Written, MembersOk, Blank, Holds, Skip, Braced, DocMeant, EncodeDoc, SpecialAt, RefAt, RefForm, RefMeant;
    var p := Skip(t, 0);
    var inside, members := BracedThere(t, p);
    BracedRead(t, p, inside, members);
    var x := Written(Obj(inside, members));
    var e := p + |x|;
    BlankThere(t, 0);
    BlankThere(t, e);
    var pre, post := t[0..p], t[e..|t|];
    HoldsParts(t, p, x, post);
    HoldsParts(t, 0, pre, x + post);
    HoldsAll(t, pre + (x + post));
    assert IsWhole(t, pre, inside, members, post);
  }

  lemma HoldsAll(t: seq<byte>, x: seq<byte>)
    requires Holds(t, 0, x) && |x| == |t|
    ensures x == t
  {
  }

  lemma SpelledRead(t: seq<byte>, d: Doc)
    requires Spells(t, d) && 0 !in t && t != []
    ensures Whole(t).Ok? <==> |EncodeDoc(d)| <= LIMIT
    ensures Whole(t).Ok? ==> Whole(t).v == d
  {
    hide Written, MembersOk, Blank, DocMeant, EncodeDoc, Whole;
    var pre, inside, members, post :| IsWhole(t, pre, inside, members, post) && d == DocMeant(members);
    AnySpelling(pre, inside, members, post);
    WholeHolds(t);
  }

  /** No text spells two documents. */
  lemma SpelledOnce(t: seq<byte>, d: Doc, e: Doc)
    requires Spells(t, d) && Spells(t, e)
    ensures d == e
  {
    hide Spells;
    SpelledBraced(t, d);
    SpelledBraced(t, e);
  }

  lemma SpelledBraced(t: seq<byte>, d: Doc)
    requires Spells(t, d)
    ensures Skip(t, 0) < |t| && Braced(t, Skip(t, 0) + 1).Ok? && Braced(t, Skip(t, 0) + 1).v == d
  {
    hide IsWhole, DocMeant, Braced, Skip;
    var pre, inside, members, post :| IsWhole(t, pre, inside, members, post) && d == DocMeant(members);
    BracedBehind(t, pre, inside, members, post);
  }

  lemma BracedBehind(t: seq<byte>, pre: seq<byte>, inside: seq<byte>, members: seq<Entry>, post: seq<byte>)
    requires IsWhole(t, pre, inside, members, post)
    ensures Skip(t, 0) == |pre| < |t| && Braced(t, |pre| + 1).Ok? && Braced(t, |pre| + 1).v == DocMeant(members)
  {
    hide Written, MembersOk, Blank, Holds, Spaces, Skip, Braced, DocMeant, SpecialAt, RefAt, RefForm, RefMeant;
    var x, p := Written(Obj(inside, members)), |pre|;
    WholeHolds(t);
    HoldsParts(t, 0, pre, x + post);
    HoldsParts(t, p, x, post);
    BlankSpaces(t, 0, pre);
    BracedRead(t, p, inside, members);
    SkipTo(t, 0, p);
  }

  // ---------------------------------------------------------------- printing what was read

  /** No reference at any depth. */
  ghost predicate NoRefs(v: Value) {
    match v
    case DBRef(_, _) => false
    case Object(d) => DocNoRefs(d)
    case Array(d) => DocNoRefs(d)
    case _ => true
  }

  ghost predicate DocNoRefs(d: Doc) { forall i :: 0 <= i < |d| ==> NoRefs(d[i].value) }

  /** No embedded object at any depth has the two members of a reference. */
  ghost predicate NoShapes(v: Value) {
    match v
    case Object(d) => DocNoShapes(d) && !R.RefShaped(d)
    case Array(d) => DocNoShapes(d)
    case _ => true
  }

  ghost predicate DocNoShapes(d: Doc) { forall i :: 0 <= i < |d| ==> NoShapes(d[i].value) }

  lemma {:induction false} ItemsMeantAt(s: seq<Item>, index: nat)
    ensures var d := ItemsMeant(s, index);
      |d| == |s| && forall i :: 0 <= i < |d| ==> d[i] == Field(Digits(index + i), ValueMeant(s[i].text))
    decreases |s|
  {
    hide Digits, ValueMeant;
    if s != [] {
      ItemsMeantAt(s[1..], index + 1);
      var d, rest := ItemsMeant(s, index), ItemsMeant(s[1..], index + 1);
      forall i | 0 <= i < |d| ensures d[i] == Field(Digits(index + i), ValueMeant(s[i].text)) {
        if 0 < i {
          assert d[i] == rest[i - 1];
          assert index + 1 + (i - 1) == index + i;
        }
      }
    }
  }

  lemma {:induction false} DocMeantAt(s: seq<Entry>)
    ensures var d := DocMeant(s);
      |d| == |s| && forall i :: 0 <= i < |d| ==> d[i] == Field(NameMeant(s[i].name), ValueMeant(s[i].item.text))
    decreases |s|
  {
    hide NameMeant, ValueMeant;
    if s != [] {
      DocMeantAt(s[1..]);
      var d, rest := DocMeant(s), DocMeant(s[1..]);
      forall i | 0 <= i < |d| ensures d[i] == Field(NameMeant(s[i].name), ValueMeant(s[i].item.text)) {
        if 0 < i {
          assert d[i] == rest[i - 1];
        }
      }
    }
  }

  /** What is read can be printed, unless it is a reference, and printed text can tell it apart, unless it looks like one. */
  lemma {:induction false} ValueKept(x: Text)
    requires TextOk(x) && NoRefs(ValueMeant(x))
    ensures R.Printable(ValueMeant(x)) && (R.Canonical(ValueMeant(x)) <==> NoShapes(ValueMeant(x)))
    decreases x, 1
  {
    hide LettersOk, Meant, ItemsMeant, DocMeant, ItemsOk, MembersOk, DocNoRefs, DocNoShapes, R.DocPrintable, R.DocCanonical,
      R.ItemsCanonical, R.RefShaped, Decimal, RefForm, RefMeant;
    match x {
      case Arr(_, items) => ItemsKept(items, 0);
      case Obj(_, members) =>
        if RefForm(members) {
          IsRef(members);
        } else {
          DocKept(members);
        }
      case _ =>
    }
  }

  lemma IsRef(s: seq<Entry>)
    requires RefForm(s)
    ensures RefMeant(s).DBRef?
  {
  }

  lemma {:induction false} ItemsKept(s: seq<Item>, index: nat)
    requires ItemsOk(s) && DocNoRefs(ItemsMeant(s, index))
    ensures var d := ItemsMeant(s, index); R.DocPrintable(d) && (R.ItemsCanonical(d, index) <==> DocNoShapes(d))
    decreases s, 0
  {
    hide ItemsMeant, ValueMeant, TextOk, Digits, NoRefs, NoShapes, R.Printable, R.Canonical;
    ItemsMeantAt(s, index);
    var d := ItemsMeant(s, index);
    forall i | 0 <= i < |d|
      ensures R.Printable(d[i].value) && (R.Canonical(d[i].value) <==> NoShapes(d[i].value)) && d[i].name == Digits(index + i)
    {
      assert ItemOk(s[i]) && NoRefs(d[i].value);
      ValueKept(s[i].text);
    }
  }

  lemma {:induction false} DocKept(s: seq<Entry>)
    requires MembersOk(s) && DocNoRefs(DocMeant(s))
    ensures var d := DocMeant(s); R.DocPrintable(d) && (R.DocCanonical(d) <==> DocNoShapes(d))
    decreases s, 0
  {
    hide DocMeant, ValueMeant, TextOk, NameOk, NoNul, CStr, NoRefs, NoShapes, R.Printable, R.Canonical, LettersText, Meant;
    DocMeantAt(s);
    var d := DocMeant(s);
    forall i | 0 <= i < |d|
      ensures R.Printable(d[i].value) && (R.Canonical(d[i].value) <==> NoShapes(d[i].value)) && NoNul(d[i].name)
    {
      assert MemberOk(s[i]) && ItemOk(s[i].item) && NoRefs(d[i].value);
      ValueKept(s[i].item.text);
    }
  }

  /** A document that was read and holds no reference can be printed, on one line or indented, and is read as the same
      document if and only if no embedded object looks like a reference and no name is reserved. */
  lemma ReadPrintRead(str: seq<byte>, pretty: nat)
    requires FromJson(str).Ok? && DocNoRefs(FromJson(str).v)
    ensures var d := FromJson(str).v;
      && R.DocPrintable(d)
      && (FromJson(PrintDoc(d, pretty)) == Ok(d, |PrintDoc(d, pretty)|) <==> DocNoShapes(d) && R.DocFine(d))
  {
    hide FromJson, Spells, DocMeant, MembersOk, DocNoRefs, DocNoShapes, R.DocPrintable, R.DocCanonical, R.DocFine, EncodeDoc, PrintDoc,
      Written, Blank, CStr;
    var d := FromJson(str).v;
    AcceptedIff(str, d);
    var members := MembersOf(str, d);
    DocKept(members);
    R.RoundTripIff(d, pretty);
  }

  lemma MembersOf(str: seq<byte>, d: Doc) returns (members: seq<Entry>)
    requires Reads(str, d)
    ensures MembersOk(members) && DocMeant(members) == d
  {
    hide DocMeant, MembersOk, EncodeDoc, Written, Blank, CStr;
    if CStr(str) == [] {
      members := [];
      NoItems();
    } else {
      var pre, inside, members', post :| IsWhole(CStr(str), pre, inside, members', post) && d == DocMeant(members');
      members := members';
    }
  }
}
