/** What the text of a document looks like, to the character. */
module JsonExample {
  import opened Bytes
  import opened Document
  import opened BsonFormat
  import opened JsonText
  import opened JsonGrammar
  import opened JsonRoundTrip
  import opened JsonLexemes

  /** An array under "a", of 1 and true. */
  function Listed(): Doc { [Field([97], Array(Pair()))] }

  function Pair(): Doc { [Field([48], Int(1)), Field([49], Bool(true))] }

  /** A null under "a", and an object under "b". */
  function Nested(): Doc { [Field([97], Null), Field([98], Object([]))] }

  lemma NameText(c: byte)
    requires c == 97 || c == 98
    ensures Quoted(CStr([c])) == [QUOTE, c, QUOTE]
  {
    assert [c][1..] == [];
    assert Escape([]) == [] && Escape([c]) == EscapeByte(c) + Escape([]) == [c];
  }

  lemma PairItems(pretty: nat)
    ensures PrintItems(Pair(), pretty) ==
      Pad(pretty) + Ascii("1") + (Ascii(", ") + (Pad(pretty) + Ascii("true") + Ascii(" ]")))
  {
    hide Pad, Deeper, Ascii;
    MarksAre();
    Commas();
    var rest := Pair()[1..];
    assert rest == [Field([49], Bool(true))];
    assert PrintItems(rest, pretty) == Pad(pretty) + TRUE_TEXT + [SPACE, RBRACKET];
  }

  lemma Commas()
    ensures Ascii("1") == [49] && Ascii(", ") == [COMMA, SPACE] && Ascii(" ]") == [SPACE, RBRACKET]
  {
  }

  lemma ListedText(pretty: nat)
    ensures PrintDoc(Listed(), pretty) == [LBRACE, SPACE] + ([QUOTE, 97, QUOTE] + [SPACE, COLON, SPACE]
      + ([LBRACKET, SPACE] + PrintItems(Pair(), Deeper(pretty))) + [SPACE, RBRACE])
  {
    hide PrintItems, Deeper;
    NameText(97);
    var f := Listed()[0];
    assert PrintValue(f.value, Deeper(pretty)) == [LBRACKET, SPACE] + PrintItems(Pair(), Deeper(pretty));
    assert PrintMember(f, Deeper(pretty)) ==
      [QUOTE, 97, QUOTE] + [SPACE, COLON, SPACE] + ([LBRACKET, SPACE] + PrintItems(Pair(), Deeper(pretty)));
  }

  /** On one line. */
  lemma ListedPlain()
    ensures PrintDoc(Listed(), 0) == Ascii("{ \"a\" : [ 1, true ] }")
  {
    hide PrintDoc, PrintItems;
    ListedText(0);
    PairItems(0);
  }

  /** Elements on lines of their own, indented by one step more than the object. */
  lemma ListedPretty()
    ensures PrintDoc(Listed(), 1) == Ascii("{ \"a\" : [ \n    1, \n    true ] }")
  {
    hide PrintDoc, PrintItems;
    ListedText(1);
    PairItems(2);
    Indented();
  }

  lemma Indented()
    ensures Pad(2) == [NEWLINE, SPACE, SPACE, SPACE, SPACE] && Between(1) == [NEWLINE, SPACE, SPACE] && Between(0) == [SPACE]
  {
    assert Blanks(0) == [] && Blanks(1) == [SPACE, SPACE] && Blanks(2) == [SPACE, SPACE] + Blanks(1);
  }

  lemma NestedText(pretty: nat)
    ensures PrintDoc(Nested(), pretty) == [LBRACE, SPACE] + ([QUOTE, 97, QUOTE] + [SPACE, COLON, SPACE] + NULL_TEXT
      + ([COMMA] + Between(pretty) + ([QUOTE, 98, QUOTE] + [SPACE, COLON, SPACE] + [LBRACE, RBRACE] + [SPACE, RBRACE])))
  {
    hide Between, Deeper;
    NameText(97);
    NameText(98);
    var d := Nested();
    assert d[1..] == [Field([98], Object([]))];
    assert PrintMember(d[0], Deeper(pretty)) == [QUOTE, 97, QUOTE] + [SPACE, COLON, SPACE] + NULL_TEXT;
    assert PrintMember(d[1], Deeper(pretty)) == [QUOTE, 98, QUOTE] + [SPACE, COLON, SPACE] + [LBRACE, RBRACE];
  }

  /** Members on lines of their own, indented by as many steps as asked for. */
  lemma NestedBoth()
    ensures PrintDoc(Nested(), 0) == Ascii("{ \"a\" : null, \"b\" : {} }")
    ensures PrintDoc(Nested(), 1) == Ascii("{ \"a\" : null,\n  \"b\" : {} }")
  {
    hide PrintDoc, Between;
    NestedText(0);
    NestedText(1);
    Indented();
  }

  /** Read again, elements are named by their indexes, from zero on. */
  lemma ListedBack()
    ensures FromJson(Ascii("{ \"a\" : [ 1, true ] }")) == Ok(Listed(), 21)
  {
    hide FromJson, PrintDoc, Ascii;
    ListedPlain();
    ListedFits();
    ListedCanonical();
    RoundTripIff(Listed(), 0);
  }

  lemma ListedFits()
    ensures |EncodeDoc(Listed())| <= LIMIT
  {
    hide I32;
    var f, g := Pair()[0], Pair()[1];
    assert Pair()[..1] == [f] && [f][..0] == [];
    assert |EncodeField(f)| == 7 && |EncodeField(g)| == 4;
    assert |EncodeFields([f])| == 7;
    assert |EncodeFields(Pair())| == 11;
    assert Listed()[..0] == [];
    assert |EncodeField(Listed()[0])| == 19;
  }

  lemma ListedCanonical()
    ensures DocPrintable(Listed()) && DocCanonical(Listed()) && DocFine(Listed())
  {
    assert CStr([97]) == [97] && NoNul([97]);
    assert Digits(0) == [48] && Digits(1) == [49];
    assert Pair()[1..] == [Field([49], Bool(true))];
    assert ItemsCanonical(Pair()[1..], 1);
    assert ItemsCanonical(Pair(), 0);
  }
}
