/** Ways of writing a document that the printer does not use, what they are read as, and what is an error. */
module XmlForms {
  import opened CStrings
  import opened XmlText
  import opened XmlCoding
  import opened XmlTree
  import opened XmlRoundTrip

  // ----- white space

  /** Tab, line feed, vertical tab, form feed, carriage return and blank. */
  lemma WhiteSpaceIs(c: char)
    ensures IsWhiteSpace(c) <==> c as int in [9, 10, 11, 12, 13, 32]
  {
  }

  // ----- attributes

  /** White space around the name and the equals sign is passed over. */
  lemma SpacedAttribute(w1: string, name: string, w2: string, w3: string, v: string)
    requires AllWhiteSpace(w1) && AllWhiteSpace(w2) && AllWhiteSpace(w3) && ValidName(name)
    requires v != "" && !IsWhiteSpace(v[0])
    ensures ParseAttribute(w1 + (name + (w2 + ("=" + (w3 + v)))))
         == match ReadAttributeValue(v)
            case Ok(value, rest) => Ok(Attribute(name, value), rest)
            case Fail(error) => Fail(error)
            case Unsupported => Unsupported
  {
    hide ReadAttributeValue, SkipWhiteSpace, ReadName, ValidName;
    var afterName := w2 + ("=" + (w3 + v));
    FirstOfName(name, afterName);
    Skips(w1, name + afterName);
    assert !IsNameChar(afterName[0]) by {
      assert afterName[0] == if w2 == "" then '=' else w2[0];
    }
    NameReads(name, afterName, ReadingAttributes);
    Skips(w2, "=" + (w3 + v));
    assert ("=" + (w3 + v))[1..] == w3 + v;
    Skips(w3, v);
  }

  lemma FirstOfName(name: string, rest: string)
    requires ValidName(name)
    ensures name + rest != "" && !IsWhiteSpace((name + rest)[0])
  {
    assert (name + rest)[0] == name[0];
  }

  /** Values in quotes of either kind are decoded. */
  lemma QuotedValueReads(q: char, value: string, rest: string)
    requires (q == '\'' || q == '\"') && Plain(value) && rest != ""
    ensures ReadAttributeValue([q] + (Encode(value) + ([q] + rest))) == Ok(value, rest)
  {
    hide Encode, KeepText, Plain;
    var s := [q] + (Encode(value) + ([q] + rest));
    assert s[1..] == Encode(value) + ([q] + rest);
    KeepInvertsEncode(value, [q], rest);
    assert ([q] + rest)[1..] == rest;
  }

  predicate EndsBare(c: char) { IsWhiteSpace(c) || c == '/' || c == '>' || c == '\'' || c == '\"' }

  lemma {:induction false} BareEnds(value: string, rest: string)
    requires (forall i :: 0 <= i < |value| ==> !EndsBare(value[i])) && rest != "" && EndsBare(rest[0])
    ensures BareLength(value + rest) == |value|
  {
    if value == "" {
      assert value + rest == rest;
    } else {
      BareEnds(value[1..], rest);
      assert (value + rest)[1..] == value[1..] + rest;
    }
  }

  /** Values without quotes are taken as they are, references included. */
  lemma BareValueReads(value: string, rest: string)
    requires value != "" && (forall i :: 0 <= i < |value| ==> !EndsBare(value[i]))
    requires rest != "" && EndsBare(rest[0]) && rest[0] != '\'' && rest[0] != '\"'
    ensures ReadAttributeValue(value + rest) == Ok(value, rest)
  {
    BareEnds(value, rest);
    var s := value + rest;
    assert s[0] == value[0] && !EndsBare(value[0]);
    assert s[..|value|] == value && s[|value|..] == rest && s[|value|] == rest[0];
  }

  /** A quote where a value without quotes ends is an error. */
  lemma BareValueThenQuote(value: string, rest: string)
    requires value != "" && (forall i :: 0 <= i < |value| ==> !EndsBare(value[i]))
    requires rest != "" && (rest[0] == '\'' || rest[0] == '\"')
    ensures ReadAttributeValue(value + rest) == Fail(ReadingAttributes)
  {
    BareEnds(value, rest);
    var s := value + rest;
    assert s[0] == value[0] && !EndsBare(value[0]);
    assert s[|value|] == rest[0];
  }

  /** So is a name used twice in one element. */
  lemma AttributeTwice(name: string, attrs: seq<Attribute>, a: Attribute, rest: string)
    requires ValidName(a.name) && Plain(a.value) && rest != ""
    requires exists i :: 0 <= i < |attrs| && attrs[i].name == a.name
    ensures ParseAttributes(name, attrs, " " + (PrintAttribute(a) + rest)) == Fail(ParsingElement)
  {
    PrintAttributeParts(a);
    AttributeReads(a, rest);
    var s := PrintAttribute(a) + rest;
    assert s[0] == a.name[0];
    Skips(" ", s);
    hide ParseAttribute, PrintAttribute, Encode, SkipWhiteSpace;
    assert HasName(attrs, a.name);
  }

  /** And a name that no equals sign follows. */
  lemma NoEqualsSign(w1: string, name: string, w2: string, rest: string)
    requires AllWhiteSpace(w1) && AllWhiteSpace(w2) && ValidName(name)
    requires rest != "" && !IsWhiteSpace(rest[0]) && rest[0] != '=' && (w2 == "" ==> !IsNameChar(rest[0]))
    ensures ParseAttribute(w1 + (name + (w2 + rest))) == Fail(ReadingAttributes)
  {
    hide SkipWhiteSpace, ReadName, ValidName, ReadAttributeValue;
    FirstOfName(name, w2 + rest);
    Skips(w1, name + (w2 + rest));
    assert (w2 + rest)[0] == if w2 == "" then rest[0] else w2[0];
    NameReads(name, w2 + rest, ReadingAttributes);
    Skips(w2, rest);
  }

  // ----- names

  predicate IsLetter(c: char) { 'A' <= c <= 'Z' || 'a' <= c <= 'z' }

  predicate IsDecimal(c: char) { '0' <= c <= '9' }

  /** Letters, underscores and every byte from 127 on; inside a name digits, hyphens, dots and colons, too. */
  lemma NamesAre(s: string)
    ensures ValidName(s) <==>
      && s != "" && (IsLetter(s[0]) || s[0] == '_' || s[0] as int >= 127)
      && forall i :: 0 <= i < |s| ==>
           IsLetter(s[i]) || IsDecimal(s[i]) || s[i] in ['_', '-', '.', ':'] || s[i] as int >= 127
  {
    forall i | 0 <= i < |s|
      ensures IsNameChar(s[i]) <==>
        IsLetter(s[i]) || IsDecimal(s[i]) || s[i] in ['_', '-', '.', ':'] || s[i] as int >= 127
    {
      NameCharIs(s[i]);
    }
    hide IsNameChar;
  }

  lemma NameCharIs(c: char)
    ensures IsNameChar(c) <==> IsLetter(c) || IsDecimal(c) || c in ['_', '-', '.', ':'] || c as int >= 127
  {
  }

  // ----- ends of elements

  lemma SpacedEndTag(e: Node, w: string, rest: string)
    requires e.Element? && AllWhiteSpace(w)
    ensures ParseEndTag(e, "</" + e.name + (w + (">" + rest))) == Ok(e, rest)
  {
    var endTag := "</" + e.name;
    var s := endTag + (w + (">" + rest));
    assert s[|endTag|..] == w + (">" + rest);
    Skips(w, ">" + rest);
    assert (">" + rest)[1..] == rest;
    hide SkipWhiteSpace;
  }

  /** An element must end with its own name, and nothing but white space after it. */
  lemma WrongEndTag(e: Node, s: string)
    requires e.Element? && !("</" + e.name <= s)
    ensures ParseEndTag(e, s) == Fail(ReadingEndTag)
  {
  }

  lemma SpacedEmptyElement(name: string, attrs: seq<Attribute>, w: string, rest: string)
    requires AllWhiteSpace(w)
    ensures ParseAttributes(name, attrs, w + ("/>" + rest)) == Ok(Element(name, attrs, []), rest)
  {
    Skips(w, "/>" + rest);
    assert ("/>" + rest)[2..] == rest;
    hide SkipWhiteSpace;
  }

  lemma SlashAlone(name: string, attrs: seq<Attribute>, w: string, rest: string)
    requires AllWhiteSpace(w) && (rest == "" || rest[0] != '>')
    ensures ParseAttributes(name, attrs, w + ("/" + rest)) == Fail(ParsingEmpty)
  {
    Skips(w, "/" + rest);
    hide SkipWhiteSpace;
  }

  // ----- documents

  /** A text that starts with no tag is an empty document. */
  lemma NothingToParse(w: string, s: string)
    requires AllWhiteSpace(w) && (s == "" || (!IsWhiteSpace(s[0]) && s[0] != '<')) && !(BYTE_ORDER_MARK <= w + s)
    ensures ParseDocument(w + s) == Fail(DocumentEmpty)
  {
    if s == "" {
      DropWhiteSpacePrefix(w, "");
    } else {
      Skips(w, s);
    }
  }

  /** A document that ends in the name of its first element is broken off. */
  lemma BrokenOff(name: string)
    requires ValidName(name)
    ensures ParseDocument("<" + name) == Fail(FailedToReadElementName)
  {
    var s := "<" + name;
    assert s[1] == name[0] && s[1..] == name && BYTE_ORDER_MARK[0] != '<';
    WholeName(name);
  }

  lemma {:induction false} WholeName(s: string)
    requires forall i :: 0 <= i < |s| ==> IsNameChar(s[i])
    ensures NameLength(s) == |s|
  {
    if s != "" {
      WholeName(s[1..]);
    }
  }

  // ----- layout

  lemma {:induction false} IndentIs(depth: nat)
    ensures |Indent(depth)| == 4 * depth && forall i :: 0 <= i < |Indent(depth)| ==> Indent(depth)[i] == ' '
  {
    if depth > 0 {
      IndentIs(depth - 1);
    }
  }

  lemma SomeEncoded()
    ensures Encode("b") == "b" && Encode("d") == "d" && Encode("1") == "1" && Encode("x") == "x"
    ensures Encode("2\"") == "2&quot;" && Encode("<y>") == "&lt;y&gt;"
  {
    assert "2\""[1..] == "\"" && "<y>"[1..] == "y>" && "y>"[1..] == ">" && "\""[1..] == "" && ">"[1..] == "";
    assert Encode("") == "" && Encode(">") == "&gt;" && Encode("y>") == "y&gt;" && Encode("\"") == "&quot;";
  }

  lemma ElementIs(e: Node, depth: nat)
    requires e.Element? && ValidName(e.name) && forall i :: 0 <= i < |e.attrs| ==> ValidName(e.attrs[i].name)
    ensures PrintNode(e, depth)
         == Indent(depth) + "<" + e.name + PrintAttributes(e.attrs) + PrintContent(e.name, e.kids, depth)
  {
    PrintedWhole(e);
    hide Indent, PrintAttributes, PrintContent, CString, Walked;
  }

  lemma SomeAttributes()
    ensures PrintAttributes([Attribute("b", "1")]) == " b=\"1\""
    ensures PrintAttributes([Attribute("d", "2\"")]) == " d='2&quot;'"
    ensures PrintAttributes([]) == ""
  {
    SomeEncoded();
    hide Encode;
    var b, d := Attribute("b", "1"), Attribute("d", "2\"");
    assert PrintAttribute(b) == "b=\"1\"" && PrintAttribute(d) == "d='2&quot;'";
    assert [b][1..] == [] && [d][1..] == [];
    hide PrintAttribute;
  }

  lemma SomeIndents()
    ensures Indent(0) == "" && Indent(1) == "    "
  {
  }

  lemma EmptyPrinted()
    ensures PrintNode(Element("c", [Attribute("d", "2\"")], []), 1) == "    <c d='2&quot;' />\n"
  {
    hide PrintAttributes, Indent, PrintContent, PrintNode;
    ElementIs(Element("c", [Attribute("d", "2\"")], []), 1);
    SomeAttributes();
    SomeIndents();
    ContentIs("c", [], 1);
  }

  lemma TextPrinted()
    ensures PrintNode(Text("x"), 1) == "    x\n"
  {
    SomeEncoded();
    SomeIndents();
    hide Indent, Encode;
  }

  lemma SimplePrinted()
    ensures PrintNode(Element("e", [], [Text("<y>")]), 1) == "    <e>&lt;y&gt;</e>\n"
  {
    hide PrintAttributes, Indent, PrintContent, PrintNode, Encode;
    SomeEncoded();
    SomeIndents();
    ElementIs(Element("e", [], [Text("<y>")]), 1);
    SomeAttributes();
    ContentIs("e", [Text("<y>")], 1);
  }

  lemma ManyPrinted(kids: seq<Node>, printed: string)
    requires kids != [] && !IsSimple(kids) && PrintNodes(kids, 1) == printed
    ensures PrintDocument([Element("a", [Attribute("b", "1")], kids)]) == "<a b=\"1\">\n" + printed + "</a>\n"
  {
    hide PrintAttributes, Indent, PrintContent, PrintNodes, PrintDocument;
    PrintedAlone(Element("a", [Attribute("b", "1")], kids));
    SomeAttributes();
    SomeIndents();
    ContentIs("a", kids, 0);
    assert "<" + ("a" + " b=\"1\"") == "<a b=\"1\"";
  }

  /** One of each kind of line the printer writes. */
  lemma Printed()
    ensures var c := Element("c", [Attribute("d", "2\"")], []);
      var e := Element("e", [], [Text("<y>")]);
      PrintDocument([Element("a", [Attribute("b", "1")], [c, Text("x"), e])])
      == "<a b=\"1\">\n" + ("    <c d='2&quot;' />\n" + "    x\n" + "    <e>&lt;y&gt;</e>\n") + "</a>\n"
  {
    hide PrintNode, PrintNodes, PrintDocument;
    var c, x, e := Element("c", [Attribute("d", "2\"")], []), Text("x"), Element("e", [], [Text("<y>")]);
    EmptyPrinted();
    TextPrinted();
    SimplePrinted();
    ThreeNodes(c, x, e, 1);
    ManyPrinted([c, x, e], "    <c d='2&quot;' />\n" + "    x\n" + "    <e>&lt;y&gt;</e>\n");
  }

  lemma ThreeNodes(a: Node, b: Node, c: Node, depth: nat)
    ensures PrintNodes([a, b, c], depth) == PrintNode(a, depth) + PrintNode(b, depth) + PrintNode(c, depth)
  {
    hide PrintNode;
    assert [a, b, c][1..] == [b, c] && [b, c][1..] == [c] && [c][1..] == [];
    assert PrintNodes([c], depth) == PrintNode(c, depth) + PrintNodes([], depth);
    assert PrintNodes([b, c], depth) == PrintNode(b, depth) + PrintNodes([c], depth);
  }
}
