/** What copying nodes does to documents the parser has read. */
module XmlCopies {
  import opened CStrings
  import opened XmlAttributes
  import opened XmlDom
  import opened XmlRoundTrip
  import opened XmlText
  import opened XmlTree

  /** The contents of the nodes the parser makes for an element or a text. */
  function ContentOf(n: Node): Content
    decreases n, 1
  {
    match n
    case Text(value) => Content(TextNode, value, [], [])
    case Element(name, attrs, kids) => Content(ElementNode, name, attrs, ContentsOf(kids))
  }

  function ContentsOf(nodes: seq<Node>): seq<Content>
    decreases nodes, 0
  {
    if nodes == [] then [] else [ContentOf(nodes[0])] + ContentsOf(nodes[1..])
  }

  /** No NUL in a text or in an attribute's value. */
  predicate NulFree(n: Node)
    decreases n, 1
  {
    match n
    case Text(value) => '\0' !in value
    case Element(_, attrs, kids) =>
      (forall i :: 0 <= i < |attrs| ==> '\0' !in attrs[i].value) && AllNulFree(kids)
  }

  predicate AllNulFree(nodes: seq<Node>)
    decreases nodes, 0
  {
    nodes == [] || (NulFree(nodes[0]) && AllNulFree(nodes[1..]))
  }

  lemma WholeAttributesIff(attrs: seq<Attribute>)
    requires DistinctNames(attrs) && forall i :: 0 <= i < |attrs| ==> ValidName(attrs[i].name)
    ensures WholeAttributes(attrs) <==> forall i :: 0 <= i < |attrs| ==> '\0' !in attrs[i].value
  {
    forall i | 0 <= i < |attrs| ensures '\0' !in attrs[i].name && !IsEmpty(attrs[i]) {
      assert ValidName(attrs[i].name);
    }
  }

  lemma {:induction false} WholeIff(n: Node)
    requires ParserShape(n)
    ensures Whole(ContentOf(n)) <==> NulFree(n)
    decreases n, 1
  {
    match n
    case Text(value) =>
      assert WholeAttributes([]) && AllWhole([]);
    case Element(name, attrs, kids) =>
      WholeAttributesIff(attrs);
      AllWholeIff(kids);
      hide WholeAttributes;
  }

  lemma {:induction false} AllWholeIff(nodes: seq<Node>)
    requires AllParserShape(nodes)
    ensures AllWhole(ContentsOf(nodes)) <==> AllNulFree(nodes)
    decreases nodes, 0
  {
    if nodes != [] {
      WholeIff(nodes[0]);
      AllWholeIff(nodes[1..]);
      var first, rest := ContentOf(nodes[0]), ContentsOf(nodes[1..]);
      assert ([first] + rest)[0] == first && ([first] + rest)[1..] == rest;
      hide Whole, ContentOf, NulFree;
    }
  }

  /** A copy of an element the parser has read is like it exactly if there is no NUL in it, whatever text was read. */
  lemma ParsedCopyIff(s: string, i: nat)
    requires ParseDocument(s).Ok? && i < |ParseDocument(s).value|
    ensures var n := ParseDocument(s).value[i]; Cut(ContentOf(n)) == ContentOf(n) <==> NulFree(n)
  {
    hide ParseDocument, Cut, Whole, ContentOf, NulFree, ParserShape;
    var nodes := ParseDocument(s).value;
    ParsedDocumentShape(s);
    ShapeAt(nodes, i);
    WholeIff(nodes[i]);
    CutNothingIff(ContentOf(nodes[i]));
  }

  lemma {:induction false} ShapeAt(nodes: seq<Node>, i: nat)
    requires AllParserShape(nodes) && i < |nodes|
    ensures ParserShape(nodes[i])
  {
    hide ParserShape;
    if i > 0 {
      ShapeAt(nodes[1..], i - 1);
      assert nodes[i] == nodes[1..][i - 1];
    }
  }

  /** The NUL need not be in the text read: a reference to it will do. */
  lemma ReadThenCut()
    ensures var e := Element("a", [], [Text("x\0y")]);
      && ParseDocument("<a>x&#x00;y</a>\n") == Ok([e], "")
      && Cut(ContentOf(e)) == ContentOf(Element("a", [], [Text("x")]))
  {
    hide ParseDocument, PrintDocument, PrintableText, Cut;
    var value := "x\0y";
    var e := Element("a", [], [Text(value)]);
    TextPrintable();
    SimplePrintable(e, value);
    DocumentRoundTrip([e]);
    ReferencePrinted();
    SimpleDocumentText(e, value);
    NulCutsText();
    CutElement(Content(TextNode, value, [], []));
    OneText(value);
    OneText("x");
  }

  lemma TextPrintable()
    ensures PrintableText("x\0y")
  {
    assert "x\0y"[0] == 'x';
  }

  lemma OneText(value: string)
    ensures ContentOf(Element("a", [], [Text(value)]))
         == Content(ElementNode, "a", [], [Content(TextNode, value, [], [])])
  {
    assert [Text(value)][1..] == [];
    assert ContentsOf([Text(value)]) == [ContentOf(Text(value))] + ContentsOf([]);
  }

  lemma ReferencePrinted()
    ensures Encode("x\0y") == "x&#x00;y"
    ensures "<" + ("a" + (PrintAttributes([]) + SimpleContent("a", "x\0y"))) == "<a>x&#x00;y</a>\n"
  {
    var s := "x\0y";
    assert s[1..] == "\0y" && s[1..][1..] == "y" && "y"[1..] == "";
    assert EncodeChar('\0') == "&#x00;" && Encode("y") == "y";
    assert Encode(s[1..]) == "&#x00;y";
  }

  lemma CutElement(kid: Content)
    ensures Cut(Content(ElementNode, "a", [], [kid])) == Content(ElementNode, "a", [], [Cut(kid)])
  {
    CStringWhole("a");
    assert CutAll([kid]) == [Cut(kid)];
  }
}
