/** Parsing what was pretty-printed gives the same tree. */
module XmlRoundTrip {
  import opened CStrings
  import opened XmlText
  import opened XmlCoding
  import opened XmlTree

  // ----- the trees concerned

  predicate DistinctNames(attrs: seq<Attribute>)
  {
    forall i, j :: 0 <= i < j < |attrs| ==> attrs[i].name != attrs[j].name
  }

  predicate PrintableAttributes(attrs: seq<Attribute>)
  {
    DistinctNames(attrs) && forall i :: 0 <= i < |attrs| ==> ValidName(attrs[i].name) && Plain(attrs[i].value)
  }

  /** A text that reading can restore: no "&#x", no stray blanks, and something other than white space in it. */
  predicate PrintableText(s: string)
  {
    Plain(s) && Tidy(s) && !AllWhiteSpace(s)
  }

  /** Two texts in a row would come back as one. */
  predicate TextsApart(kids: seq<Node>)
  {
    forall i :: 0 <= i < |kids| - 1 ==> !(kids[i].Text? && kids[i + 1].Text?)
  }

  predicate Printable(n: Node)
    decreases n, 1
  {
    match n
    case Text(value) => PrintableText(value)
    case Element(name, attrs, kids) =>
      ValidName(name) && PrintableAttributes(attrs) && TextsApart(kids) && AllPrintable(kids)
  }

  predicate AllPrintable(nodes: seq<Node>)
    decreases nodes, 0
  {
    nodes == [] || (Printable(nodes[0]) && AllPrintable(nodes[1..]))
  }

  // ----- white space before a character that is none

  lemma NothingToSkip(s: string)
    requires s != "" && !IsWhiteSpace(s[0])
    ensures SkipWhiteSpace(At(s)) == At(s)
  {
  }

  lemma Skips(ws: string, s: string)
    requires AllWhiteSpace(ws) && s != "" && !IsWhiteSpace(s[0])
    ensures SkipWhiteSpace(At(ws + s)) == At(s)
  {
    DropWhiteSpacePrefix(ws, s);
  }

  // ----- names and attributes

  lemma {:induction false} NameEnds(name: string, rest: string)
    requires forall i :: 0 <= i < |name| ==> IsNameChar(name[i])
    requires rest != "" && !IsNameChar(rest[0])
    ensures NameLength(name + rest) == |name|
  {
    if name == "" {
      assert name + rest == rest;
    } else {
      NameEnds(name[1..], rest);
      assert (name + rest)[1..] == name[1..] + rest;
    }
  }

  lemma NameReads(name: string, rest: string, error: Error)
    requires ValidName(name) && rest != "" && !IsNameChar(rest[0])
    ensures SkipWhiteSpace(At(name + rest)) == At(name + rest)
    ensures ReadName(At(name + rest), error) == Ok(name, rest)
  {
    assert (name + rest)[0] == name[0];
    NameEnds(name, rest);
    assert (name + rest)[..|name|] == name && (name + rest)[|name|..] == rest;
  }

  lemma {:induction false} NameUnencoded(name: string)
    requires forall i :: 0 <= i < |name| ==> IsNameChar(name[i])
    ensures Encode(name) == name
  {
    if name != "" {
      NameUnencoded(name[1..]);
      assert EncodeChar(name[0]) == [name[0]];
      assert name == [name[0]] + name[1..];
    }
  }

  function Quote(value: string): (q: char)
    ensures q == '\'' || q == '\"'
  {
    if '\"' in value then '\'' else '\"'
  }

  lemma QuotedReads(value: string, rest: string)
    requires Plain(value) && rest != ""
    ensures var q := Quote(value); ReadAttributeValue([q] + Encode(value) + [q] + rest) == Ok(value, rest)
  {
    var q := Quote(value);
    var s := [q] + Encode(value) + [q] + rest;
    hide Encode, KeepText, Plain;
    assert s[1..] == Encode(value) + ([q] + rest);
    KeepInvertsEncode(value, [q], rest);
    assert ([q] + rest)[1..] == rest;
  }

  lemma PrintAttributeParts(a: Attribute)
    requires ValidName(a.name)
    ensures PrintAttribute(a) == a.name + ("=" + ([Quote(a.value)] + Encode(a.value) + [Quote(a.value)]))
  {
    NameUnencoded(a.name);
  }

  lemma AttributeReads(a: Attribute, rest: string)
    requires ValidName(a.name) && Plain(a.value) && rest != ""
    ensures ParseAttribute(PrintAttribute(a) + rest) == Ok(a, rest)
  {
    var q := Quote(a.value);
    var v := [q] + Encode(a.value) + [q] + rest;
    PrintAttributeParts(a);
    assert PrintAttribute(a) + rest == a.name + ("=" + v);
    NameReads(a.name, "=" + v, ReadingAttributes);
    NothingToSkip("=" + v);
    assert ("=" + v)[1..] == v;
    NothingToSkip(v);
    QuotedReads(a.value, rest);
  }

  lemma AttributeStep(name: string, before: seq<Attribute>, a: Attribute, rest: string)
    requires ValidName(a.name) && Plain(a.value) && !HasName(before, a.name) && rest != ""
    ensures ParseAttributes(name, before, " " + (PrintAttribute(a) + rest)) == ParseAttributes(name, before + [a], rest)
  {
    PrintAttributeParts(a);
    AttributeReads(a, rest);
    var s := PrintAttribute(a) + rest;
    assert s[0] == a.name[0];
    Skips(" ", s);
    hide ParseAttribute, PrintAttribute, Encode, SkipWhiteSpace, HasName;
  }

  lemma {:induction false} AttributesRead(name: string, before: seq<Attribute>, attrs: seq<Attribute>, tail: string)
    requires PrintableAttributes(before + attrs) && tail != ""
    ensures ParseAttributes(name, before, PrintAttributes(attrs) + tail) == ParseAttributes(name, before + attrs, tail)
    decreases |attrs|
  {
    hide ParseAttributes, PrintAttribute;
    if attrs == [] {
      assert before + attrs == before;
      assert PrintAttributes(attrs) + tail == tail;
    } else {
      var a, rest := attrs[0], PrintAttributes(attrs[1..]) + tail;
      assert PrintAttributes(attrs) + tail == " " + (PrintAttribute(a) + rest);
      AttributeShape(before, attrs);
      assert before + [a] + attrs[1..] == before + attrs;
      hide PrintableAttributes, Plain, ValidName, HasName, PrintAttributes;
      AttributeStep(name, before, a, rest);
      AttributesRead(name, before + [a], attrs[1..], tail);
    }
  }

  lemma AttributeShape(before: seq<Attribute>, attrs: seq<Attribute>)
    requires PrintableAttributes(before + attrs) && attrs != []
    ensures ValidName(attrs[0].name) && Plain(attrs[0].value) && !HasName(before, attrs[0].name)
  {
    var all := before + attrs;
    assert all[|before|] == attrs[0];
    assert forall i :: 0 <= i < |before| ==> all[i] == before[i];
  }

  // ----- elements

  lemma {:induction false} PrintAttributesStart(attrs: seq<Attribute>, tail: string)
    requires tail != "" && (tail[0] == ' ' || tail[0] == '>')
    ensures var s := PrintAttributes(attrs) + tail; s != "" && !IsNameChar(s[0])
  {
  }

  /** Up to the end of its attributes, an element is parsed back. */
  lemma HeadReads(name: string, attrs: seq<Attribute>, tail: string)
    requires ValidName(name) && PrintableAttributes(attrs) && tail != "" && (tail[0] == ' ' || tail[0] == '>')
    ensures ParseElement("<" + (name + (PrintAttributes(attrs) + tail))) == ParseAttributes(name, attrs, tail)
  {
    var rest := PrintAttributes(attrs) + tail;
    var s := "<" + (name + rest);
    PrintAttributesStart(attrs, tail);
    NameReads(name, rest, FailedToReadElementName);
    NothingToSkip(s);
    assert s[1..] == name + rest;
    assert [] + attrs == attrs;
    AttributesRead(name, [], attrs, tail);
    hide ParseAttributes, PrintAttributes, ReadName, SkipWhiteSpace, ValidName, PrintableAttributes;
  }

  lemma EndTagReads(e: Node, rest: string)
    requires e.Element?
    ensures ParseEndTag(e, "</" + e.name + ">" + rest) == Ok(e, rest)
  {
    var endTag := "</" + e.name;
    var s := endTag + ">" + rest;
    assert s[|endTag|..] == ">" + rest;
    NothingToSkip(">" + rest);
    assert (">" + rest)[1..] == rest;
  }

  lemma EmptyReads(name: string, attrs: seq<Attribute>, rest: string)
    ensures ParseAttributes(name, attrs, " />" + rest) == Ok(Element(name, attrs, []), rest)
  {
    assert " />" + rest == " " + ("/>" + rest);
    Skips(" ", "/>" + rest);
    assert ("/>" + rest)[2..] == rest;
  }

  /** After `>`: the children, then the end tag. */
  lemma KidsThenEndTag(name: string, attrs: seq<Attribute>, kids: seq<Node>, body: string, rest: string)
    requires ReadValue(SkipWhiteSpace(At(body))) == Ok(kids, "</" + name + ">" + rest)
    ensures ParseAttributes(name, attrs, ">" + body) == Ok(Element(name, attrs, kids), rest)
  {
    EndTagReads(Element(name, attrs, kids), rest);
    NothingToSkip(">" + body);
    assert (">" + body)[1..] == body;
    hide ReadValue, ParseEndTag, SkipWhiteSpace;
  }

  // ----- children

  lemma {:induction false} PlainTextStart(v: string, tail: string)
    requires PrintableText(v)
    ensures v != "" && Encode(v) != ""
    ensures var s := Encode(v) + tail; s != "" && s[0] != '<' && !IsWhiteSpace(s[0])
  {
    EncodePlain(v);
  }

  /** A text, white space, and the next tag. */
  lemma TextReads(v: string, ws: string, more: string)
    requires PrintableText(v) && AllWhiteSpace(ws) && more != ""
    ensures var s := Encode(v) + (ws + ("<" + more));
      s != "" && s[0] != '<' && !IsWhiteSpace(s[0]) && ParseText(s) == (At("<" + more), v)
  {
    var s := Encode(v) + (ws + ("<" + more));
    PlainTextStart(v, ws + ("<" + more));
    NothingToSkip(s);
    TrimSqueezes(v, ws, "<", more, false);
    SqueezeTidy(v, false);
    assert Blank(false) + v == v;
    assert ("<" + more)[1..] == more;
    hide TrimText, Encode, Squeeze, SkipWhiteSpace;
  }

  lemma TextThenKids(v: string, ws: string, more: string, kids: seq<Node>, rest: string)
    requires PrintableText(v) && AllWhiteSpace(ws) && more != ""
    requires ReadValue(At("<" + more)) == Ok(kids, rest)
    ensures ReadValue(At(Encode(v) + (ws + ("<" + more)))) == Ok([Text(v)] + kids, rest)
  {
    TextReads(v, ws, more);
    NothingToSkip("<" + more);
    hide ParseText, Encode, SkipWhiteSpace, TrimText;
  }

  lemma ElementThenKids(name: string, more: string, e: Node, afterKid: string, kids: seq<Node>, rest: string)
    requires ValidName(name) && ParseElement("<" + (name + more)) == Ok(e, afterKid)
    requires ReadValue(SkipWhiteSpace(At(afterKid))) == Ok(kids, rest)
    ensures ReadValue(At("<" + (name + more))) == Ok([e] + kids, rest)
  {
    var s := "<" + (name + more);
    assert s[1] == name[0];
    assert !("</" <= s) by {
      assert "</"[1] == '/';
    }
    hide ParseElement, SkipWhiteSpace;
  }

  lemma EndTagEndsKids(t: string)
    ensures ReadValue(At("</" + t)) == Ok([], "</" + t)
  {
  }

  lemma NewlineSkipped(s: string)
    requires s != ""
    ensures SkipWhiteSpace(At("\n" + s)) == SkipWhiteSpace(At(s))
  {
    assert ("\n" + s)[1..] == s;
  }

  // ----- elements and lists of children together

  /** `PrintNode` of an element, followed by `rest`, from its tag on. */
  function FromTag(e: Node, depth: nat, rest: string): string
    requires e.Element?
  {
    "<" + (CString(e.name) + (PrintAttributes(Walked(e.attrs)) + (PrintContent(CString(e.name), e.kids, depth) + rest)))
  }

  /** With names as the parser reads them the printer leaves nothing out. */
  lemma PrintedWhole(e: Node)
    requires e.Element? && ValidName(e.name) && forall i :: 0 <= i < |e.attrs| ==> ValidName(e.attrs[i].name)
    ensures CString(e.name) == e.name && Walked(e.attrs) == e.attrs
  {
    CStringWhole(e.name);
    if e.attrs != [] {
      AllWalked(e.attrs[1..]);
    }
  }

  lemma {:induction false} AllWalked(attrs: seq<Attribute>)
    requires forall i :: 0 <= i < |attrs| ==> ValidName(attrs[i].name)
    ensures UntilEmpty(attrs) == attrs
  {
    if attrs != [] {
      AllWalked(attrs[1..]);
    }
  }

  lemma PrintElementThen(e: Node, depth: nat, rest: string)
    requires e.Element?
    ensures PrintNode(e, depth) + rest == Indent(depth) + FromTag(e, depth, rest)
  {
    hide PrintAttributes, PrintContent, Indent, CString, Walked;
  }

  lemma PrintNodesThen(nodes: seq<Node>, depth: nat, rest: string)
    requires nodes != []
    ensures PrintNodes(nodes, depth) + rest == PrintNode(nodes[0], depth) + (PrintNodes(nodes[1..], depth) + rest)
  {
    hide PrintNode;
  }

  /** Printed children that do not start with a text, and the end tag after them, start with a tag. */
  lemma NodesStartWithTag(kids: seq<Node>, depth: nat, ws: string, t: string) returns (ws': string, more: string)
    requires (kids != [] ==> kids[0].Element? && kids[0].name != "") && AllWhiteSpace(ws) && t != ""
    ensures AllWhiteSpace(ws') && more != ""
    ensures PrintNodes(kids, depth) + (ws + ("</" + t)) == ws' + ("<" + more)
  {
    if kids == [] {
      ws', more := ws, "/" + t;
      assert "</" + t == "<" + more;
      assert PrintNodes(kids, depth) + (ws + ("</" + t)) == ws + ("</" + t);
    } else {
      var rest := PrintNodes(kids[1..], depth) + (ws + ("</" + t));
      PrintNodesThen(kids, depth, ws + ("</" + t));
      PrintElementThen(kids[0], depth, rest);
      ws', more := Indent(depth), FromTag(kids[0], depth, rest)[1..];
      assert "<" + more == FromTag(kids[0], depth, rest);
    }
  }

  lemma PrintTextThen(v: string, depth: nat, ws: string, next: string)
    ensures PrintNode(Text(v), depth) + (ws + next) == Indent(depth) + (Encode(v) + ("\n" + ws + next))
  {
    hide Encode, Indent;
  }

  lemma TextNodeThen(v: string, depth: nat, ws: string, more: string, kids: seq<Node>, rest: string)
    requires PrintableText(v) && AllWhiteSpace(ws) && more != ""
    requires ReadValue(SkipWhiteSpace(At(ws + ("<" + more)))) == Ok(kids, rest)
    ensures ReadValue(SkipWhiteSpace(At(PrintNode(Text(v), depth) + (ws + ("<" + more))))) == Ok([Text(v)] + kids, rest)
  {
    var ws' := "\n" + ws;
    assert AllWhiteSpace(ws');
    hide ReadValue, Indent, PrintableText, Encode, PrintNode, SkipWhiteSpace, AllWhiteSpace;
    Skips(ws, "<" + more);
    TextThenKids(v, ws', more, kids, rest);
    PlainTextStart(v, ws' + ("<" + more));
    Skips(Indent(depth), Encode(v) + (ws' + ("<" + more)));
    PrintTextThen(v, depth, ws, "<" + more);
  }

  lemma ElementNodeThen(e: Node, depth: nat, later: string, kids: seq<Node>, rest: string)
    requires e.Element? && Printable(e) && later != ""
    requires ParseElement(FromTag(e, depth, later)) == Ok(e, "\n" + later)
    requires ReadValue(SkipWhiteSpace(At(later))) == Ok(kids, rest)
    ensures ReadValue(SkipWhiteSpace(At(PrintNode(e, depth) + later))) == Ok([e] + kids, rest)
  {
    PrintedWhole(e);
    hide ReadValue, ParseElement, PrintNode, PrintContent, PrintAttributes, Indent, CString, Walked, Printable;
    NewlineSkipped(later);
    PrintElementThen(e, depth, later);
    Skips(Indent(depth), FromTag(e, depth, later));
    var more := PrintAttributes(e.attrs) + (PrintContent(e.name, e.kids, depth) + later);
    ElementThenKids(e.name, more, e, "\n" + later, kids, rest);
  }

  lemma ContentThen(name: string, kids: seq<Node>, depth: nat, rest: string)
    ensures kids == [] ==> PrintContent(name, kids, depth) + rest == " />" + ("\n" + rest)
    ensures IsSimple(kids) ==>
      PrintContent(name, kids, depth) + rest ==
      ">" + (Encode(kids[0].value) + ("" + ("<" + ("/" + name + ">" + ("\n" + rest)))))
    ensures kids != [] && !IsSimple(kids) ==>
      PrintContent(name, kids, depth) + rest ==
      ">" + ("\n" + (PrintNodes(kids, depth + 1) + (Indent(depth) + ("</" + (name + ">" + ("\n" + rest))))))
  {
    hide PrintContent, PrintNodes, Indent, Encode;
    ContentIs(name, kids, depth);
    if kids != [] && !IsSimple(kids) {
      Regrouped(PrintNodes(kids, depth + 1), Indent(depth), name, rest);
    }
  }

  lemma ContentIs(name: string, kids: seq<Node>, depth: nat)
    ensures PrintContent(name, kids, depth)
         == if kids == [] then " />\n"
            else if IsSimple(kids) then ">" + Encode(kids[0].value) + "</" + name + ">\n"
            else ">\n" + PrintNodes(kids, depth + 1) + Indent(depth) + "</" + name + ">\n"
  {
    hide PrintNodes, Indent, Encode;
  }

  lemma Regrouped(nodes: string, indent: string, name: string, rest: string)
    ensures ">\n" + nodes + indent + "</" + name + ">\n" + rest
         == ">" + ("\n" + (nodes + (indent + ("</" + (name + ">" + ("\n" + rest))))))
  {
  }

  lemma SimpleReads(name: string, attrs: seq<Attribute>, v: string, rest: string)
    requires PrintableText(v)
    ensures ParseAttributes(name, attrs, ">" + (Encode(v) + ("" + ("<" + ("/" + name + ">" + rest))))) ==
            Ok(Element(name, attrs, [Text(v)]), rest)
  {
    hide ParseAttributes, Encode, PrintableText;
    var more := "/" + name + ">" + rest;
    EndTagEndsKids(name + ">" + rest);
    assert "<" + more == "</" + (name + ">" + rest);
    assert "<" + more == "</" + name + ">" + rest;
    hide ReadValue, SkipWhiteSpace;
    TextThenKids(v, "", more, [], "<" + more);
    var body := Encode(v) + ("" + ("<" + more));
    PlainTextStart(v, "" + ("<" + more));
    NothingToSkip(body);
    assert [Text(v)] + [] == [Text(v)];
    KidsThenEndTag(name, attrs, [Text(v)], body, rest);
  }

  lemma ManyRead(name: string, attrs: seq<Attribute>, kids: seq<Node>, depth: nat, rest: string)
    requires var t := name + ">" + rest;
      ReadValue(SkipWhiteSpace(At(PrintNodes(kids, depth + 1) + (Indent(depth) + ("</" + t))))) == Ok(kids, "</" + t)
    ensures var body := PrintNodes(kids, depth + 1) + (Indent(depth) + ("</" + (name + ">" + rest)));
      ParseAttributes(name, attrs, ">" + ("\n" + body)) == Ok(Element(name, attrs, kids), rest)
  {
    hide ParseAttributes, PrintNodes, Indent, ReadValue;
    var t := name + ">" + rest;
    var later := PrintNodes(kids, depth + 1) + (Indent(depth) + ("</" + t));
    NewlineSkipped(later);
    hide SkipWhiteSpace;
    assert "</" + t == "</" + name + ">" + rest;
    KidsThenEndTag(name, attrs, kids, "\n" + later, rest);
  }

  lemma PrintableFirst(kids: seq<Node>)
    requires kids != [] && AllPrintable(kids) && TextsApart(kids)
    ensures Printable(kids[0]) && AllPrintable(kids[1..]) && TextsApart(kids[1..])
    ensures kids[0].Text? && kids[1..] != [] ==> kids[1..][0].Element? && ValidName(kids[1..][0].name)
    ensures kids[0].Element? ==> ValidName(kids[0].name)
  {
    var t := kids[1..];
    assert forall i :: 0 <= i < |t| ==> t[i] == kids[i + 1];
    if t != [] {
      assert Printable(t[0]);
    }
  }

  /** An element printed at any depth is parsed back up to its own end, whatever follows. */
  lemma {:induction false} ElementReads(e: Node, depth: nat, rest: string)
    requires e.Element? && Printable(e)
    ensures ParseElement(FromTag(e, depth, rest)) == Ok(e, "\n" + rest)
    decreases e, 1
  {
    PrintedWhole(e);
    var content := PrintContent(e.name, e.kids, depth) + rest;
    var simple := IsSimple(e.kids);
    ContentThen(e.name, e.kids, depth, rest);
    assert simple ==> Printable(e.kids[0]);
    hide ParseElement, ParseAttributes, PrintContent, PrintAttributes, PrintNodes, IsSimple, ReadValue;
    hide PrintableAttributes, AllPrintable, CString, Walked;
    assert content != "" && (content[0] == ' ' || content[0] == '>');
    HeadReads(e.name, e.attrs, content);
    if e.kids == [] {
      EmptyReads(e.name, e.attrs, "\n" + rest);
    } else if simple {
      SimpleReads(e.name, e.attrs, e.kids[0].value, "\n" + rest);
      assert e.kids == [Text(e.kids[0].value)];
    } else {
      NodesRead(e.kids, depth + 1, Indent(depth), e.name + ">" + ("\n" + rest));
      ManyRead(e.name, e.attrs, e.kids, depth, "\n" + rest);
    }
  }

  /** Children printed one per line are read back up to the end tag that follows them. */
  lemma {:induction false} NodesRead(kids: seq<Node>, depth: nat, ws: string, t: string)
    requires AllPrintable(kids) && TextsApart(kids) && AllWhiteSpace(ws) && t != ""
    ensures ReadValue(SkipWhiteSpace(At(PrintNodes(kids, depth) + (ws + ("</" + t))))) == Ok(kids, "</" + t)
    decreases kids, 0
  {
    var tail := ws + ("</" + t);
    if kids == [] {
      assert PrintNodes(kids, depth) + tail == tail;
      Skips(ws, "</" + t);
      EndTagEndsKids(t);
    } else {
      var later := PrintNodes(kids[1..], depth) + tail;
      PrintNodesThen(kids, depth, tail);
      PrintableFirst(kids);
      hide ReadValue, SkipWhiteSpace, PrintNodes, PrintNode;
      NodesRead(kids[1..], depth, ws, t);
      if kids[0].Text? {
        var ws', more := NodesStartWithTag(kids[1..], depth, ws, t);
        TextNodeThen(kids[0].value, depth, ws', more, kids[1..], "</" + t);
      } else {
        ElementReads(kids[0], depth, later);
        ElementNodeThen(kids[0], depth, later, kids[1..], "</" + t);
      }
      assert kids == [kids[0]] + kids[1..];
    }
  }

  // ----- documents

  function PrintDocument(elements: seq<Node>): string
  {
    PrintNodes(elements, 0)
  }

  predicate AllElements(nodes: seq<Node>)
  {
    forall i :: 0 <= i < |nodes| ==> nodes[i].Element?
  }

  lemma NewlineBeforeElements(s: string)
    ensures ParseElements(SkipWhiteSpace(At("\n" + s))) == ParseElements(SkipWhiteSpace(At(s)))
  {
    if s != "" {
      NewlineSkipped(s);
    } else {
      assert ("\n" + s)[1..] == "";
    }
  }

  lemma FirstElementRead(e: Node, depth: nat, later: string, kids: seq<Node>)
    requires e.Element? && ValidName(e.name)
    requires ParseElement(FromTag(e, depth, later)) == Ok(e, "\n" + later)
    requires ParseElements(SkipWhiteSpace(At(later))) == Ok(kids, "")
    ensures ParseElements(SkipWhiteSpace(At(PrintNode(e, depth) + later))) == Ok([e] + kids, "")
  {
    CStringWhole(e.name);
    hide CString, Walked;
    var s := FromTag(e, depth, later);
    NewlineBeforeElements(later);
    PrintElementThen(e, depth, later);
    hide ParseElement, PrintNode, PrintContent, PrintAttributes, Indent;
    assert s[0] == '<' && s[1] == e.name[0];
    Skips(Indent(depth), s);
    hide SkipWhiteSpace;
  }

  lemma FirstPrintable(elements: seq<Node>)
    requires elements != [] && AllElements(elements) && AllPrintable(elements)
    ensures Printable(elements[0]) && ValidName(elements[0].name)
    ensures AllPrintable(elements[1..]) && AllElements(elements[1..])
  {
  }

  lemma {:induction false} ElementsRead(elements: seq<Node>, depth: nat)
    requires AllElements(elements) && AllPrintable(elements)
    ensures ParseElements(SkipWhiteSpace(At(PrintNodes(elements, depth)))) == Ok(elements, "")
  {
    if elements != [] {
      FirstPrintable(elements);
      hide ParseElement, ParseElements, SkipWhiteSpace, PrintNodes, PrintNode, AllPrintable, Printable, ValidName;
      var later := PrintNodes(elements[1..], depth);
      PrintNodesThen(elements, depth, "");
      assert PrintNodes(elements, depth) + "" == PrintNodes(elements, depth);
      assert later + "" == later;
      ElementsRead(elements[1..], depth);
      ElementReads(elements[0], depth, later);
      FirstElementRead(elements[0], depth, later, elements[1..]);
      assert elements == [elements[0]] + elements[1..];
    }
  }

  lemma PrintedStartsWithTag(elements: seq<Node>)
    requires elements != [] && AllElements(elements)
    ensures var s := PrintDocument(elements); s != "" && s[0] == '<'
  {
    hide CString, Walked;
    PrintNodesThen(elements, 0, "");
    PrintElementThen(elements[0], 0, PrintNodes(elements[1..], 0));
    assert PrintNodes(elements, 0) + "" == PrintNodes(elements, 0);
    assert PrintNodes(elements[1..], 0) + "" == PrintNodes(elements[1..], 0);
    assert Indent(0) == "";
    hide PrintNode, PrintNodes, PrintContent, PrintAttributes;
  }

  /** Parsing a pretty-printed document gives back exactly its elements. */
  lemma DocumentRoundTrip(elements: seq<Node>)
    requires elements != [] && AllElements(elements) && AllPrintable(elements)
    ensures ParseDocument(PrintDocument(elements)) == Ok(elements, "")
  {
    PrintedStartsWithTag(elements);
    hide PrintNodes, AllPrintable, AllElements;
    ElementsRead(elements, 0);
    assert BYTE_ORDER_MARK[0] != '<';
  }

  // ----- the conditions on the trees are necessary

  /** What holds of every node the parser builds, whatever text it read. */
  predicate ParserShape(n: Node)
    decreases n, 1
  {
    match n
    case Text(value) => !AllWhiteSpace(value)
    case Element(name, attrs, kids) =>
      && ValidName(name) && DistinctNames(attrs)
      && (forall i :: 0 <= i < |attrs| ==> ValidName(attrs[i].name))
      && TextsApart(kids) && AllParserShape(kids)
  }

  predicate AllParserShape(nodes: seq<Node>)
    decreases nodes, 0
  {
    nodes == [] || (ParserShape(nodes[0]) && AllParserShape(nodes[1..]))
  }

  lemma {:induction false} NameLengthName(s: string)
    ensures forall i :: 0 <= i < NameLength(s) ==> IsNameChar(s[i])
  {
    if s != "" && IsNameChar(s[0]) {
      NameLengthName(s[1..]);
      forall i | 0 <= i < NameLength(s) ensures IsNameChar(s[i]) {
        if i > 0 {
          assert s[i] == s[1..][i - 1];
        }
      }
    }
  }

  lemma ReadNameValid(p: Cursor, error: Error)
    ensures ReadName(p, error).Ok? ==> ValidName(ReadName(p, error).value)
  {
    if p.More() {
      NameLengthName(p.rest);
      assert IsNameStart(p.rest[0]) ==> NameLength(p.rest) > 0;
    }
  }

  lemma ParseAttributeValid(s: string)
    ensures ParseAttribute(s).Ok? ==> ValidName(ParseAttribute(s).value.name)
  {
    ReadNameValid(SkipWhiteSpace(At(s)), ReadingAttributes);
    hide ReadName, SkipWhiteSpace, ReadAttributeValue, ValidName;
  }

  predicate NamesOk(attrs: seq<Attribute>)
  {
    DistinctNames(attrs) && forall i :: 0 <= i < |attrs| ==> ValidName(attrs[i].name)
  }

  lemma AddName(attrs: seq<Attribute>, a: Attribute)
    requires NamesOk(attrs) && ValidName(a.name) && !HasName(attrs, a.name)
    ensures NamesOk(attrs + [a])
  {
  }

  lemma {:induction false} ParseElementShape(s: string)
    ensures ParseElement(s).Ok? ==> ParseElement(s).value.Element? && ParserShape(ParseElement(s).value)
    decreases |s|, 2
  {
    var p := SkipWhiteSpace(At(s));
    if p.More() && p.rest[0] == '<' {
      var q := SkipWhiteSpace(At(p.rest[1..]));
      var r := ReadName(q, FailedToReadElementName);
      ReadNameValid(q, FailedToReadElementName);
      if r.Ok? {
        ParseAttributesShape(r.value, [], r.rest);
      }
    }
  }

  lemma {:induction false} ParseAttributesShape(name: string, attrs: seq<Attribute>, s: string)
    requires s != "" && ValidName(name) && NamesOk(attrs)
    ensures var r := ParseAttributes(name, attrs, s); r.Ok? ==> r.value.Element? && ParserShape(r.value)
    decreases |s|, 1
  {
    var p := SkipWhiteSpace(At(s));
    if p.More() && p.rest[0] == '>' {
      var q := SkipWhiteSpace(At(p.rest[1..]));
      ReadValueShape(q);
      hide ReadValue, ParseElement, SkipWhiteSpace, ValidName;
    } else if p.More() && p.rest[0] != '/' {
      var r := ParseAttribute(p.rest);
      ParseAttributeValid(p.rest);
      if r.Ok? && !HasName(attrs, r.value.name) {
        AddName(attrs, r.value);
        ParseAttributesShape(name, attrs + [r.value], r.rest);
        hide ParseAttribute, ReadValue, ParserShape, NamesOk, ValidName, SkipWhiteSpace;
      }
    }
  }

  lemma TextBefore(value: string, kids: seq<Node>)
    requires TextsApart(kids) && AllParserShape(kids) && (kids != [] ==> kids[0].Element?)
    ensures !AllWhiteSpace(value) ==> TextsApart([Text(value)] + kids) && AllParserShape([Text(value)] + kids)
    ensures [] + kids == kids
  {
    assert ([Text(value)] + kids)[1..] == kids;
  }

  /** Two texts are never side by side: reading a text stops only at a tag. */
  lemma {:induction false} ReadValueShape(p: Cursor)
    requires p.More() ==> !IsWhiteSpace(p.rest[0])
    ensures var r := ReadValue(p); r.Ok? ==>
      && TextsApart(r.value) && AllParserShape(r.value)
      && (p.More() && p.rest[0] == '<' && r.value != [] ==> r.value[0].Element?)
    decreases if p.At? then |p.rest| else 0, 3
  {
    if p.More() && p.rest[0] != '<' {
      var (q, value) := ParseText(p.rest);
      assert q.At? ==> q.rest[0] == '<' && SkipWhiteSpace(q) == q;
      hide ParseText, SkipWhiteSpace;
      ReadValueShape(SkipWhiteSpace(q));
      var r := ReadValue(SkipWhiteSpace(q));
      if r.Ok? {
        TextBefore(value, r.value);
      }
    } else if p.More() && !("</" <= p.rest) && StartsElement(p.rest) {
      ParseElementShape(p.rest);
      var r := ParseElement(p.rest);
      if r.Ok? {
        hide ParseElement;
        ReadValueShape(SkipWhiteSpace(At(r.rest)));
      }
    }
  }

  /** Every document the parser accepts has that shape, so no tree without it can come back from its printed form. */
  lemma {:induction false} ParseElementsShape(p: Cursor)
    ensures ParseElements(p).Ok? ==> AllElements(ParseElements(p).value) && AllParserShape(ParseElements(p).value)
    decreases if p.At? then |p.rest| else 0
  {
    if p.More() && StartsElement(p.rest) {
      ParseElementShape(p.rest);
      var r := ParseElement(p.rest);
      if r.Ok? {
        hide ParseElement, StartsElement;
        ParseElementsShape(SkipWhiteSpace(At(r.rest)));
      }
    }
  }

  lemma ParsedDocumentShape(s: string)
    ensures var r := ParseDocument(s); r.Ok? ==> r.value != [] && AllElements(r.value) && AllParserShape(r.value)
  {
    ParseElementsShape(SkipWhiteSpace(At(s)));
    hide ParseElements;
  }

  // ----- and so are the conditions on texts

  /** What follows the opening angle bracket of the end tag, up to the end of the document. */
  function AfterSimple(name: string): string { "/" + name + ">" + "\n" }

  lemma AfterSimpleClosed(name: string)
    requires ValidName(name)
    ensures Closed("<" + AfterSimple(name))
  {
    assert ';' !in name;
  }

  function SimpleContent(name: string, value: string): string
  {
    ">" + (Encode(value) + ("<" + AfterSimple(name)))
  }

  lemma SimpleDocumentText(e: Node, value: string)
    requires e.Element? && ValidName(e.name) && e.attrs == [] && e.kids == [Text(value)]
    ensures PrintDocument([e]) == "<" + (e.name + (PrintAttributes([]) + SimpleContent(e.name, value)))
  {
    hide PrintContent, Encode, PrintAttributes, PrintDocument;
    PrintedAlone(e);
    ContentThen(e.name, e.kids, 0, "");
    assert "\n" + "" == "\n" && "/" + e.name + ">" + "\n" == AfterSimple(e.name);
  }

  /** What is printed for a document of one element. */
  lemma PrintedAlone(e: Node)
    requires e.Element? && ValidName(e.name) && forall i :: 0 <= i < |e.attrs| ==> ValidName(e.attrs[i].name)
    ensures PrintDocument([e]) == "<" + (e.name + (PrintAttributes(e.attrs) + (PrintContent(e.name, e.kids, 0) + "")))
  {
    OneNode(e);
    hide PrintNode, PrintNodes, PrintContent, PrintAttributes, CString, Walked;
    PrintedWhole(e);
    PrintElementThen(e, 0, "");
    assert Indent(0) == "";
    assert PrintNode(e, 0) + "" == PrintNode(e, 0);
  }

  lemma OneNode(e: Node)
    ensures PrintNodes([e], 0) == PrintNode(e, 0)
  {
    assert [e][1..] == [];
    assert PrintNodes([], 0) == "";
    hide PrintNode;
  }

  lemma FirstElementParsed(t: string, e: Node)
    requires StartsElement(t) && ParseDocument(t) == Ok([e], "")
    ensures ParseElement(t).Ok? && ParseElement(t).value == e
  {
    NothingToSkip(t);
    assert BYTE_ORDER_MARK[0] != '<';
    hide ParseElement, SkipWhiteSpace;
    var r := ParseElements(At(t));
    assert ParseDocument(t) == r;
    assert r.value == [e];
    var kid := ParseElement(t);
    assert kid.Ok?;
    assert r.value == [kid.value] + ParseElements(SkipWhiteSpace(At(kid.rest))).value;
    assert r.value[0] == kid.value;
  }

  lemma KidsParsed(name: string, body: string, e: Node)
    requires e.Element? && ParseAttributes(name, [], ">" + body).Ok? && ParseAttributes(name, [], ">" + body).value == e
    ensures ReadValue(SkipWhiteSpace(At(body))).Ok? && ReadValue(SkipWhiteSpace(At(body))).value == e.kids
  {
    NothingToSkip(">" + body);
    assert (">" + body)[1..] == body;
    hide ReadValue, SkipWhiteSpace;
  }

  /** A list of children that is one text was read as that text. */
  lemma OneTextRead(u: string, value: string)
    requires u != "" && !IsWhiteSpace(u[0])
    requires ReadValue(At(u)).Ok? && ReadValue(At(u)).value == [Text(value)]
    ensures u[0] != '<' && ParseText(u).1 == value && !AllWhiteSpace(value)
  {
    ReadValueShape(At(u));
    if u[0] != '<' {
      var (q, v) := ParseText(u);
      assert q.At? ==> q.rest[0] == '<' && SkipWhiteSpace(q) == q;
      hide ParseText, SkipWhiteSpace;
      ReadValueShape(SkipWhiteSpace(q));
    }
  }

  lemma TextReadBack(value: string, rest: string)
    requires Closed("<" + rest)
    requires var r := ReadValue(SkipWhiteSpace(At(Encode(value) + ("<" + rest)))); r.Ok? && r.value == [Text(value)]
    ensures PrintableText(value)
  {
    var body := Encode(value) + ("<" + rest);
    var u := DropWhiteSpace(body);
    hide Encode, ReadValue, ParseText, TrimText;
    assert SkipWhiteSpace(At(body)) == At(u);
    if u == "" {
      NoKidsAtEnd();
    } else {
      OneTextRead(u, value);
      ParseTextValue(u);
      assert ReadBack(value, true, "<", rest) == ReadText(At(body), true, "<").1;
      TrimRoundTripIff(value, "<", rest);
    }
  }

  lemma NoKidsAtEnd()
    ensures !ReadValue(At("")).Ok?
  {
  }

  lemma ParseTextValue(u: string)
    requires u != "" && u[0] != '<' && !IsWhiteSpace(u[0])
    ensures ParseText(u).1 == TrimText(u, "<", false).1
  {
    NothingToSkip(u);
    hide TrimText;
  }

  lemma SimpleValueReadBack(e: Node, value: string)
    requires e.Element? && ValidName(e.name) && e.attrs == [] && e.kids == [Text(value)]
    requires ParseDocument(PrintDocument([e])) == Ok([e], "")
    ensures PrintableText(value)
  {
    var t, content := PrintDocument([e]), SimpleContent(e.name, value);
    SimpleDocumentText(e, value);
    assert t[1] == e.name[0];
    hide ParseDocument, ParseElement, ParseAttributes, PrintDocument, PrintAttributes, ReadValue, Encode, PrintableText;
    FirstElementParsed(t, e);
    HeadReads(e.name, [], content);
    KidsParsed(e.name, Encode(value) + ("<" + AfterSimple(e.name)), e);
    AfterSimpleClosed(e.name);
    TextReadBack(value, AfterSimple(e.name));
  }

  /** An element whose one child is a text comes back exactly when the text meets the conditions above. */
  lemma SimpleElementRoundTripIff(name: string, value: string)
    requires ValidName(name)
    ensures var e := Element(name, [], [Text(value)]);
      ParseDocument(PrintDocument([e])) == Ok([e], "") <==> PrintableText(value)
  {
    var e := Element(name, [], [Text(value)]);
    hide ParseDocument, PrintDocument, PrintableText;
    if PrintableText(value) {
      SimplePrintable(e, value);
      DocumentRoundTrip([e]);
    }
    if ParseDocument(PrintDocument([e])) == Ok([e], "") {
      SimpleValueReadBack(e, value);
    }
  }

  lemma SimplePrintable(e: Node, value: string)
    requires e.Element? && ValidName(e.name) && e.attrs == [] && e.kids == [Text(value)] && PrintableText(value)
    ensures AllPrintable([e]) && AllElements([e])
  {
    assert Printable(Text(value)) && AllPrintable([Text(value)][1..]);
    assert AllPrintable([Text(value)]);
    assert PrintableAttributes([]) && TextsApart(e.kids);
    assert Printable(e) && AllPrintable([e][1..]);
  }

  // ----- and that on the values of attributes

  lemma HeadParses(name: string, rest: string)
    requires ValidName(name) && rest != "" && !IsNameChar(rest[0])
    ensures ParseElement("<" + (name + rest)) == ParseAttributes(name, [], rest)
  {
    var s := "<" + (name + rest);
    NameReads(name, rest, FailedToReadElementName);
    NothingToSkip(s);
    assert s[1..] == name + rest;
    hide ParseAttributes, ReadName, SkipWhiteSpace, ValidName;
  }

  /** Attributes once parsed stay. */
  lemma {:induction false} AttributesStay(name: string, attrs: seq<Attribute>, s: string)
    requires s != ""
    ensures var r := ParseAttributes(name, attrs, s); r.Ok? ==> r.value.Element? && attrs <= r.value.attrs
    decreases |s|
  {
    hide ReadValue, SkipWhiteSpace, ParseAttribute, HasName;
    var p := SkipWhiteSpace(At(s));
    if p.More() && p.rest[0] != '/' && p.rest[0] != '>' {
      var r := ParseAttribute(p.rest);
      if r.Ok? && !HasName(attrs, r.value.name) {
        AttributesStay(name, attrs + [r.value], r.rest);
      }
    }
  }

  lemma OneAttributeFirst(name: string, s: string)
    requires s != "" && IsNameStart(s[0])
    ensures var (r, all) := (ParseAttribute(s), ParseAttributes(name, [], " " + s));
      all.Ok? ==> r.Ok? && all == ParseAttributes(name, [r.value], r.rest)
  {
    hide ParseAttribute, SkipWhiteSpace, ReadValue, ReadName;
    Skips(" ", s);
    assert SkipWhiteSpace(At(" " + s)).rest == s;
    if ParseAttribute(s).Ok? {
      var a := ParseAttribute(s).value;
      assert !HasName([], a.name) && [] + [a] == [a];
    }
  }

  lemma FirstAttributeParsed(name: string, a: Attribute, tail: string)
    requires ValidName(a.name)
    requires var r := ParseAttributes(name, [], " " + (PrintAttribute(a) + tail));
      r.Ok? && r.value == Element(name, [a], [])
    ensures var r := ParseAttribute(PrintAttribute(a) + tail); r.Ok? && r.value == a
  {
    hide ParseAttribute, PrintAttribute, ParseAttributes;
    PrintAttributeParts(a);
    var s := PrintAttribute(a) + tail;
    assert s[0] == a.name[0];
    OneAttributeFirst(name, s);
    var r := ParseAttribute(s);
    AttributesStay(name, [r.value], r.rest);
    assert [r.value] <= [a] ==> [r.value][0] == [a][0];
  }

  lemma AttributeAfterName(name: string, v: string)
    requires ValidName(name) && v != "" && !IsWhiteSpace(v[0])
    ensures var r := ParseAttribute(name + ("=" + v));
      r.Ok? ==> ReadAttributeValue(v).Ok? && r.value == Attribute(name, ReadAttributeValue(v).value)
  {
    NameReads(name, "=" + v, ReadingAttributes);
    NothingToSkip("=" + v);
    assert ("=" + v)[1..] == v;
    NothingToSkip(v);
    hide ReadAttributeValue, SkipWhiteSpace, ReadName, ValidName;
  }

  lemma QuotedValue(value: string, rest: string)
    ensures var q := Quote(value);
      var r := ReadAttributeValue([q] + (Encode(value) + ([q] + rest)));
      r.Ok? ==> r.value == ReadBack(value, false, [q], rest)
  {
    hide ReadText, Encode;
    var q := Quote(value);
    assert ([q] + (Encode(value) + ([q] + rest)))[1..] == Encode(value) + ([q] + rest);
  }

  lemma AttributeReadBack(a: Attribute, rest: string)
    requires ValidName(a.name) && rest != "" && Closed(rest)
    requires var r := ParseAttribute(PrintAttribute(a) + rest); r.Ok? && r.value == a
    ensures Plain(a.value)
  {
    hide ParseAttribute, ReadAttributeValue, Encode, PrintAttribute, ReadBack, Plain;
    var q := Quote(a.value);
    var v := [q] + (Encode(a.value) + ([q] + rest));
    PrintAttributeParts(a);
    assert PrintAttribute(a) + rest == a.name + ("=" + v);
    AttributeAfterName(a.name, v);
    QuotedValue(a.value, rest);
    KeepRoundTripIff(a.value, [q], rest);
  }

  lemma OneAttributeText(name: string, a: Attribute)
    requires ValidName(name) && ValidName(a.name)
    ensures PrintDocument([Element(name, [a], [])]) == "<" + (name + (" " + (PrintAttribute(a) + " />\n")))
  {
    var e := Element(name, [a], []);
    assert PrintAttributes([a]) == " " + PrintAttribute(a);
    hide PrintContent, PrintAttribute, PrintAttributes, PrintDocument;
    PrintedAlone(e);
    ContentThen(name, [], 0, "");
    assert " />" + ("\n" + "") == " />\n";
  }

  /** An element with one attribute comes back exactly when there is no "&#x" in the attribute's value. */
  lemma OneAttributeRoundTripIff(name: string, a: Attribute)
    requires ValidName(name) && ValidName(a.name)
    ensures var e := Element(name, [a], []);
      ParseDocument(PrintDocument([e])) == Ok([e], "") <==> Plain(a.value)
  {
    var e := Element(name, [a], []);
    hide ParseDocument, PrintDocument, Plain, ParseElement, ParseAttributes, ParseAttribute, PrintAttribute;
    if Plain(a.value) {
      OneAttributePrintable(e, a);
      DocumentRoundTrip([e]);
    }
    if ParseDocument(PrintDocument([e])) == Ok([e], "") {
      OneAttributeText(name, a);
      assert StartsElement(PrintDocument([e])) by {
        assert PrintDocument([e])[1] == name[0];
      }
      FirstElementParsed(PrintDocument([e]), e);
      HeadParses(name, " " + (PrintAttribute(a) + " />\n"));
      FirstAttributeParsed(name, a, " />\n");
      AttributeReadBack(a, " />\n");
    }
  }

  lemma OneAttributePrintable(e: Node, a: Attribute)
    requires e.Element? && ValidName(e.name) && e.attrs == [a] && e.kids == []
    requires ValidName(a.name) && Plain(a.value)
    ensures AllPrintable([e]) && AllElements([e])
  {
    assert PrintableAttributes([a]) && TextsApart([]) && AllPrintable([]);
    assert Printable(e) && AllPrintable([e][1..]);
  }
}
