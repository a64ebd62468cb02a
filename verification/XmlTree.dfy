/** Element trees, the text the pretty-printer gives for them and what the recursive-descent parser makes of a text. */
module XmlTree {
  import opened CStrings
  import opened XmlText

  datatype Attribute = Attribute(name: string, value: string)

  /** `Text` is text other than CDATA. */
  datatype Node =
    | Element(name: string, attrs: seq<Attribute>, kids: seq<Node>)
    | Text(value: string)

  // ----- names

  /** `IsAlpha`: English letters, and every byte from 127 on. */
  predicate IsAlpha(c: char)
  {
    'A' <= c <= 'Z' || 'a' <= c <= 'z' || c >= 127 as char
  }

  predicate IsNameStart(c: char) { IsAlpha(c) || c == '_' }

  predicate IsNameChar(c: char)
  {
    IsAlpha(c) || '0' <= c <= '9' || c == '_' || c == '-' || c == '.' || c == ':'
  }

  predicate ValidName(s: string)
  {
    s != "" && IsNameStart(s[0]) && forall i :: 0 <= i < |s| ==> IsNameChar(s[i])
  }

  // ----- printing

  /** An attribute that looks like the sentinel of the ring of attributes. */
  predicate IsEmpty(a: Attribute) { a.name == "" && a.value == "" }

  function UntilEmpty(attrs: seq<Attribute>): seq<Attribute>
  {
    if attrs == [] || IsEmpty(attrs[0]) then [] else [attrs[0]] + UntilEmpty(attrs[1..])
  }

  /** The attributes met from `First` by `Next`, which takes an attribute without name and value for the end. */
  function Walked(attrs: seq<Attribute>): seq<Attribute>
  {
    if attrs == [] then [] else [attrs[0]] + UntilEmpty(attrs[1..])
  }

  function Indent(depth: nat): (r: string)
    ensures AllWhiteSpace(r)
  {
    if depth == 0 then "" else Indent(depth - 1) + "    "
  }

  function PrintAttribute(a: Attribute): string
  {
    if '\"' in a.value then Encode(a.name) + "='" + Encode(a.value) + "'"
    else Encode(a.name) + "=\"" + Encode(a.value) + "\""
  }

  function PrintAttributes(attrs: seq<Attribute>): string
  {
    if attrs == [] then "" else " " + PrintAttribute(attrs[0]) + PrintAttributes(attrs[1..])
  }

  /** An element whose only child is a text is printed on one line. */
  predicate IsSimple(kids: seq<Node>)
  {
    |kids| == 1 && kids[0].Text?
  }

  /** A name is printed as a C string, a text whole. */
  function PrintNode(n: Node, depth: nat): string
    decreases n, 1
  {
    match n
    case Text(value) => Indent(depth) + Encode(value) + "\n"
    case Element(name, attrs, kids) =>
      Indent(depth) + "<" + CString(name) + PrintAttributes(Walked(attrs)) + PrintContent(CString(name), kids, depth)
  }

  /** From the end of the attributes on. */
  function PrintContent(name: string, kids: seq<Node>, depth: nat): string
    decreases kids, 1
  {
    if kids == [] then " />\n"
    else if IsSimple(kids) then ">" + Encode(kids[0].value) + "</" + name + ">\n"
    else ">\n" + PrintNodes(kids, depth + 1) + Indent(depth) + "</" + name + ">\n"
  }

  function PrintNodes(nodes: seq<Node>, depth: nat): string
    decreases nodes, 0
  {
    if nodes == [] then "" else PrintNode(nodes[0], depth) + PrintNodes(nodes[1..], depth)
  }

  // ----- parsing

  /** The errors the modelled part of the parser reports; a document keeps the first one. */
  datatype Error =
    | DocumentEmpty
    | ParsingElement
    | FailedToReadElementName
    | ReadingElementValue
    | ReadingAttributes
    | ParsingEmpty
    | ReadingEndTag

  /** `Unsupported`: a comment, declaration, CDATA section, unknown tag or byte order mark, which are not modelled. */
  datatype Parsed<+T> = Ok(value: T, rest: string) | Fail(error: Error) | Unsupported {
    predicate IsFailure() { !Ok? }

    function PropagateFailure<U>(): Parsed<U>
      requires !Ok?
    {
      match this
      case Fail(e) => Fail(e)
      case _ => Unsupported
    }

    function Extract(): (T, string)
      requires Ok?
    {
      (value, rest)
    }
  }

  function NameLength(s: string): (k: nat)
    ensures k <= |s|
  {
    if s != "" && IsNameChar(s[0]) then 1 + NameLength(s[1..]) else 0
  }

  /** A name at the cursor; an error unless something follows it. */
  function ReadName(p: Cursor, error: Error): (r: Parsed<string>)
    ensures r.Ok? ==> p.At? && r.value != "" && r.rest != "" && |r.rest| < |p.rest|
  {
    if p.More() && IsNameStart(p.rest[0]) then
      var k := NameLength(p.rest);
      if k == |p.rest| then Fail(error) else Ok(p.rest[..k], p.rest[k..])
    else Fail(error)
  }

  /** An unquoted attribute value. */
  function BareLength(s: string): (k: nat)
    ensures k <= |s|
  {
    if s == "" || IsWhiteSpace(s[0]) || s[0] == '/' || s[0] == '>' || s[0] == '\'' || s[0] == '\"' then 0
    else 1 + BareLength(s[1..])
  }

  /** The value of an attribute, from after the equals sign and white space on. */
  function ReadAttributeValue(s: string): (r: Parsed<string>)
    requires s != ""
    ensures r.Ok? ==> r.rest != "" && |r.rest| <= |s|
  {
    if s[0] == '\'' || s[0] == '\"' then
      var (p, value) := ReadText(At(s[1..]), false, [s[0]]);
      if p.Null? then Fail(ParsingElement) else Ok(value, p.rest)
    else
      var k := BareLength(s);
      if k == |s| then Fail(ParsingElement)
      else if s[k] == '\'' || s[k] == '\"' then Fail(ReadingAttributes)
      else Ok(s[..k], s[k..])
  }

  function ParseAttribute(s: string): (r: Parsed<Attribute>)
    ensures r.Ok? ==> r.rest != "" && |r.rest| < |s|
  {
    var start := SkipWhiteSpace(At(s));
    if !start.More() then Fail(ParsingElement)
    else
      var (name, afterName) :- ReadName(start, ReadingAttributes);
      var eq := SkipWhiteSpace(At(afterName));
      if !eq.More() || eq.rest[0] != '=' then Fail(ReadingAttributes)
      else
        var v := SkipWhiteSpace(At(eq.rest[1..]));
        if !v.More() then Fail(ReadingAttributes)
        else
          var (value, rest) :- ReadAttributeValue(v.rest);
          Ok(Attribute(name, value), rest)
  }

  predicate HasName(attrs: seq<Attribute>, name: string)
  {
    exists i :: 0 <= i < |attrs| && attrs[i].name == name
  }

  /** `Identify` finds an element to start at `s`. */
  predicate StartsElement(s: string)
  {
    |s| >= 2 && s[0] == '<' && IsNameStart(s[1])
  }

  function ParseElement(s: string): (r: Parsed<Node>)
    ensures r.Ok? ==> |r.rest| < |s|
    decreases |s|, 2
  {
    var p := SkipWhiteSpace(At(s));
    if !p.More() || p.rest[0] != '<' then Fail(ParsingElement)
    else
      var (name, rest) :- ReadName(SkipWhiteSpace(At(p.rest[1..])), FailedToReadElementName);
      ParseAttributes(name, [], rest)
  }

  /** The attributes, and with them the rest of the element. */
  function ParseAttributes(name: string, attrs: seq<Attribute>, s: string): (r: Parsed<Node>)
    requires s != ""
    ensures r.Ok? ==> |r.rest| < |s|
    decreases |s|, 1
  {
    var p := SkipWhiteSpace(At(s));
    if !p.More() then Fail(ReadingAttributes)
    else if p.rest[0] == '/' then
      if |p.rest| > 1 && p.rest[1] == '>' then Ok(Element(name, attrs, []), p.rest[2..]) else Fail(ParsingEmpty)
    else if p.rest[0] == '>' then
      var (kids, rest) :- ReadValue(SkipWhiteSpace(At(p.rest[1..])));
      ParseEndTag(Element(name, attrs, kids), rest)
    else
      var (attr, rest) :- ParseAttribute(p.rest);
      if HasName(attrs, attr.name) then Fail(ParsingElement)
      else ParseAttributes(name, attrs + [attr], rest)
  }

  function ParseEndTag(e: Node, s: string): (r: Parsed<Node>)
    requires e.Element?
    ensures r.Ok? ==> |r.rest| < |s|
  {
    var endTag := "</" + e.name;
    if endTag <= s then
      var p := SkipWhiteSpace(At(s[|endTag|..]));
      if p.More() && p.rest[0] == '>' then Ok(e, p.rest[1..]) else Fail(ReadingEndTag)
    else Fail(ReadingEndTag)
  }

  /** A text node up to the next tag. */
  function ParseText(s: string): (r: (Cursor, string))
    requires s != "" && s[0] != '<' && !IsWhiteSpace(s[0])
    ensures r.0.At? ==> |r.0.rest| < |s|
  {
    var (p, value) := ReadText(At(s), true, "<");
    ReadTextProgress(s);
    (if p.Null? then Null else At("<" + p.rest), value)
  }

  lemma ReadTextProgress(s: string)
    requires s != "" && s[0] != '<' && !IsWhiteSpace(s[0])
    ensures var p := ReadText(At(s), true, "<").0; p.At? ==> |p.rest| + 1 < |s|
  {
    assert SkipWhiteSpace(At(s)) == At(s);
  }

  /** The children at a cursor that has skipped white space, up to an end tag. */
  function ReadValue(p: Cursor): (r: Parsed<seq<Node>>)
    requires p.More() ==> !IsWhiteSpace(p.rest[0])
    ensures r.Ok? ==> p.At? && |r.rest| <= |p.rest| && "</" <= r.rest
    decreases if p.At? then |p.rest| else 0, 3
  {
    if p.Null? then Fail(ReadingElementValue)
    else if p.rest == "" then Fail(ReadingEndTag)
    else if p.rest[0] != '<' then
      var (q, value) := ParseText(p.rest);
      var (kids, rest) :- ReadValue(SkipWhiteSpace(q));
      Ok((if AllWhiteSpace(value) then [] else [Text(value)]) + kids, rest)
    else if "</" <= p.rest then Ok([], p.rest)
    else if !StartsElement(p.rest) then Unsupported
    else
      var (kid, afterKid) :- ParseElement(p.rest);
      var (kids, rest) :- ReadValue(SkipWhiteSpace(At(afterKid)));
      Ok([kid] + kids, rest)
  }

  /** The elements of a document; what follows the last one and is no tag is left unread. */
  function ParseElements(p: Cursor): (r: Parsed<seq<Node>>)
    ensures r.Ok? ==> (p.At? ==> |r.rest| <= |p.rest|)
    decreases if p.At? then |p.rest| else 0
  {
    if !p.More() then Ok([], "")
    else if p.rest[0] != '<' then Ok([], p.rest)
    else if !StartsElement(p.rest) then Unsupported
    else
      var (kid, afterKid) :- ParseElement(p.rest);
      var (kids, rest) :- ParseElements(SkipWhiteSpace(At(afterKid)));
      Ok([kid] + kids, rest)
  }

  const BYTE_ORDER_MARK: string := [0xef as char, 0xbb as char, 0xbf as char]

  function ParseDocument(s: string): (r: Parsed<seq<Node>>)
  {
    if s == "" then Fail(DocumentEmpty)
    else if BYTE_ORDER_MARK <= s then Unsupported
    else
      var (kids, rest) :- ParseElements(SkipWhiteSpace(At(s)));
      if kids == [] then Fail(DocumentEmpty) else Ok(kids, rest)
  }
}
