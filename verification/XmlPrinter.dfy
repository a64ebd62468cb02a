/** The encoder's two nested loops and the pretty-printing visitor, which keeps a depth and a flag between calls. */
module XmlPrinter {
  import opened CStrings
  import opened XmlText
  import opened XmlTree

  /** `EncodeString`. Its inner loop stops at a semicolon or one byte before the end of the string. */
  method EncodeString(str: string) returns (out: string)
    ensures out == Encode(str)
  {
    hide Encode, EncodeChar, PassThrough;
    out := "";
    var i := 0;
    EncodeFrom(str, 0, out);
    while i < |str|
      invariant 0 <= i <= |str| && out + Encode(str[i..]) == Encode(str)
    {
      EncodeFrom(str, i, out);
      if str[i] == '&' && i < |str| - 2 && str[i + 1] == '#' && str[i + 2] == 'x' {
        var i' := PassReference(str, i);
        out := out + str[i..i'];
        i := i';
      } else {
        out := out + EncodeChar(str[i]);
        i := i + 1;
      }
    }
    EncodeFrom(str, i, out);
  }

  /** What the encoding from `i` on starts with, behind `out`. */
  lemma EncodeFrom(str: string, i: nat, out: string)
    requires i <= |str|
    ensures i == 0 ==> "" + Encode(str[i..]) == Encode(str)
    ensures i == |str| ==> out + Encode(str[i..]) == out
    ensures i < |str| && StartsReference(str[i..]) ==>
      var k := PassThrough(str[i..]); out + Encode(str[i..]) == out + str[i..i + k] + Encode(str[i + k..])
    ensures i < |str| && !StartsReference(str[i..]) ==>
      out + Encode(str[i..]) == out + EncodeChar(str[i]) + Encode(str[i + 1..])
  {
    if i == |str| {
      assert str[i..] == "";
    } else if StartsReference(str[i..]) {
      EncodeReferenceFrom(str, i, out);
    } else {
      EncodeOtherFrom(str, i, out);
    }
    hide Encode, EncodeChar, PassThrough;
    assert i == 0 ==> str[i..] == str;
  }

  lemma EncodeReferenceFrom(str: string, i: nat, out: string)
    requires i < |str| && StartsReference(str[i..])
    ensures var k := PassThrough(str[i..]); out + Encode(str[i..]) == out + str[i..i + k] + Encode(str[i + k..])
  {
    var s := str[i..];
    var k := PassThrough(s);
    assert s[..k] == str[i..i + k] && s[k..] == str[i + k..];
    assert Encode(s) == s[..k] + Encode(s[k..]);
    hide Encode, PassThrough;
    assert out + (s[..k] + Encode(s[k..])) == out + s[..k] + Encode(s[k..]);
  }

  lemma EncodeOtherFrom(str: string, i: nat, out: string)
    requires i < |str| && !StartsReference(str[i..])
    ensures out + Encode(str[i..]) == out + EncodeChar(str[i]) + Encode(str[i + 1..])
  {
    var s := str[i..];
    assert s[1..] == str[i + 1..];
    assert Encode(s) == EncodeChar(s[0]) + Encode(s[1..]);
    hide Encode, EncodeChar;
    assert out + (EncodeChar(s[0]) + Encode(s[1..])) == out + EncodeChar(s[0]) + Encode(s[1..]);
  }

  /** The inner loop: where copying a reference unchanged stops. */
  method PassReference(str: string, start: nat) returns (i: nat)
    requires start < |str| && StartsReference(str[start..])
    ensures start < i < |str| && i - start == PassThrough(str[start..])
  {
    ghost var s := str[start..];
    i := start;
    while i < |str| - 1
      invariant start <= i < |str| && forall j :: start < j <= i ==> str[j] != ';'
    {
      i := i + 1;
      if str[i] == ';' {
        break;
      }
    }
    assert forall k :: 1 <= k < i - start ==> s[k] == str[start + k];
    assert s[i - start] == str[i];
  }

  class TiXmlPrinter {
    var depth: nat
    var simpleTextPrint: bool
    var buffer: string

    constructor ()
      ensures depth == 0 && !simpleTextPrint && buffer == ""
    {
      depth, simpleTextPrint, buffer := 0, false, "";
    }

    method DoIndent()
      modifies this`buffer
      ensures buffer == old(buffer) + Indent(depth)
    {
      var i := 0;
      while i < depth
        invariant i <= depth && buffer == old(buffer) + Indent(i)
      {
        buffer := buffer + "    ";
        i := i + 1;
      }
    }

    method DoLineBreak()
      modifies this`buffer
      ensures buffer == old(buffer) + "\n"
    {
      buffer := buffer + "\n";
    }

    /** The loop over the attributes by `First` and `Next`. */
    method PrintAttributesOf(attrs: seq<Attribute>)
      modifies this`buffer
      ensures buffer == old(buffer) + PrintAttributes(Walked(attrs))
    {
      var i, more := 0, |attrs| > 0;
      AllToCome(attrs);
      while more
        invariant i <= |attrs| && (more ==> i < |attrs|)
        invariant buffer + PrintAttributes(ToCome(attrs, i, more)) == old(buffer) + PrintAttributes(Walked(attrs))
        decreases |attrs| - i, more
      {
        var n := EncodeString(attrs[i].name);
        var v := EncodeString(attrs[i].value);
        ghost var before := buffer;
        buffer := buffer + (" " + (if '\"' in attrs[i].value then n + "='" + v + "'" else n + "=\"" + v + "\""));
        AttributePrinted(attrs, i, n, v);
        more := i + 1 < |attrs| && !IsEmpty(attrs[i + 1]);
        hide PrintAttribute, PrintAttributes, ToCome;
        Appended(before, " " + PrintAttribute(attrs[i]), PrintAttributes(ToCome(attrs, i + 1, more)));
        i := i + 1;
      }
    }

    /** The attributes still to be printed. */
    function ToCome(attrs: seq<Attribute>, i: nat, more: bool): seq<Attribute>
      requires more ==> i < |attrs|
    {
      if more then [attrs[i]] + UntilEmpty(attrs[i + 1..]) else []
    }

    lemma AllToCome(attrs: seq<Attribute>)
      ensures ToCome(attrs, 0, |attrs| > 0) == Walked(attrs)
    {
    }

    lemma AttributePrinted(attrs: seq<Attribute>, i: nat, n: string, v: string)
      requires i < |attrs| && n == Encode(attrs[i].name) && v == Encode(attrs[i].value)
      ensures " " + (if '\"' in attrs[i].value then n + "='" + v + "'" else n + "=\"" + v + "\"")
           == " " + PrintAttribute(attrs[i])
      ensures var more := i + 1 < |attrs| && !IsEmpty(attrs[i + 1]);
        PrintAttributes(ToCome(attrs, i, true))
        == " " + PrintAttribute(attrs[i]) + PrintAttributes(ToCome(attrs, i + 1, more))
    {
      hide Encode;
      var rest := UntilEmpty(attrs[i + 1..]);
      assert ([attrs[i]] + rest)[1..] == rest;
      if i + 1 < |attrs| {
        assert attrs[i + 1..][1..] == attrs[i + 2..];
      }
    }

    lemma Appended(a: string, b: string, c: string)
      ensures a + b + c == a + (b + c)
    {
    }

    /** What entering an element prints after its attributes. */
    function AfterAttributes(kids: seq<Node>): string
    {
      if kids == [] then " />\n" else if IsSimple(kids) then ">" else ">\n"
    }

    /** What entering an element prints; a name is taken as a C string. */
    function Opening(e: Node, d: nat): string
      requires e.Element?
    {
      Indent(d) + "<" + CString(e.name) + PrintAttributes(Walked(e.attrs)) + AfterAttributes(e.kids)
    }

    /** Returns whether the children are to be visited, which is always. */
    method VisitEnter(e: Node) returns (go: bool)
      requires e.Element?
      modifies this
      ensures go && depth == old(depth) + 1
      ensures simpleTextPrint == (old(simpleTextPrint) || IsSimple(e.kids))
      ensures buffer == old(buffer) + Opening(e, old(depth))
    {
      hide Indent, PrintAttributes, PrintAttribute, CString, Walked;
      DoIndent();
      buffer := buffer + "<";
      buffer := buffer + CString(e.name);
      PrintAttributesOf(e.attrs);
      if |e.kids| == 0 {
        buffer := buffer + " />";
        DoLineBreak();
      } else {
        buffer := buffer + ">";
        if e.kids[0].Text? && |e.kids| == 1 {
          simpleTextPrint := true;
        } else {
          DoLineBreak();
        }
      }
      depth := depth + 1;
      go := true;
    }

    /** What leaving an element prints. */
    function Closing(e: Node, d: nat, simple: bool): string
      requires e.Element?
    {
      if e.kids == [] then "" else (if simple then "" else Indent(d)) + ("</" + CString(e.name) + ">\n")
    }

    method VisitExit(e: Node) returns (go: bool)
      requires e.Element? && depth > 0
      modifies this
      ensures go && depth == old(depth) - 1
      ensures simpleTextPrint == (old(simpleTextPrint) && e.kids == [])
      ensures buffer == old(buffer) + Closing(e, old(depth) - 1, old(simpleTextPrint))
    {
      hide Indent, CString;
      depth := depth - 1;
      if |e.kids| > 0 {
        if simpleTextPrint {
          simpleTextPrint := false;
        } else {
          DoIndent();
        }
        buffer := buffer + "</";
        buffer := buffer + CString(e.name);
        buffer := buffer + ">";
        DoLineBreak();
      }
      go := true;
    }

    method VisitText(value: string) returns (go: bool)
      modifies this`buffer
      ensures go
      ensures buffer == old(buffer) + (if simpleTextPrint then Encode(value) else Indent(depth) + Encode(value) + "\n")
    {
      if simpleTextPrint {
        var str := EncodeString(value);
        buffer := buffer + str;
      } else {
        DoIndent();
        var str := EncodeString(value);
        buffer := buffer + str;
        DoLineBreak();
      }
      go := true;
    }

    /** What visiting `n` prints, given the flag. */
    function Printed(n: Node, d: nat, simple: bool): string
    {
      if simple && n.Text? then Encode(n.value) else PrintNode(n, d)
    }

    /** Visits a node and everything below it; the visitor's state is the same afterwards, but for the text. */
    method Accept(n: Node) returns (go: bool)
      requires simpleTextPrint ==> n.Text?
      modifies this
      ensures go && depth == old(depth) && simpleTextPrint == old(simpleTextPrint)
      ensures buffer == old(buffer) + Printed(n, depth, simpleTextPrint)
      decreases n
    {
      hide Walked, PrintContent, PrintNodes, PrintNode, PrintAttributes, Indent, Encode;
      hide PrintedAll, Opening, AfterAttributes, Closing;
      match n
      case Text(value) =>
        TextPrinted(value, depth);
        go := VisitText(value);
      case Element(name, attrs, kids) =>
        var enter := VisitEnter(n);
        if enter {
          AcceptAll(kids);
        }
        go := VisitExit(n);
        ElementPrinted(old(buffer), n, depth);
    }

    lemma TextPrinted(value: string, d: nat)
      ensures PrintNode(Text(value), d) == Indent(d) + Encode(value) + "\n"
    {
      hide Indent, Encode;
    }

    lemma ElementPrinted(a: string, e: Node, d: nat)
      requires e.Element?
      ensures a + Opening(e, d) + PrintedAll(e.kids, d + 1, IsSimple(e.kids)) + Closing(e, d, IsSimple(e.kids))
           == a + PrintNode(e, d)
    {
      hide Indent, Encode, PrintNodes, PrintAttributes, PrintContent;
      hide PrintedAll, AfterAttributes, Closing, CString, Walked;
      ContentPrinted(e, d);
      Assemble(a, Indent(d) + "<" + CString(e.name) + PrintAttributes(Walked(e.attrs)), AfterAttributes(e.kids),
               PrintedAll(e.kids, d + 1, IsSimple(e.kids)), Closing(e, d, IsSimple(e.kids)));
    }

    lemma Assemble(a: string, b: string, c: string, d: string, e: string)
      ensures a + (b + c) + d + e == a + (b + (c + d + e))
    {
    }

    function PrintedAll(nodes: seq<Node>, d: nat, simple: bool): string
    {
      if simple && IsSimple(nodes) then Encode(nodes[0].value) else PrintNodes(nodes, d)
    }

    lemma ContentPrinted(e: Node, d: nat)
      requires e.Element?
      ensures PrintContent(CString(e.name), e.kids, d) ==
        AfterAttributes(e.kids) + PrintedAll(e.kids, d + 1, IsSimple(e.kids)) + Closing(e, d, IsSimple(e.kids))
    {
      hide PrintNodes, Encode, Indent, CString;
      if e.kids == [] {
        assert PrintedAll(e.kids, d + 1, false) == PrintNodes([], d + 1) == "" by {
          NoNodes(d + 1);
        }
      }
    }

    lemma NoNodes(d: nat)
      ensures PrintNodes([], d) == ""
    {
    }

    /** The loop over the children. */
    method AcceptAll(nodes: seq<Node>)
      requires simpleTextPrint ==> IsSimple(nodes)
      modifies this
      ensures depth == old(depth) && simpleTextPrint == old(simpleTextPrint)
      ensures buffer == old(buffer) + PrintedAll(nodes, depth, simpleTextPrint)
      decreases nodes
    {
      hide PrintNodes, PrintNode, Encode;
      var i := 0;
      NodesFrom(nodes, 0, depth);
      while i < |nodes|
        invariant 0 <= i <= |nodes| && depth == old(depth) && simpleTextPrint == old(simpleTextPrint)
        invariant !simpleTextPrint ==> buffer + PrintNodes(nodes[i..], depth) == old(buffer) + PrintNodes(nodes, depth)
        invariant simpleTextPrint ==> buffer == (if i == 0 then old(buffer) else old(buffer) + Encode(nodes[0].value))
      {
        ghost var before := buffer;
        var go := Accept(nodes[i]);
        NodesFrom(nodes, i, depth);
        Appended(before, PrintNode(nodes[i], depth), PrintNodes(nodes[i + 1..], depth));
        if !go {
          break;
        }
        i := i + 1;
      }
      NodesFrom(nodes, i, depth);
      assert buffer + "" == buffer;
    }

    lemma NodesFrom(nodes: seq<Node>, i: nat, d: nat)
      requires i <= |nodes|
      ensures i == 0 ==> nodes[i..] == nodes
      ensures i == |nodes| ==> PrintNodes(nodes[i..], d) == ""
      ensures i < |nodes| ==> PrintNodes(nodes[i..], d) == PrintNode(nodes[i], d) + PrintNodes(nodes[i + 1..], d)
    {
      if i < |nodes| {
        assert nodes[i..][1..] == nodes[i + 1..];
      }
      hide PrintNode;
    }

    /** Prints the elements of a document. */
    method AcceptDocument(kids: seq<Node>)
      requires depth == 0 && !simpleTextPrint
      modifies this
      ensures depth == 0 && !simpleTextPrint
      ensures buffer == old(buffer) + PrintNodes(kids, 0)
    {
      AcceptAll(kids);
    }
  }
}
