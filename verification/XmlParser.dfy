/**
 * The parser as it is written: an index `p` into the text stands for a `const char*` (-1 for null) and is moved along
 * by loops. Every method is proved to compute what the functions of `XmlText` and `XmlTree` say.
 */
module XmlParser {
  import opened XmlText
  import opened XmlTree

  /** The cursor an index stands for. */
  function View(text: string, p: int): Cursor
    requires -1 <= p <= |text|
  {
    if p < 0 then Null else At(text[p..])
  }

  lemma Behind(text: string, p: int, k: nat)
    requires 0 <= p && p + k <= |text|
    ensures text[p..][k..] == text[p + k..]
  {
  }

  method SkipWhiteSpaceFrom(text: string, p: int) returns (q: int)
    requires -1 <= p <= |text|
    ensures -1 <= q <= |text| && View(text, q) == SkipWhiteSpace(View(text, p))
    ensures 0 <= q ==> p <= q && (q < |text| ==> !IsWhiteSpace(text[q]))
  {
    if p < 0 || p == |text| {
      return -1;
    }
    q := p;
    while q < |text| && IsWhiteSpace(text[q])
      invariant p <= q <= |text| && DropWhiteSpace(text[q..]) == DropWhiteSpace(text[p..])
    {
      Behind(text, q, 1);
      q := q + 1;
    }
  }

  /** The pointer past the name, null if there is none. */
  method ReadNameFrom(text: string, p: int, ghost error: Error) returns (q: int, name: string)
    requires -1 <= p <= |text|
    ensures -1 <= q <= |text|
    ensures var r := ReadName(View(text, p), error);
      && (r.Ok? || r == Fail(error))
      && r.Ok? == (0 <= q < |text|) && (r.Ok? ==> p < q && name == r.value && text[q..] == r.rest)
  {
    hide IsNameStart, IsNameChar;
    name := "";
    if p < 0 || p == |text| || !IsNameStart(text[p]) {
      return -1, name;
    }
    q := p;
    while q < |text| && IsNameChar(text[q])
      invariant p <= q <= |text| && NameLength(text[p..]) == q - p + NameLength(text[q..])
    {
      Behind(text, q, 1);
      q := q + 1;
    }
    if q - p > 0 {
      name := text[p..q];
    }
    assert text[p..][..q - p] == text[p..q];
    Behind(text, p, q - p);
  }

  // ----- entities

  /** `strchr` from `p` on; -1 if `c` is not found. */
  method FindChar(text: string, p: nat, c: char) returns (q: int)
    requires p <= |text|
    ensures q == (if Find(text, c, p) < |text| then Find(text, c, p) else -1)
  {
    q := p;
    while q < |text| && text[q] != c
      invariant p <= q <= |text| && Find(text, c, q) == Find(text, c, p)
    {
      q := q + 1;
    }
    if q == |text| {
      q := -1;
    }
  }

  lemma {:induction false} FindShift(text: string, p: nat, c: char, from: nat)
    requires p + from <= |text|
    ensures Find(text, c, p + from) == p + Find(text[p..], c, from)
    decreases |text| - p - from
  {
    if p + from < |text| && text[p + from] != c {
      FindShift(text, p, c, from + 1);
    }
  }

  function Pow(b: nat, k: nat): nat
  {
    if k == 0 then 1 else b * Pow(b, k - 1)
  }

  lemma {:induction false} NumberOfCons(d: char, s: string, radix: nat)
    requires DigitValue(d, radix) >= 0 && AllDigits(s, radix)
    ensures AllDigits([d] + s, radix)
    ensures NumberOf([d] + s, radix) == DigitValue(d, radix) * Pow(radix, |s|) + NumberOf(s, radix)
    decreases |s|
  {
    var t := [d] + s;
    if s == "" {
      assert t[..|t| - 1] == "";
      assert NumberOf("", radix) == 0;
    } else {
      var u := s[..|s| - 1];
      NumberOfCons(d, u, radix);
      assert t[..|t| - 1] == [d] + u;
      assert t[|t| - 1] == s[|s| - 1];
      Distribute(radix, DigitValue(d, radix), Pow(radix, |u|), NumberOf(u, radix));
    }
  }

  lemma Distribute(r: nat, v: nat, p: nat, n: nat)
    ensures r * (v * p + n) == v * (r * p) + r * n
  {
  }

  const WORD: nat := 0x1_0000_0000

  /** Unsigned arithmetic wraps at 2^32, which no low byte depends on. */
  lemma LowByteOfSum(ucs: nat, mult: nat, v: nat, n: nat, p: nat)
    requires ucs % 256 == n % 256 && mult % 256 == p % 256
    ensures (ucs + mult * v) % WORD % 256 == (v * p + n) % 256
  {
    var a, b := ucs / 256 - n / 256, mult / 256 - p / 256;
    assert ucs == n + 256 * a && mult == p + 256 * b;
    assert mult * v == v * p + 256 * (b * v) by {
      assert (p + 256 * b) * v == p * v + 256 * (b * v);
    }
    assert ucs + mult * v == (v * p + n) + 256 * (a + b * v);
    LowByteShift(v * p + n, a + b * v);
    LowByteWrap(ucs + mult * v);
  }

  lemma LowByteShift(x: int, k: int)
    ensures (x + 256 * k) % 256 == x % 256
  {
  }

  lemma LowByteWrap(x: nat)
    ensures x % WORD % 256 == x % 256
  {
    assert x == x % WORD + 256 * (0x100_0000 * (x / WORD));
    LowByteShift(x % WORD, 0x100_0000 * (x / WORD));
  }

  lemma LowByteOfProduct(mult: nat, radix: nat, p: nat)
    requires mult % 256 == p % 256
    ensures mult * radix % WORD % 256 == radix * p % 256
  {
    LowByteOfSum(0, mult, radix, 0, p);
  }

  /** One more digit in front of `done`. */
  lemma DigitStep(ucs: nat, mult: nat, d: char, done: string, radix: nat)
    requires DigitValue(d, radix) >= 0 && AllDigits(done, radix)
    requires ucs % 256 == NumberOf(done, radix) % 256 && mult % 256 == Pow(radix, |done|) % 256
    ensures AllDigits([d] + done, radix)
    ensures (ucs + mult * DigitValue(d, radix)) % WORD % 256 == NumberOf([d] + done, radix) % 256
    ensures mult * radix % WORD % 256 == Pow(radix, |[d] + done|) % 256
    ensures 0 <= mult * DigitValue(d, radix)
  {
    NumberOfCons(d, done, radix);
    LowByteOfSum(ucs, mult, DigitValue(d, radix), NumberOf(done, radix), Pow(radix, |done|));
    LowByteOfProduct(mult, radix, Pow(radix, |done|));
    MulNat(mult, DigitValue(d, radix));
  }

  lemma MulNat(a: nat, b: nat)
    ensures 0 <= a * b
  {
  }

  /**
   * The backward loop over the digits of a character reference: `q` is the semicolon's index. The value is built in
   * 32-bit unsigned arithmetic.
   */
  method ReadNumber(text: string, mark: char, radix: nat, ghost stop: nat, q: nat) returns (ok: bool, ucs: nat)
    requires stop < q <= |text| && text[stop] == mark && (radix == 16 || radix == 10)
    requires forall i :: stop < i < q ==> text[i] != mark
    requires DigitValue(mark, radix) < 0
    ensures ok == AllDigits(text[stop + 1..q], radix)
    ensures ok ==> ucs % 256 == NumberOf(text[stop + 1..q], radix) % 256
  {
    ucs := 0;
    var mult: nat := 1;
    var i: nat := q - 1;
    ghost var done := "";
    assert NumberOf(done, radix) == 0 && Pow(radix, |done|) == 1;
    hide NumberOf, Pow, DigitValue;
    while text[i] != mark
      invariant stop <= i < q && done == text[i + 1..q] && AllDigits(done, radix)
      invariant ucs % 256 == NumberOf(done, radix) % 256 && mult % 256 == Pow(radix, |done|) % 256
      decreases i
    {
      var v := DigitValue(text[i], radix);
      if v < 0 {
        assert text[stop + 1..q][i - stop - 1] == text[i];
        return false, 0;
      }
      DigitStep(ucs, mult, text[i], done, radix);
      ucs := (ucs + mult * v) % WORD;
      mult := mult * radix % WORD;
      done := [text[i]] + done;
      i := i - 1;
    }
    ok := true;
  }

  /** A character reference at `p`: its digits start at `from`, after the `mark`. */
  method NumericEntityAt(text: string, p: nat, mark: char, from: nat, radix: nat) returns (q: int, value: string)
    requires p < from <= |text| && text[from - 1] == mark && (radix == 16 || radix == 10) && DigitValue(mark, radix) < 0
    ensures -1 <= q <= |text|
    ensures (View(text, q), value) == NumericEntity(text[p..], mark, from - p, radix)
  {
    value := "";
    hide Find, FindLast, AllDigits, NumberOf, DigitValue, LowByte;
    ghost var s := text[p..];
    var semi := FindChar(text, from, ';');
    FindShift(text, p, ';', from - p);
    if semi < 0 {
      return -1, value;
    }
    assert s[from - p - 1] == mark;
    ghost var stop := p + FindLast(s, mark, semi - p);
    assert forall i :: stop < i < semi ==> text[i] == s[i - p];
    var ok, ucs := ReadNumber(text, mark, radix, stop, semi);
    ghost var digits := s[stop - p + 1..semi - p];
    assert digits == text[stop + 1..semi];
    if !ok {
      return -1, value;
    }
    LowByteEqual(ucs, NumberOf(digits, radix));
    q := semi + 1;
    value := [LowByte(ucs)];
    Behind(text, p, q - p);
  }

  lemma LowByteEqual(a: nat, b: nat)
    requires a % 256 == b % 256
    ensures LowByte(a) == LowByte(b)
  {
  }

  /** `strncmp( str, p, length ) == 0`, and `StringEqual` with case. */
  method StartsWith(text: string, p: nat, str: string) returns (b: bool)
    requires p <= |text|
    ensures b == (str <= text[p..])
  {
    var k := 0;
    while k < |str| && p + k < |text| && text[p + k] == str[k]
      invariant k <= |str| && p + k <= |text|
      invariant forall i :: 0 <= i < k ==> text[p + i] == str[i]
    {
      k := k + 1;
    }
    b := k == |str|;
    if !b && p + k < |text| {
      assert text[p..][k] != str[k];
    }
  }

  method NamedEntityAt(text: string, p: nat) returns (q: int, value: string)
    requires p < |text|
    ensures 0 <= q <= |text|
    ensures (View(text, q), value) == NamedEntity(text[p..], 0)
  {
    var i := 0;
    while i < |ENTITIES|
      invariant i <= |ENTITIES| && NamedEntity(text[p..], i) == NamedEntity(text[p..], 0)
    {
      var found := StartsWith(text, p, ENTITIES[i].0);
      if found {
        Behind(text, p, |ENTITIES[i].0|);
        return p + |ENTITIES[i].0|, [ENTITIES[i].1];
      }
      i := i + 1;
    }
    Behind(text, p, 1);
    return p + 1, "";
  }

  method GetEntityAt(text: string, p: nat) returns (q: int, value: string)
    requires p < |text|
    ensures -1 <= q <= |text|
    ensures (View(text, q), value) == GetEntity(text[p..])
  {
    ghost var s := text[p..];
    if p + 2 < |text| && text[p + 1] == '#' {
      assert s[1] == text[p + 1] && s[2] == text[p + 2];
      if text[p + 2] == 'x' {
        if p + 3 == |text| {
          return -1, "";
        }
        q, value := NumericEntityAt(text, p, 'x', p + 3, 16);
      } else {
        q, value := NumericEntityAt(text, p, '#', p + 2, 10);
      }
    } else {
      q, value := NamedEntityAt(text, p);
    }
  }

  method GetCharAt(text: string, p: nat) returns (q: int, value: string)
    requires p < |text|
    ensures -1 <= q <= |text| && (0 <= q ==> p < q)
    ensures (View(text, q), value) == GetChar(text[p..])
  {
    if text[p] == '&' {
      q, value := GetEntityAt(text, p);
    } else {
      Behind(text, p, 1);
      q, value := p + 1, [text[p]];
    }
  }

  // ----- text

  /** What the loops of `ReadText` have still to add, from `p` on. */
  function Prepend(acc: string, r: (Cursor, string)): (Cursor, string)
  {
    (r.0, acc + r.1)
  }

  lemma PrependNothing(acc: string, r: (Cursor, string))
    ensures Prepend("", r) == r && Prepend(acc, (r.0, "")) == (r.0, acc)
  {
    assert "" + r.1 == r.1 && acc + "" == acc;
  }

  method KeepTextFrom(text: string, p: int, tag: string) returns (q: int, value: string)
    requires -1 <= p <= |text|
    ensures -1 <= q <= |text|
    ensures (View(text, q), value) == (if p < 0 then (Null, "") else KeepText(text[p..], tag))
  {
    q, value := p, "";
    if p < 0 {
      return;
    }
    ghost var all := KeepText(text[p..], tag);
    PrependNothing("", all);
    var atTag := StartsWith(text, q, tag);
    while 0 <= q < |text| && !atTag
      invariant -1 <= q <= |text|
      invariant 0 <= q ==> atTag == (tag <= text[q..]) && all == Prepend(value, KeepText(text[q..], tag))
      invariant q < 0 ==> all == (Null, value)
      decreases q >= 0, |text| - q
    {
      var c: string;
      ghost var s := text[q..];
      q, c := GetCharAt(text, q);
      ghost var before := value;
      value := value + c;
      KeepUnfold(s, tag, before, c);
      if 0 <= q {
        atTag := StartsWith(text, q, tag);
      }
    }
    PrependNothing(value, (View(text, q), ""));
  }

  lemma KeepUnfold(s: string, tag: string, acc: string, c: string)
    requires s != "" && !(tag <= s) && c == GetChar(s).1
    ensures var p := GetChar(s).0;
      Prepend(acc, KeepText(s, tag)) == (if p.Null? then (Null, acc + c) else Prepend(acc + c, KeepText(p.rest, tag)))
  {
    hide GetChar;
    var p := GetChar(s).0;
    if p.At? {
      assert acc + (c + KeepText(p.rest, tag).1) == acc + c + KeepText(p.rest, tag).1;
    }
  }

  method TrimTextFrom(text: string, p: nat, tag: string) returns (q: int, value: string)
    requires p <= |text|
    ensures -1 <= q <= |text|
    ensures (View(text, q), value) == TrimText(text[p..], tag, false)
  {
    q, value := p, "";
    ghost var all := TrimText(text[p..], tag, false);
    PrependNothing("", all);
    var whitespace := false;
    var atTag := StartsWith(text, q, tag);
    while 0 <= q < |text| && !atTag
      invariant -1 <= q <= |text|
      invariant 0 <= q ==> atTag == (tag <= text[q..]) && all == Prepend(value, TrimText(text[q..], tag, whitespace))
      invariant q < 0 ==> all == (Null, value)
      decreases q >= 0, |text| - q
    {
      ghost var s := text[q..];
      if IsWhiteSpace(text[q]) {
        Behind(text, q, 1);
        whitespace := true;
        q := q + 1;
      } else {
        ghost var before := value;
        ghost var pending := whitespace;
        if whitespace {
          value := value + " ";
          whitespace := false;
        }
        var c: string;
        q, c := GetCharAt(text, q);
        value := value + c;
        TrimUnfold(s, tag, before, c, pending);
      }
      if 0 <= q {
        atTag := StartsWith(text, q, tag);
      }
    }
    PrependNothing(value, (View(text, q), ""));
  }

  lemma TrimUnfold(s: string, tag: string, acc: string, c: string, pending: bool)
    requires s != "" && !(tag <= s) && !IsWhiteSpace(s[0]) && c == GetChar(s).1
    ensures var p, acc' := GetChar(s).0, (if pending then acc + " " else acc) + c;
      Prepend(acc, TrimText(s, tag, pending))
      == (if p.Null? then (Null, acc') else Prepend(acc', TrimText(p.rest, tag, false)))
  {
    hide GetChar;
    var p := GetChar(s).0;
    var blank := if pending then " " else "";
    assert acc + (blank + c) == (if pending then acc + " " else acc) + c;
    if p.At? {
      var t := TrimText(p.rest, tag, false).1;
      assert acc + (blank + c + t) == acc + (blank + c) + t;
    }
  }

  method ReadTextFrom(text: string, p: int, trim: bool, tag: string) returns (q: int, value: string)
    requires -1 <= p <= |text| && tag != ""
    ensures -1 <= q < |text|
    ensures (View(text, q), value) == ReadText(View(text, p), trim, tag)
    ensures 0 <= q ==> p + |tag| <= q
  {
    if trim {
      q := SkipWhiteSpaceFrom(text, p);
      if q < 0 {
        return -1, "";
      }
      q, value := TrimTextFrom(text, q, tag);
    } else {
      q, value := KeepTextFrom(text, p, tag);
    }
    if 0 <= q < |text| {
      if q + |tag| < |text| {
        Behind(text, q, |tag|);
      }
      q := q + |tag|;
    }
    if q == |text| {
      q := -1;
    }
  }

  // ----- errors

  /** The error state of a document; `Outside` records that a construct outside the model was met. */
  datatype Status = Clean | Failed(error: Error) | Outside

  /** The first error in a chain is kept. */
  function Record(before: Status, error: Error): Status
  {
    if before.Clean? then Failed(error) else before
  }

  /** The state after parsing something with result `r`. */
  function After<T>(before: Status, r: Parsed<T>): Status
  {
    match r
    case Ok(_, _) => before
    case Fail(e) => Record(before, e)
    case Unsupported => if before.Clean? then Outside else before
  }

  class Document {
    var error: Status

    constructor ()
      ensures error == Clean
    {
      error := Clean;
    }

    method SetError(e: Error)
      modifies this
      ensures error == Record(old(error), e)
    {
      if error.Clean? {
        error := Failed(e);
      }
    }

    method LeaveModel()
      modifies this
      ensures error == (if old(error).Clean? then Outside else old(error))
    {
      if error.Clean? {
        error := Outside;
      }
    }
  }

  // ----- attributes

  method ReadBareValue(doc: Document, text: string, p: nat) returns (q: int, value: string)
    requires p < |text| && text[p] != '\'' && text[p] != '\"'
    modifies doc
    ensures -1 <= q <= |text|
    ensures var r := ReadAttributeValue(text[p..]);
      && r.Ok? == (0 <= q < |text|)
      && (r.Ok? ==> p <= q && value == r.value && text[q..] == r.rest && doc.error == old(doc.error))
      && (!r.Ok? ==> Record(doc.error, ParsingElement) == After(old(doc.error), r))
  {
    q, value := p, "";
    while q < |text| && !IsWhiteSpace(text[q]) && text[q] != '/' && text[q] != '>'
      invariant p <= q <= |text| && value == text[p..q]
      invariant BareLength(text[p..]) == q - p + BareLength(text[q..])
      invariant doc.error == old(doc.error)
    {
      if text[q] == '\'' || text[q] == '\"' {
        doc.SetError(ReadingAttributes);
        return -1, value;
      }
      Behind(text, q, 1);
      value := value + [text[q]];
      q := q + 1;
    }
    assert BareLength(text[p..]) == q - p;
    Behind(text, p, q - p);
    assert text[p..][..q - p] == text[p..q];
  }

  method ReadAttributeValueAt(doc: Document, text: string, p: nat) returns (q: int, value: string)
    requires p < |text|
    modifies doc
    ensures -1 <= q <= |text|
    ensures var r := ReadAttributeValue(text[p..]);
      && r.Ok? == (0 <= q < |text|)
      && (r.Ok? ==> p <= q && value == r.value && text[q..] == r.rest && doc.error == old(doc.error))
      && (!r.Ok? ==> Record(doc.error, ParsingElement) == After(old(doc.error), r))
  {
    hide ReadText;
    if text[p] == '\'' || text[p] == '\"' {
      Behind(text, p, 1);
      q, value := ReadTextFrom(text, p + 1, false, [text[p]]);
    } else {
      q, value := ReadBareValue(doc, text, p);
    }
  }

  method ParseAttributeAt(doc: Document, text: string, p: nat) returns (q: int, a: Attribute)
    requires p < |text|
    modifies doc
    ensures -1 <= q <= |text|
    ensures var r := ParseAttribute(text[p..]);
      && r.Ok? == (0 <= q < |text|)
      && (r.Ok? ==> p < q && a == r.value && text[q..] == r.rest && doc.error == old(doc.error))
      && (!r.Ok? ==> Record(doc.error, ParsingElement) == After(old(doc.error), r))
  {
    hide SkipWhiteSpace, ReadName, ReadAttributeValue;
    a := Attribute("", "");
    q := SkipWhiteSpaceFrom(text, p);
    if q < 0 || q == |text| {
      return -1, a;
    }
    var name;
    q, name := ReadNameFrom(text, q, ReadingAttributes);
    if q < 0 || q == |text| {
      doc.SetError(ReadingAttributes);
      return -1, a;
    }
    q := SkipWhiteSpaceFrom(text, q);
    if q < 0 || q == |text| || text[q] != '=' {
      doc.SetError(ReadingAttributes);
      return -1, a;
    }
    Behind(text, q, 1);
    q := SkipWhiteSpaceFrom(text, q + 1);
    if q < 0 || q == |text| {
      doc.SetError(ReadingAttributes);
      return -1, a;
    }
    var value;
    q, value := ReadAttributeValueAt(doc, text, q);
    a := Attribute(name, value);
  }

  // ----- elements

  /** `attributeSet.Find` */
  method FindAttribute(attrs: seq<Attribute>, name: string) returns (found: bool)
    ensures found == HasName(attrs, name)
  {
    var i := 0;
    while i < |attrs|
      invariant i <= |attrs| && forall j :: 0 <= j < i ==> attrs[j].name != name
    {
      if attrs[i].name == name {
        return true;
      }
      i := i + 1;
    }
    found := false;
  }

  /** What a method that parses a node does to the error state and returns, `r` being what the text there parses to. */
  predicate Parses(before: Status, after: Status, text: string, q: int, value: Node, r: Parsed<Node>)
  {
    && -1 <= q <= |text|
    && r.Ok? == (0 <= q)
    && (r.Ok? ==> value == r.value && text[q..] == r.rest)
    && after == After(before, r)
  }

  /** The end tag at `p`, after the children. */
  method ParseEndTagAt(doc: Document, text: string, p: nat, e: Node) returns (q: int)
    requires p < |text| && e.Element?
    modifies doc
    ensures Parses(old(doc.error), doc.error, text, q, e, ParseEndTag(e, text[p..]))
  {
    var endTag := "</" + e.name;
    var atEndTag := StartsWith(text, p, endTag);
    if atEndTag {
      Behind(text, p, |endTag|);
      q := SkipWhiteSpaceFrom(text, p + |endTag|);
      if 0 <= q < |text| && text[q] == '>' {
        Behind(text, q, 1);
        return q + 1;
      }
      doc.SetError(ReadingEndTag);
      return -1;
    }
    doc.SetError(ReadingEndTag);
    q := -1;
  }

  method ParseElementAt(doc: Document, text: string, p: nat) returns (q: int, node: Node)
    requires p < |text|
    modifies doc
    ensures Parses(old(doc.error), doc.error, text, q, node, ParseElement(text[p..])) && (0 <= q ==> p < q)
    decreases |text| - p, 2
  {
    hide SkipWhiteSpace, ReadName, ParseAttributes;
    node := Element("", [], []);
    q := SkipWhiteSpaceFrom(text, p);
    if q < 0 || q == |text| {
      doc.SetError(ParsingElement);
      return -1, node;
    }
    if text[q] != '<' {
      doc.SetError(ParsingElement);
      return -1, node;
    }
    Behind(text, q, 1);
    q := SkipWhiteSpaceFrom(text, q + 1);
    var name;
    q, name := ReadNameFrom(text, q, FailedToReadElementName);
    if q < 0 || q == |text| {
      doc.SetError(FailedToReadElementName);
      return -1, node;
    }
    q, node := ParseAttributesAt(doc, text, q, name, []);
  }

  /** One more attribute; its name must be new. */
  function AddAttribute(attrs: seq<Attribute>, s: string): (r: Parsed<seq<Attribute>>)
    ensures r.Ok? ==> r.rest != "" && |r.rest| < |s|
  {
    var a := ParseAttribute(s);
    if !a.Ok? then a.PropagateFailure()
    else if HasName(attrs, a.value.name) then Fail(ParsingElement)
    else Ok(attrs + [a.value], a.rest)
  }

  method AddAttributeAt(doc: Document, text: string, p: nat, attrs: seq<Attribute>)
    returns (q: int, more: seq<Attribute>)
    requires p < |text|
    modifies doc
    ensures -1 <= q < |text|
    ensures var r := AddAttribute(attrs, text[p..]);
      && r.Ok? == (0 <= q)
      && (r.Ok? ==> p < q && more == r.value && text[q..] == r.rest)
      && doc.error == After(old(doc.error), r)
  {
    hide ParseAttribute, HasName;
    more := attrs;
    var attr;
    q, attr := ParseAttributeAt(doc, text, p);
    if q < 0 || q == |text| {
      doc.SetError(ParsingElement);
      return -1, more;
    }
    var twice := FindAttribute(attrs, attr.name);
    if twice {
      doc.SetError(ParsingElement);
      return -1, more;
    }
    more := attrs + [attr];
  }

  /** `/>`, from the slash on. */
  function ParseEmptyTag(e: Node, s: string): Parsed<Node>
  {
    if |s| > 1 && s[1] == '>' then Ok(e, s[2..]) else Fail(ParsingEmpty)
  }

  method ParseEmptyTagAt(doc: Document, text: string, p: nat, e: Node) returns (q: int)
    requires p < |text|
    modifies doc
    ensures Parses(old(doc.error), doc.error, text, q, e, ParseEmptyTag(e, text[p..])) && (0 <= q ==> p < q)
  {
    q := p + 1;
    if q == |text| || text[q] != '>' {
      doc.SetError(ParsingEmpty);
      return -1;
    }
    Behind(text, p, 2);
    q := q + 1;
  }

  /** The loop over the attributes, up to the end of the element. */
  method ParseAttributesAt(doc: Document, text: string, p: nat, name: string, first: seq<Attribute>)
    returns (q: int, node: Node)
    requires p < |text|
    modifies doc
    ensures Parses(old(doc.error), doc.error, text, q, node, ParseAttributes(name, first, text[p..]))
    ensures 0 <= q ==> p < q
    decreases |text| - p, 1
  {
    hide SkipWhiteSpace, AddAttribute, ParseAttributes, ParseContent, ParseEmptyTag;
    var attrs := first;
    q := p;
    while true
      invariant p <= q < |text| && doc.error == old(doc.error)
      invariant ParseAttributes(name, attrs, text[q..]) == ParseAttributes(name, first, text[p..])
      decreases |text| - q
    {
      AttributesUnfold(name, attrs, text[q..]);
      q := SkipWhiteSpaceFrom(text, q);
      if q < 0 || q == |text| {
        doc.SetError(ReadingAttributes);
        return -1, Element(name, attrs, []);
      }
      if text[q] == '/' {
        node := Element(name, attrs, []);
        q := ParseEmptyTagAt(doc, text, q, node);
        return;
      } else if text[q] == '>' {
        Behind(text, q, 1);
        q, node := ParseContentAt(doc, text, q + 1, name, attrs);
        return;
      }
      q, attrs := AddAttributeAt(doc, text, q, attrs);
      if q < 0 {
        return -1, Element(name, attrs, []);
      }
    }
  }

  lemma AttributesUnfold(name: string, attrs: seq<Attribute>, s: string)
    requires s != ""
    ensures var p, r := SkipWhiteSpace(At(s)), ParseAttributes(name, attrs, s);
      if !p.More() then r == Fail(ReadingAttributes)
      else if p.rest[0] == '/' then r == ParseEmptyTag(Element(name, attrs, []), p.rest)
      else if p.rest[0] == '>' then r == ParseContent(name, attrs, p.rest[1..])
      else
        var a := AddAttribute(attrs, p.rest);
        r == (if !a.Ok? then a.PropagateFailure() else ParseAttributes(name, a.value, a.rest))
  {
    hide ParseAttribute, ReadValue, ParseEndTag, SkipWhiteSpace, HasName;
  }

  /** What follows `>`: children and end tag. */
  function ParseContent(name: string, attrs: seq<Attribute>, s: string): Parsed<Node>
  {
    var r := ReadValue(SkipWhiteSpace(At(s)));
    if r.Ok? then ParseEndTag(Element(name, attrs, r.value), r.rest) else r.PropagateFailure()
  }

  method ParseContentAt(doc: Document, text: string, p: nat, name: string, attrs: seq<Attribute>)
    returns (q: int, node: Node)
    requires p <= |text|
    modifies doc
    ensures Parses(old(doc.error), doc.error, text, q, node, ParseContent(name, attrs, text[p..]))
    ensures 0 <= q ==> p <= q
    decreases |text| - p, 4
  {
    hide SkipWhiteSpace, ReadValue, ParseEndTag;
    var kids;
    q, kids := ReadValueAt(doc, text, p);
    node := Element(name, attrs, kids);
    if q < 0 || q == |text| {
      doc.SetError(ReadingEndTag);
      return -1, node;
    }
    q := ParseEndTagAt(doc, text, q, node);
  }

  /** Children read so far in front of those still to be read. */
  function Follow(kids: seq<Node>, r: Parsed<seq<Node>>): Parsed<seq<Node>>
  {
    if r.Ok? then Ok(kids + r.value, r.rest) else r
  }

  lemma FollowNothing(r: Parsed<seq<Node>>)
    ensures Follow([], r) == r
  {
    if r.Ok? {
      assert [] + r.value == r.value;
    }
  }

  lemma FollowFollow(a: seq<Node>, b: seq<Node>, r: Parsed<seq<Node>>)
    ensures Follow(a, Follow(b, r)) == Follow(a + b, r)
  {
    if r.Ok? {
      assert a + (b + r.value) == a + b + r.value;
    }
  }

  /** A text node: where reading goes on (at the tag that ends it) and its value. */
  method ParseTextAt(text: string, p: nat) returns (q: int, value: string)
    requires p < |text| && text[p] != '<' && !IsWhiteSpace(text[p])
    ensures -1 <= q < |text| && (0 <= q ==> p < q)
    ensures (View(text, q), value) == ParseText(text[p..])
  {
    q, value := ReadTextFrom(text, p, true, "<");
    ReadTextProgress(text[p..]);
    TagBefore(text[p..]);
    if 0 <= q {
      assert |text[q..]| + 1 < |text[p..]|;
      ghost var after := text[q..];
      q := q - 1;
      assert text[q..] == [text[q]] + after;
      assert text[q] == text[p..][|text[p..]| - |after| - 1];
    }
  }

  /** The character before where `ReadText` leaves off is the end tag's. */
  lemma TagBefore(s: string)
    ensures var p := ReadText(At(s), true, "<").0;
      p.At? ==> |p.rest| < |s| && s[|s| - |p.rest| - 1] == '<'
  {
    if s != "" {
      var start := DropWhiteSpace(s);
      DropIsSuffix(s);
      TrimIsSuffix(start, "<", false);
      hide TrimText, DropWhiteSpace;
      var q := TrimText(start, "<", false).0;
      if q.At? && q.rest != "" {
        assert q.rest[0] == '<';
      }
    }
  }

  predicate Suffix(r: string, s: string)
  {
    |r| <= |s| && r == s[|s| - |r|..]
  }

  lemma {:induction false} DropIsSuffix(s: string)
    ensures Suffix(DropWhiteSpace(s), s)
  {
    if s != "" && IsWhiteSpace(s[0]) {
      DropIsSuffix(s[1..]);
    }
  }

  lemma NumericIsSuffix(s: string, mark: char, from: nat, radix: nat)
    requires 0 < from <= |s| && s[from - 1] == mark
    ensures var p := NumericEntity(s, mark, from, radix).0; p.At? ==> Suffix(p.rest, s)
  {
    hide AllDigits, FindLast, NumberOf;
  }

  lemma {:induction false} NamedIsSuffix(s: string, k: nat)
    requires s != "" && k <= |ENTITIES|
    ensures var p := NamedEntity(s, k).0; p.At? && Suffix(p.rest, s)
    decreases |ENTITIES| - k
  {
    if k < |ENTITIES| && !(ENTITIES[k].0 <= s) {
      NamedIsSuffix(s, k + 1);
    }
  }

  lemma CharIsSuffix(s: string)
    requires s != ""
    ensures var p := GetChar(s).0; p.At? ==> Suffix(p.rest, s)
  {
    NamedIsSuffix(s, 0);
    if |s| > 2 && s[1] == '#' {
      NumericIsSuffix(s, '#', 2, 10);
      if s[2] == 'x' {
        NumericIsSuffix(s, 'x', 3, 16);
      }
    }
    hide NumericEntity, NamedEntity;
  }

  lemma SuffixOfSuffix(a: string, b: string, c: string)
    requires Suffix(a, b) && Suffix(b, c)
    ensures Suffix(a, c)
  {
  }

  lemma {:induction false} TrimIsSuffix(s: string, tag: string, pending: bool)
    ensures var p := TrimText(s, tag, pending).0; p.At? ==> Suffix(p.rest, s)
    decreases |s|
  {
    if s != "" && !(tag <= s) {
      if IsWhiteSpace(s[0]) {
        TrimIsSuffix(s[1..], tag, true);
      } else {
        CharIsSuffix(s);
        hide GetChar;
        var p := GetChar(s).0;
        if p.At? {
          TrimIsSuffix(p.rest, tag, false);
          var q := TrimText(p.rest, tag, false).0;
          if q.At? {
            SuffixOfSuffix(q.rest, p.rest, s);
          }
        }
      }
    }
  }

  /**
   * The children from `p` on. It leaves off at the end tag, at the end of the text, or with a null pointer; in the last
   * two cases the caller reports a missing end tag, which counts only if no error has been reported before.
   */
  method ReadValueAt(doc: Document, text: string, p: nat) returns (q: int, kids: seq<Node>)
    requires p <= |text|
    modifies doc
    ensures -1 <= q <= |text|
    ensures var r := ReadValue(SkipWhiteSpace(At(text[p..])));
      && r.Ok? == (0 <= q < |text|)
      && (r.Ok? ==> p <= q && kids == r.value && text[q..] == r.rest && doc.error == old(doc.error))
      && (!r.Ok? ==> Record(doc.error, ReadingEndTag) == After(old(doc.error), r))
    decreases |text| - p, 3
  {
    kids := [];
    q := SkipWhiteSpaceFrom(text, p);
    ghost var all := ReadValue(View(text, q));
    FollowNothing(all);
    while 0 <= q < |text|
      invariant -1 <= q <= |text| && (0 <= q ==> p <= q) && (0 <= q < |text| ==> !IsWhiteSpace(text[q]))
      invariant all == Follow(kids, ReadValue(View(text, q))) && doc.error == old(doc.error)
      decreases q >= 0, |text| - q
    {
      hide SkipWhiteSpace, ParseText, ParseElement;
      if text[q] != '<' {
        var value: string;
        ghost var s := text[q..];
        q, value := ParseTextAt(text, q);
        ghost var before := kids;
        var blank := AllWhiteSpace(value);
        if !blank {
          kids := kids + [Text(value)];
        }
        TextUnfold(s, before);
      } else {
        var atEnd := StartsWith(text, q, "</");
        if atEnd {
          assert ReadValue(At(text[q..])) == Ok([], text[q..]);
          assert kids + [] == kids;
          return;
        }
        if !(q + 1 < |text| && IsNameStart(text[q + 1])) {
          doc.LeaveModel();
          return -1, kids;
        }
        var node;
        ghost var s := text[q..];
        q, node := ParseElementAt(doc, text, q);
        ElementUnfold(s, kids);
        if q < 0 {
          doc.SetError(ReadingElementValue);
          return -1, kids;
        }
        kids := kids + [node];
      }
      q := SkipWhiteSpaceFrom(text, q);
    }
    if q < 0 {
      doc.SetError(ReadingElementValue);
    }
  }

  lemma TextUnfold(s: string, kids: seq<Node>)
    requires s != "" && s[0] != '<' && !IsWhiteSpace(s[0])
    ensures var (q, value) := ParseText(s);
      Follow(kids, ReadValue(At(s))) ==
      Follow(if AllWhiteSpace(value) then kids else kids + [Text(value)], ReadValue(SkipWhiteSpace(q)))
  {
    var (q, value) := ParseText(s);
    hide ParseText, SkipWhiteSpace;
    var r := ReadValue(SkipWhiteSpace(q));
    FollowFollow(kids, if AllWhiteSpace(value) then [] else [Text(value)], r);
    assert kids + [] == kids;
    assert ReadValue(At(s)) == Follow(if AllWhiteSpace(value) then [] else [Text(value)], r);
  }

  lemma ElementUnfold(s: string, kids: seq<Node>)
    requires StartsElement(s) && !("</" <= s)
    ensures var e := ParseElement(s);
      Follow(kids, ReadValue(At(s))) ==
      (if e.Ok? then Follow(kids + [e.value], ReadValue(SkipWhiteSpace(At(e.rest)))) else e.PropagateFailure())
  {
    var e := ParseElement(s);
    hide ParseElement, SkipWhiteSpace;
    if e.Ok? {
      var r := ReadValue(SkipWhiteSpace(At(e.rest)));
      FollowFollow(kids, [e.value], r);
      assert ReadValue(At(s)) == Follow([e.value], r);
    }
  }

  // ----- documents

  /** `TiXmlDocument::Parse` in the encoding-unknown mode. */
  method ParseDocumentText(doc: Document, text: string) returns (kids: seq<Node>)
    requires doc.error == Clean
    modifies doc
    ensures var r := ParseDocument(text);
      doc.error == After(Clean, r) && (r.Ok? ==> kids == r.value)
  {
    kids := [];
    if text == "" {
      doc.SetError(DocumentEmpty);
      return;
    }
    assert text[0..] == text;
    var marked := StartsWith(text, 0, BYTE_ORDER_MARK);
    if marked {
      doc.LeaveModel();
      return;
    }
    var p := SkipWhiteSpaceFrom(text, 0);
    ghost var all := ParseElements(View(text, p));
    FollowNothing(all);
    while 0 <= p < |text|
      invariant -1 <= p <= |text| && (0 <= p < |text| ==> !IsWhiteSpace(text[p]))
      invariant all == Follow(kids, ParseElements(View(text, p))) && doc.error == Clean
      decreases p >= 0, |text| - p
    {
      hide SkipWhiteSpace, ParseElement;
      if text[p] != '<' {
        break;
      }
      if !(p + 1 < |text| && IsNameStart(text[p + 1])) {
        doc.LeaveModel();
        return;
      }
      var node;
      ghost var s := text[p..];
      p, node := ParseElementAt(doc, text, p);
      ElementsUnfold(s, kids);
      if p < 0 {
        return;
      }
      kids := kids + [node];
      p := SkipWhiteSpaceFrom(text, p);
    }
    assert kids + [] == kids;
    if kids == [] {
      doc.SetError(DocumentEmpty);
    }
  }

  lemma ElementsUnfold(s: string, kids: seq<Node>)
    requires StartsElement(s)
    ensures var e := ParseElement(s);
      Follow(kids, ParseElements(At(s))) ==
      (if e.Ok? then Follow(kids + [e.value], ParseElements(SkipWhiteSpace(At(e.rest)))) else e.PropagateFailure())
  {
    var e := ParseElement(s);
    hide ParseElement, SkipWhiteSpace;
    if e.Ok? {
      var r := ParseElements(SkipWhiteSpace(At(e.rest)));
      FollowFollow(kids, [e.value], r);
      assert ParseElements(At(s)) == Follow([e.value], r);
    }
  }
}
