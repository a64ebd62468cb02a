/**
 * Character level of the XML reader and writer: white space, entities, encoding, and reading text up to an end tag.
 * A `char` stands for a byte (the encoding-unknown mode reads bytewise); a C string is a Dafny string, so the byte
 * under a pointer at the empty string is the terminating NUL.
 */
module XmlText {

  /** A `const char*` into the text being parsed: null, or the text from there on. */
  datatype Cursor = Null | At(rest: string) {
    /** `p && *p` */
    predicate More() { At? && rest != "" }
  }

  // ----- white space

  /** `isspace`: blank, tab, line feed, vertical tab, form feed, carriage return. */
  predicate IsWhiteSpace(c: char)
  {
    c == ' ' || '\t' <= c <= '\r'
  }

  predicate AllWhiteSpace(s: string)
  {
    forall i :: 0 <= i < |s| ==> IsWhiteSpace(s[i])
  }

  function DropWhiteSpace(s: string): (r: string)
    ensures |r| <= |s|
    ensures r == "" || !IsWhiteSpace(r[0])
  {
    if s != "" && IsWhiteSpace(s[0]) then DropWhiteSpace(s[1..]) else s
  }

  /** Null at the end of the text, even if there was nothing to skip. */
  function SkipWhiteSpace(p: Cursor): (r: Cursor)
    ensures r.At? ==> p.At? && |r.rest| <= |p.rest| && (r.rest == "" || !IsWhiteSpace(r.rest[0]))
  {
    if p.More() then At(DropWhiteSpace(p.rest)) else Null
  }

  lemma {:induction false} DropWhiteSpacePrefix(ws: string, s: string)
    requires AllWhiteSpace(ws) && (s == "" || !IsWhiteSpace(s[0]))
    ensures DropWhiteSpace(ws + s) == s
  {
    if ws == "" {
      assert ws + s == s;
    } else {
      DropWhiteSpacePrefix(ws[1..], s);
      assert (ws + s)[1..] == ws[1..] + s;
    }
  }

  // ----- searching

  /** The first index from `from` on where `c` is, or the length if there is none. */
  function Find(s: string, c: char, from: nat): (i: nat)
    requires from <= |s|
    ensures from <= i <= |s|
    ensures i < |s| ==> s[i] == c
    ensures forall j :: from <= j < i ==> s[j] != c
    decreases |s| - from
  {
    if from == |s| || s[from] == c then from else Find(s, c, from + 1)
  }

  /** The last index before `end` where `c` is. */
  function FindLast(s: string, c: char, end: nat): (i: nat)
    requires end <= |s| && exists j :: 0 <= j < end && s[j] == c
    ensures i < end && s[i] == c
    ensures forall j :: i < j < end ==> s[j] != c
  {
    if s[end - 1] == c then end - 1 else FindLast(s, c, end - 1)
  }

  // ----- encoding

  function HexDigit(n: nat): char
    requires n < 16
  {
    "0123456789ABCDEF"[n]
  }

  function EncodeChar(c: char): (r: string)
    ensures r != "" && r[0] != ' ' ==> !IsWhiteSpace(r[0])
  {
    if c == '&' then "&amp;"
    else if c == '<' then "&lt;"
    else if c == '>' then "&gt;"
    else if c == '\"' then "&quot;"
    else if c == '\'' then "&apos;"
    else if c < 32 as char then ['&', '#', 'x', HexDigit(c as int / 16), HexDigit(c as int % 16), ';']
    else [c]
  }

  /** `s` starts with a hexadecimal character reference, or what looks like one. */
  predicate StartsReference(s: string)
  {
    |s| > 2 && s[0] == '&' && s[1] == '#' && s[2] == 'x'
  }

  /** How much of a string that starts a reference is passed through: up to the semicolon, or all but one byte. */
  function PassThrough(s: string): (k: nat)
    requires StartsReference(s)
    ensures 2 <= k < |s|
  {
    var q := Find(s, ';', 1);
    if q < |s| then q else |s| - 1
  }

  function Encode(s: string): string
    decreases |s|
  {
    if s == "" then ""
    else if StartsReference(s) then s[..PassThrough(s)] + Encode(s[PassThrough(s)..])
    else EncodeChar(s[0]) + Encode(s[1..])
  }

  /** No "&#x" anywhere. */
  predicate Plain(s: string)
  {
    forall i :: 0 <= i < |s| ==> !StartsReference(s[i..])
  }

  lemma PlainTail(s: string)
    requires s != "" && Plain(s)
    ensures !StartsReference(s) && Plain(s[1..])
  {
    assert s[0..] == s;
    forall i | 0 <= i < |s[1..]| ensures !StartsReference(s[1..][i..]) {
      assert s[1..][i..] == s[i + 1..];
    }
  }

  lemma PlainCons(s: string)
    requires s != "" && !StartsReference(s) && Plain(s[1..])
    ensures Plain(s)
  {
    forall i | 0 <= i < |s| ensures !StartsReference(s[i..]) {
      if i == 0 {
        assert s[0..] == s;
      } else {
        assert s[i..] == s[1..][i - 1..];
      }
    }
  }

  // ----- decoding

  function HexValue(c: char): (v: int)
    ensures -1 <= v < 16
  {
    if '0' <= c <= '9' then c as int - '0' as int
    else if 'a' <= c <= 'f' then c as int - 'a' as int + 10
    else if 'A' <= c <= 'F' then c as int - 'A' as int + 10
    else -1
  }

  function DigitValue(c: char, radix: nat): (v: int)
    ensures -1 <= v < 16
  {
    if radix == 16 then HexValue(c) else if '0' <= c <= '9' then c as int - '0' as int else -1
  }

  predicate AllDigits(s: string, radix: nat)
  {
    forall i :: 0 <= i < |s| ==> DigitValue(s[i], radix) >= 0
  }

  /** The number a digit string denotes, most significant digit first. */
  function NumberOf(s: string, radix: nat): nat
    requires AllDigits(s, radix)
  {
    if s == "" then 0 else radix * NumberOf(s[..|s| - 1], radix) + DigitValue(s[|s| - 1], radix)
  }

  /** The low byte of a number. */
  function LowByte(n: nat): char
  {
    (n % 256) as char
  }

  const ENTITIES: seq<(string, char)> :=
    [("&amp;", '&'), ("&lt;", '<'), ("&gt;", '>'), ("&quot;", '\"'), ("&apos;", '\'')]

  /** A character reference: `mark` is the `x` or `#` that the digits, read backwards from the semicolon, end at. */
  function NumericEntity(s: string, mark: char, from: nat, radix: nat): (r: (Cursor, string))
    requires 0 < from <= |s| && s[from - 1] == mark
    ensures |r.1| <= 1 && (r.0.Null? ==> r.1 == "")
    ensures r.0.At? ==> |r.0.rest| < |s|
  {
    var q := Find(s, ';', from);
    if q == |s| then (Null, "")
    else
      var digits := s[FindLast(s, mark, q) + 1..q];
      if AllDigits(digits, radix) then (At(s[q + 1..]), [LowByte(NumberOf(digits, radix))]) else (Null, "")
  }

  function NamedEntity(s: string, k: nat): (r: (Cursor, string))
    requires s != "" && k <= |ENTITIES|
    ensures |r.1| <= 1 && r.0.At? && |r.0.rest| < |s|
    decreases |ENTITIES| - k
  {
    if k == |ENTITIES| then (At(s[1..]), "")
    else if ENTITIES[k].0 <= s then (At(s[|ENTITIES[k].0|..]), [ENTITIES[k].1])
    else NamedEntity(s, k + 1)
  }

  /** Where reading goes on and what was read; an ampersand that starts no entity is dropped. */
  function GetEntity(s: string): (r: (Cursor, string))
    requires s != ""
    ensures |r.1| <= 1 && (r.0.Null? ==> r.1 == "")
    ensures r.0.At? ==> |r.0.rest| < |s|
  {
    if |s| > 2 && s[1] == '#' then
      if s[2] == 'x' then
        if |s| == 3 then (Null, "") else NumericEntity(s, 'x', 3, 16)
      else NumericEntity(s, '#', 2, 10)
    else NamedEntity(s, 0)
  }

  function GetChar(s: string): (r: (Cursor, string))
    requires s != ""
    ensures |r.1| <= 1 && (r.0.Null? ==> r.1 == "")
    ensures r.0.At? ==> |r.0.rest| < |s|
  {
    if s[0] == '&' then GetEntity(s) else (At(s[1..]), [s[0]])
  }

  /** Text up to `tag`, white space kept. */
  function KeepText(s: string, tag: string): (r: (Cursor, string))
    ensures r.0.At? ==> |r.0.rest| <= |s| && (r.0.rest == "" || tag <= r.0.rest)
    decreases |s|
  {
    if s == "" || tag <= s then (At(s), "")
    else
      var (p, v) := GetChar(s);
      if p.Null? then (Null, v)
      else
        var (q, t) := KeepText(p.rest, tag);
        (q, v + t)
  }

  /** Text up to `tag`, every run of white space condensed to one blank, a final run dropped. */
  function TrimText(s: string, tag: string, pending: bool): (r: (Cursor, string))
    ensures r.0.At? ==> |r.0.rest| <= |s| && (r.0.rest == "" || tag <= r.0.rest)
    decreases |s|
  {
    if s == "" || tag <= s then (At(s), "")
    else if IsWhiteSpace(s[0]) then TrimText(s[1..], tag, true)
    else
      var (p, v) := GetChar(s);
      var blank := if pending then " " else "";
      if p.Null? then (Null, blank + v)
      else
        var (q, t) := TrimText(p.rest, tag, false);
        (q, blank + v + t)
  }

  /** Steps over the end tag; null unless something follows it. */
  function StepOver(p: Cursor, tag: string): (r: Cursor)
    requires p.More() ==> tag <= p.rest
    ensures r.At? ==> r.More() && p.More() && r.rest == p.rest[|tag|..]
  {
    if p.More() && |p.rest| > |tag| then At(p.rest[|tag|..]) else Null
  }

  function ReadText(p: Cursor, trim: bool, tag: string): (r: (Cursor, string))
    ensures r.0.At? ==> p.At? && r.0.More() && |r.0.rest| + |tag| <= |p.rest|
  {
    if trim then
      var start := SkipWhiteSpace(p);
      if start.Null? then (Null, "")
      else
        var (q, t) := TrimText(start.rest, tag, false);
        (StepOver(q, tag), t)
    else if p.Null? then (Null, "")
    else
      var (q, t) := KeepText(p.rest, tag);
      (StepOver(q, tag), t)
  }
}
