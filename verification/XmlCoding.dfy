/** Reading back what was encoded. */
module XmlCoding {
  import opened XmlText

  /** An end tag whose first character never appears unencoded in plain text: `<`, `"` and `'` are the ones used. */
  predicate EndTag(tag: string)
  {
    tag != "" && (tag[0] == '<' || tag[0] == '\"' || tag[0] == '\'')
  }

  /** The reader recognises the encoding of any single character and reads that character. */
  lemma DecodeChar(c: char, rest: string)
    ensures EncodeChar(c) != "" && GetChar(EncodeChar(c) + rest) == (At(rest), [c])
  {
    var s := EncodeChar(c) + rest;
    if c == '&' || c == '<' || c == '>' || c == '\"' || c == '\'' {
      NamedFound(c, rest);
    } else if c < 32 as char {
      ControlFound(c, rest);
    } else {
      assert s[1..] == rest;
    }
  }

  function EntityIndex(c: char): (k: nat)
    requires c == '&' || c == '<' || c == '>' || c == '\"' || c == '\''
    ensures k < |ENTITIES| && ENTITIES[k].1 == c && ENTITIES[k].0 == EncodeChar(c)
  {
    if c == '&' then 0 else if c == '<' then 1 else if c == '>' then 2 else if c == '\"' then 3 else 4
  }

  lemma NamedFound(c: char, rest: string)
    requires c == '&' || c == '<' || c == '>' || c == '\"' || c == '\''
    ensures GetChar(EncodeChar(c) + rest) == (At(rest), [c])
  {
    var s, k := EncodeChar(c) + rest, EntityIndex(c);
    assert s[|ENTITIES[k].0|..] == rest;
    assert s[1] == EncodeChar(c)[1] && s[2] == EncodeChar(c)[2];
    NamedSkips(s, 0, k);
  }

  /** No entity before the `k`-th in the table is a prefix of a text that starts with the `k`-th. */
  lemma {:induction false} NamedSkips(s: string, j: nat, k: nat)
    requires j <= k < |ENTITIES| && ENTITIES[k].0 <= s
    ensures s != "" && NamedEntity(s, j) == (At(s[|ENTITIES[k].0|..]), [ENTITIES[k].1])
    decreases k - j
  {
    if j < k {
      assert !(ENTITIES[j].0 <= s) by {
        EntitiesDiffer(s, j, k);
      }
      NamedSkips(s, j + 1, k);
    }
  }

  lemma EntitiesDiffer(s: string, j: nat, k: nat)
    requires j < k < |ENTITIES| && ENTITIES[k].0 <= s
    ensures !(ENTITIES[j].0 <= s)
  {
    var i := if j == 0 && k == 4 then 2 else 1;
    assert s[i] == ENTITIES[k].0[i];
    assert ENTITIES[k].0[i] != ENTITIES[j].0[i];
  }

  lemma HexDigitValue(n: nat)
    requires n < 16
    ensures HexValue(HexDigit(n)) == n && HexDigit(n) != 'x' && HexDigit(n) != ';'
  {
  }

  lemma TwoDigits(h: char, l: char)
    requires HexValue(h) >= 0 && HexValue(l) >= 0
    ensures AllDigits([h, l], 16) && NumberOf([h, l], 16) == 16 * HexValue(h) + HexValue(l)
  {
    assert [h, l][..1] == [h];
    assert [h][..0] == "";
    assert NumberOf("", 16) == 0;
    assert NumberOf([h], 16) == HexValue(h);
  }

  lemma ControlParts(h: char, l: char, rest: string)
    requires HexValue(h) >= 0 && HexValue(l) >= 0
    ensures var s := ['&', '#', 'x', h, l, ';'] + rest;
      NumericEntity(s, 'x', 3, 16) == (At(rest), [LowByte(16 * HexValue(h) + HexValue(l))])
  {
    var s := ['&', '#', 'x', h, l, ';'] + rest;
    assert s[3] == h && s[4] == l && s[5] == ';' && s[2] == 'x';
    assert Find(s, ';', 4) == 5;
    assert FindLast(s, 'x', 4) == 2;
    assert s[3..5] == [h, l];
    TwoDigits(h, l);
    assert s[6..] == rest;
  }

  lemma ControlFound(c: char, rest: string)
    requires c < 32 as char
    ensures GetChar(EncodeChar(c) + rest) == (At(rest), [c])
  {
    var h, l := HexDigit(c as int / 16), HexDigit(c as int % 16);
    HexDigitValue(c as int / 16);
    HexDigitValue(c as int % 16);
    ControlParts(h, l, rest);
    assert EncodeChar(c) == ['&', '#', 'x', h, l, ';'];
    hide NumericEntity, HexDigit, HexValue, EncodeChar;
  }

  lemma EncodedNotTag(c: char, rest: string, tag: string)
    requires EndTag(tag)
    ensures !(tag <= EncodeChar(c) + rest)
  {
    assert (EncodeChar(c) + rest)[0] == EncodeChar(c)[0];
  }

  lemma EncodePlain(s: string)
    requires s != "" && Plain(s)
    ensures Plain(s[1..]) && Encode(s) == EncodeChar(s[0]) + Encode(s[1..])
  {
    PlainTail(s);
  }

  lemma KeepStep(c: char, next: string, tag: string)
    requires EndTag(tag)
    ensures KeepText(EncodeChar(c) + next, tag) == (KeepText(next, tag).0, [c] + KeepText(next, tag).1)
  {
    EncodedNotTag(c, next, tag);
    DecodeChar(c, next);
    hide GetChar, EncodeChar;
  }

  lemma KeepEnd(tag: string, rest: string)
    requires EndTag(tag)
    ensures KeepText(tag + rest, tag) == (At(tag + rest), "")
  {
  }

  /** With white space kept, decoding inverts encoding, whatever the end tag and whatever follows. */
  lemma {:induction false} KeepInvertsEncode(s: string, tag: string, rest: string)
    requires Plain(s) && EndTag(tag)
    ensures KeepText(Encode(s) + (tag + rest), tag) == (At(tag + rest), s)
  {
    hide KeepText, EncodeChar, Plain, EndTag;
    var tail := tag + rest;
    if s == "" {
      KeepEnd(tag, rest);
      assert Encode(s) + tail == tail;
    } else {
      EncodePlain(s);
      hide Encode;
      KeepInvertsEncode(s[1..], tag, rest);
      KeepStep(s[0], Encode(s[1..]) + tail, tag);
      assert Encode(s) + tail == EncodeChar(s[0]) + (Encode(s[1..]) + tail);
      assert [s[0]] + s[1..] == s;
    }
  }

  /** Runs of blanks condensed to one, a final run dropped; `pending` says whether a run has just been passed. */
  function Squeeze(s: string, pending: bool): (r: string)
  {
    if s == "" then ""
    else if s[0] == ' ' then Squeeze(s[1..], true)
    else (if pending then " " else "") + [s[0]] + Squeeze(s[1..], false)
  }

  lemma {:induction false} TrimSkips(ws: string, s: string, tag: string, pending: bool)
    requires AllWhiteSpace(ws) && EndTag(tag) && tag <= s
    ensures TrimText(ws + s, tag, pending) == (At(s), "")
  {
    if ws == "" {
      assert ws + s == s;
    } else {
      assert (ws + s)[0] == ws[0] && (ws + s)[1..] == ws[1..] + s;
      TrimSkips(ws[1..], s, tag, true);
    }
  }

  /** With white space condensed, decoding gives the text with its blanks squeezed: other white space is encoded. */
  lemma {:induction false} TrimSqueezes(s: string, ws: string, tag: string, rest: string, pending: bool)
    requires Plain(s) && EndTag(tag) && AllWhiteSpace(ws)
    ensures TrimText(Encode(s) + (ws + (tag + rest)), tag, pending) == (At(tag + rest), Squeeze(s, pending))
  {
    hide TrimText, EncodeChar, Plain, EndTag, AllWhiteSpace;
    var tail := ws + (tag + rest);
    if s == "" {
      assert Encode(s) + tail == tail;
      assert tag <= tag + rest;
      TrimSkips(ws, tag + rest, tag, pending);
    } else {
      EncodePlain(s);
      hide Encode;
      TrimSqueezes(s[1..], ws, tag, rest, s[0] == ' ');
      TrimStep(s[0], Encode(s[1..]) + tail, tag, pending);
      assert Encode(s) + tail == EncodeChar(s[0]) + (Encode(s[1..]) + tail);
    }
  }

  lemma TrimStep(c: char, next: string, tag: string, pending: bool)
    requires EndTag(tag)
    ensures var r := TrimText(next, tag, c == ' ');
      TrimText(EncodeChar(c) + next, tag, pending) ==
      (if c == ' ' then r else (r.0, (if pending then " " else "") + [c] + r.1))
  {
    EncodedNotTag(c, next, tag);
    if c == ' ' {
      assert (EncodeChar(c) + next)[1..] == next;
    } else {
      EncodedFirst(c, next);
      DecodeChar(c, next);
      hide GetChar, EncodeChar;
    }
  }

  lemma EncodedFirst(c: char, next: string)
    requires c != ' '
    ensures !IsWhiteSpace((EncodeChar(c) + next)[0])
  {
  }

  /** No blank at either end and none doubled. */
  predicate Tidy(s: string)
  {
    && (s != "" ==> s[0] != ' ' && s[|s| - 1] != ' ')
    && forall i :: 0 <= i < |s| - 1 ==> !(s[i] == ' ' && s[i + 1] == ' ')
  }

  /** Tidy after a blank: it may not start with one, nor be missing. */
  predicate TidyAfter(s: string, pending: bool)
  {
    && (s != "" ==> s[|s| - 1] != ' ')
    && (forall i :: 0 <= i < |s| - 1 ==> !(s[i] == ' ' && s[i + 1] == ' '))
    && (pending ==> s != "" && s[0] != ' ')
  }

  lemma {:induction false} SqueezeShortens(s: string, pending: bool)
    ensures |Squeeze(s, pending)| <= |s| + (if pending then 1 else 0)
  {
    if s != "" {
      SqueezeShortens(s[1..], s[0] == ' ');
    }
  }

  lemma TidyAfterTail(s: string, pending: bool)
    requires s != ""
    ensures TidyAfter(s, pending) <==> TidyAfter(s[1..], s[0] == ' ') && (pending ==> s[0] != ' ')
  {
    var t := s[1..];
    if TidyAfter(s, pending) {
      forall i | 0 <= i < |t| - 1 ensures !(t[i] == ' ' && t[i + 1] == ' ') {
        assert t[i] == s[i + 1] && t[i + 1] == s[i + 2];
      }
      assert t != "" ==> t[|t| - 1] == s[|s| - 1];
    }
    if TidyAfter(t, s[0] == ' ') && (pending ==> s[0] != ' ') {
      forall i | 0 <= i < |s| - 1 ensures !(s[i] == ' ' && s[i + 1] == ' ') {
        if i > 0 {
          assert t[i - 1] == s[i] && t[i] == s[i + 1];
        }
      }
      assert t != "" ==> t[|t| - 1] == s[|s| - 1];
    }
  }

  function Blank(pending: bool): string { if pending then " " else "" }

  lemma ConsEquals(c: char, x: string, y: string, blank: string)
    ensures blank + [c] + x == blank + ([c] + y) <==> x == y
  {
    if blank + [c] + x == blank + ([c] + y) {
      assert (blank + [c] + x)[|blank| + 1..] == x;
      assert (blank + ([c] + y))[|blank| + 1..] == y;
    }
  }

  /** Squeezing changes nothing exactly when there is nothing to squeeze. */
  lemma {:induction false} SqueezeTidy(s: string, pending: bool)
    ensures Squeeze(s, pending) == Blank(pending) + s <==> TidyAfter(s, pending)
  {
    if s != "" {
      SqueezeTidy(s[1..], s[0] == ' ');
      TidyAfterTail(s, pending);
      assert s == [s[0]] + s[1..];
      if s[0] == ' ' {
        SqueezeShortens(s[1..], true);
      } else {
        ConsEquals(s[0], Squeeze(s[1..], false), s[1..], Blank(pending));
      }
    }
  }

  // ----- character references passed through by the encoder

  lemma SemicolonLast(c: char)
    ensures var e := EncodeChar(c); forall i :: 0 <= i < |e| - 1 ==> e[i] != ';'
  {
    if c < 32 as char {
      HexDigitValue(c as int / 16);
      HexDigitValue(c as int % 16);
    }
  }

  lemma PassThroughNoSemicolon(s: string)
    requires StartsReference(s)
    ensures var k := PassThrough(s); (forall i :: 1 <= i < k ==> s[i] != ';') && (s[k] == ';' || k == |s| - 1)
  {
  }

  lemma EncodeReference(s: string)
    requires StartsReference(s)
    ensures var k := PassThrough(s); Encode(s) == s[..k] + (EncodeChar(s[k]) + Encode(s[k + 1..]))
  {
    var k := PassThrough(s);
    PassThroughNoSemicolon(s);
    assert s[k..][1..] == s[k + 1..];
    assert !StartsReference(s[k..]);
  }

  /** Reading the hexadecimal reference at the start of `u`, whose first semicolon (if any) is at `q`. */
  lemma ReferenceEnds(u: string, q: nat)
    requires |u| > 3 && StartsReference(u) && 3 <= q <= |u|
    requires forall i :: 3 <= i < q ==> u[i] != ';'
    requires q < |u| ==> u[q] == ';'
    ensures var (p, v) := GetChar(u); p.Null? || (q < |u| && p == At(u[q + 1..]))
  {
    assert Find(u, ';', 3) == q;
  }

  /** Holds no semicolon that could end a reference started before it. */
  predicate Closed(s: string)
  {
    ';' !in s
  }

  /** The text around a passed-through reference: raw bytes `a`, one encoded character `e`, then `b`. */
  lemma ReferenceWithin(a: string, e: string, b: string) returns (u: string)
    requires |a| >= 2 && StartsReference(a + e) && e != "" && (|a| == 2 ==> e == "x") && b != ""
    requires forall i :: 1 <= i < |a| ==> a[i] != ';'
    requires forall i :: 0 <= i < |e| - 1 ==> e[i] != ';'
    ensures u == a + (e + b) && StartsReference(u) && |u| > 3
    ensures var (p, v) := GetChar(u);
      p.Null? || p == At(b) || (e[|e| - 1] != ';' && ';' in b)
  {
    u := a + (e + b);
    assert a + e <= u;
    assert forall i :: 0 <= i < |a| ==> u[i] == a[i];
    assert forall i :: |a| <= i < |a| + |e| ==> u[i] == e[i - |a|];
    var last := |a| + |e| - 1;
    assert u[last] == e[|e| - 1];
    if e[|e| - 1] == ';' {
      ReferenceEnds(u, last);
      assert u[last + 1..] == b;
    } else if ';' !in b {
      assert forall i :: |a| + |e| <= i < |u| ==> u[i] == b[i - |a| - |e|];
      ReferenceEnds(u, |u|);
    }
  }

  /**
   * A reference the encoder passed through is read as one character at most, and reading goes on at the encoding of a
   * suffix `s'` of the text that is shorter by more than that.
   */
  lemma ReferenceShrinks(s: string, tail: string) returns (s': string)
    requires StartsReference(s) && tail != "" && Closed(tail)
    ensures |s'| + 2 < |s|
    ensures StartsReference(Encode(s) + tail)
    ensures GetChar(Encode(s) + tail).0.Null? || GetChar(Encode(s) + tail).0 == At(Encode(s') + tail)
  {
    var k := PassThrough(s);
    PassThroughNoSemicolon(s);
    EncodeReference(s);
    SemicolonLast(s[k]);
    s' := s[k + 1..];
    var e, later := EncodeChar(s[k]), Encode(s');
    assert Encode(s) + tail == s[..k] + (e + (later + tail));
    PassThroughStarts(s);
    hide GetChar, EncodeChar, Encode, PassThrough;
    var u := ReferenceWithin(s[..k], e, later + tail);
    if e[|e| - 1] != ';' {
      assert s' == "";
      assert later + tail == tail by {
        EncodeEmpty();
      }
    }
  }

  lemma EncodeEmpty()
    ensures Encode("") == ""
  {
  }

  lemma PassThroughStarts(s: string)
    requires StartsReference(s)
    ensures var k, e := PassThrough(s), EncodeChar(s[PassThrough(s)]);
      StartsReference(s[..k] + e) && (k == 2 ==> e == "x") && (e[|e| - 1] != ';' ==> s[k] != ';')
  {
  }

  lemma KeepReference(u: string, tag: string)
    requires StartsReference(u) && EndTag(tag)
    ensures var p := GetChar(u).0;
      if p.Null? then |KeepText(u, tag).1| == 0 else |KeepText(u, tag).1| <= 1 + |KeepText(p.rest, tag).1|
  {
    assert !(tag <= u);
    hide GetChar;
  }

  lemma TrimReference(u: string, tag: string, pending: bool)
    requires StartsReference(u) && EndTag(tag)
    ensures var p, n := GetChar(u).0, |TrimText(u, tag, pending).1|;
      if p.Null? then n <= |Blank(pending)| else n <= |Blank(pending)| + 1 + |TrimText(p.rest, tag, false).1|
  {
    assert !(tag <= u);
    hide GetChar;
  }

  lemma EncodeOther(s: string)
    requires s != "" && !StartsReference(s)
    ensures Encode(s) == EncodeChar(s[0]) + Encode(s[1..])
    ensures Plain(s) <==> Plain(s[1..])
  {
    if Plain(s) {
      PlainTail(s);
    }
    if Plain(s[1..]) {
      PlainCons(s);
    }
  }

  lemma EncodedCons(s: string, tail: string)
    requires s != "" && !StartsReference(s)
    ensures Encode(s) + tail == EncodeChar(s[0]) + (Encode(s[1..]) + tail)
  {
  }

  /** How much reading back the encoding of `s`, with `tail` after it, yields. */
  function KeptLength(s: string, tail: string, tag: string): nat
  {
    |KeepText(Encode(s) + tail, tag).1|
  }

  lemma KeptStep(s: string, tail: string, tag: string)
    requires EndTag(tag) && s != "" && !StartsReference(s)
    ensures KeptLength(s, tail, tag) == 1 + KeptLength(s[1..], tail, tag)
  {
    hide KeepText, Encode, EncodeChar;
    EncodedCons(s, tail);
    KeepStep(s[0], Encode(s[1..]) + tail, tag);
  }

  lemma KeptReference(s: string, tail: string, tag: string) returns (s': string)
    requires EndTag(tag) && StartsReference(s) && tail != "" && Closed(tail)
    ensures |s'| + 2 < |s| && KeptLength(s, tail, tag) <= 1 + KeptLength(s', tail, tag)
  {
    s' := ReferenceShrinks(s, tail);
    hide KeepText, Encode, GetChar;
    KeepReference(Encode(s) + tail, tag);
  }

  /** Reading back never lengthens a text, and shortens every text that holds a passed-through reference. */
  lemma {:induction false} KeepNeverGrows(s: string, tail: string, tag: string)
    requires EndTag(tag) && Closed(tail) && tag <= tail
    ensures KeptLength(s, tail, tag) <= |s|
    ensures !Plain(s) ==> KeptLength(s, tail, tag) < |s|
    decreases |s|
  {
    if s == "" {
      assert Encode(s) + tail == tail;
    } else if StartsReference(s) {
      var s' := KeptReference(s, tail, tag);
      hide KeptLength;
      KeepNeverGrows(s', tail, tag);
    } else {
      KeptStep(s, tail, tag);
      EncodeOther(s);
      hide KeptLength;
      KeepNeverGrows(s[1..], tail, tag);
    }
  }

  function TrimmedLength(s: string, tail: string, tag: string, pending: bool): nat
  {
    |TrimText(Encode(s) + tail, tag, pending).1|
  }

  lemma TrimmedStep(s: string, tail: string, tag: string, pending: bool)
    requires EndTag(tag) && s != "" && !StartsReference(s)
    ensures var n := TrimmedLength(s[1..], tail, tag, s[0] == ' ');
      TrimmedLength(s, tail, tag, pending) == (if s[0] == ' ' then n else |Blank(pending)| + 1 + n)
  {
    hide TrimText, Encode, EncodeChar;
    EncodedCons(s, tail);
    TrimStep(s[0], Encode(s[1..]) + tail, tag, pending);
  }

  lemma TrimmedReference(s: string, tail: string, tag: string, pending: bool) returns (s': string)
    requires EndTag(tag) && StartsReference(s) && tail != "" && Closed(tail)
    ensures |s'| + 2 < |s|
    ensures TrimmedLength(s, tail, tag, pending) <= |Blank(pending)| + 1 + TrimmedLength(s', tail, tag, false)
  {
    s' := ReferenceShrinks(s, tail);
    hide TrimText, Encode, GetChar;
    TrimReference(Encode(s) + tail, tag, pending);
  }

  lemma {:induction false} TrimNeverGrows(s: string, tail: string, tag: string, pending: bool)
    requires EndTag(tag) && Closed(tail) && tag <= tail
    ensures TrimmedLength(s, tail, tag, pending) <= |s| + |Blank(pending)|
    ensures !Plain(s) ==> TrimmedLength(s, tail, tag, pending) < |s| + |Blank(pending)|
    decreases |s|
  {
    if s == "" {
      assert Encode(s) + tail == tail;
    } else if StartsReference(s) {
      var s' := TrimmedReference(s, tail, tag, pending);
      hide TrimmedLength;
      TrimNeverGrows(s', tail, tag, false);
    } else {
      TrimmedStep(s, tail, tag, pending);
      EncodeOther(s);
      hide TrimmedLength;
      TrimNeverGrows(s[1..], tail, tag, s[0] == ' ');
    }
  }

  // ----- the two reading modes

  /** What reading back the encoding of `s` gives. */
  function ReadBack(s: string, trim: bool, tag: string, rest: string): string
  {
    ReadText(At(Encode(s) + (tag + rest)), trim, tag).1
  }

  /** With white space kept, a text comes back exactly when "&#x" is nowhere in it. */
  lemma KeepRoundTripIff(s: string, tag: string, rest: string)
    requires EndTag(tag) && Closed(tag + rest)
    ensures ReadBack(s, false, tag, rest) == s <==> Plain(s)
  {
    KeepNeverGrows(s, tag + rest, tag);
    if Plain(s) {
      KeepInvertsEncode(s, tag, rest);
    }
  }

  lemma {:induction false} LeadingBlanks(s: string, tail: string) returns (k: nat)
    requires tail != "" && !IsWhiteSpace(tail[0])
    ensures k <= |s| && (forall i :: 0 <= i < k ==> s[i] == ' ') && (k < |s| ==> s[k] != ' ')
    ensures DropWhiteSpace(Encode(s) + tail) == Encode(s[k..]) + tail
  {
    if s != "" && s[0] == ' ' {
      var j := LeadingBlanks(s[1..], tail);
      BlankFirst(s, tail);
      k := j + 1;
      hide Encode, DropWhiteSpace;
      assert s[1..][j..] == s[k..];
      assert forall i :: 1 <= i < k ==> s[i] == s[1..][i - 1];
    } else {
      k := 0;
      EncodedStart(s, tail);
      assert s[0..] == s;
    }
  }

  lemma BlankFirst(s: string, tail: string)
    requires s != "" && s[0] == ' '
    ensures DropWhiteSpace(Encode(s) + tail) == DropWhiteSpace(Encode(s[1..]) + tail)
  {
    assert Encode(s) == " " + Encode(s[1..]);
    assert (Encode(s) + tail)[1..] == Encode(s[1..]) + tail;
  }

  lemma EncodedStart(s: string, tail: string)
    requires tail != "" && !IsWhiteSpace(tail[0]) && (s != "" ==> s[0] != ' ')
    ensures Encode(s) + tail != "" && !IsWhiteSpace((Encode(s) + tail)[0])
  {
    if s != "" {
      if StartsReference(s) {
        EncodeReference(s);
        assert Encode(s)[0] == '&';
      } else {
        assert Encode(s)[0] == EncodeChar(s[0])[0];
      }
    }
  }

  lemma TidyIsTidyAfter(s: string)
    ensures Tidy(s) <==> TidyAfter(s, false) && (s != "" ==> s[0] != ' ')
  {
  }

  lemma TrimReads(s: string, tag: string, rest: string) returns (k: nat)
    requires EndTag(tag)
    ensures k <= |s| && (forall i :: 0 <= i < k ==> s[i] == ' ') && (k < |s| ==> s[k] != ' ')
    ensures ReadBack(s, true, tag, rest) == TrimText(Encode(s[k..]) + (tag + rest), tag, false).1
  {
    assert (tag + rest)[0] == tag[0];
    k := LeadingBlanks(s, tag + rest);
    hide Encode, TrimText, DropWhiteSpace;
  }

  /** With white space condensed, a text comes back exactly when, besides, it has no stray blank. */
  lemma TrimRoundTripIff(s: string, tag: string, rest: string)
    requires EndTag(tag) && Closed(tag + rest)
    ensures ReadBack(s, true, tag, rest) == s <==> Plain(s) && Tidy(s)
  {
    var k := TrimReads(s, tag, rest);
    hide Encode, TrimText, ReadBack, EndTag;
    TidyIsTidyAfter(s);
    TrimNeverGrows(s[k..], tag + rest, tag, false);
    if k == 0 {
      assert s[k..] == s;
      if Plain(s) {
        TrimSqueezes(s, "", tag, rest, false);
        assert "" + (tag + rest) == tag + rest;
        SqueezeTidy(s, false);
        assert Blank(false) + s == s;
      }
    }
  }
}
