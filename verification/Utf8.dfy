/**
 * UTF-8 as section 4 of RFC 3629 defines it, and the table-driven decoder and the two encoders of the repository.
 * Everything is computed on machine words, as in the code.
 */
module Utf8 {

  // ----- the standard

  predicate IsScalar(c: bv32)
  {
    c <= 0xd7ff || (0xe000 <= c && c <= 0x10ffff)
  }

  type Scalar = c: bv32 | IsScalar(c)

  predicate Tail(b: bv8) { 0x80 <= b && b <= 0xbf }

  predicate Char2(a: bv8, b: bv8) { 0xc2 <= a && a <= 0xdf && Tail(b) }

  predicate Char3(a: bv8, b: bv8, c: bv8)
  {
    && Tail(c)
    && (|| (a == 0xe0 && 0xa0 <= b && b <= 0xbf)
        || (0xe1 <= a && a <= 0xec && Tail(b))
        || (a == 0xed && 0x80 <= b && b <= 0x9f)
        || (0xee <= a && a <= 0xef && Tail(b)))
  }

  predicate Char4(a: bv8, b: bv8, c: bv8, d: bv8)
  {
    && Tail(c) && Tail(d)
    && (|| (a == 0xf0 && 0x90 <= b && b <= 0xbf)
        || (0xf1 <= a && a <= 0xf3 && Tail(b))
        || (a == 0xf4 && 0x80 <= b && b <= 0x8f))
  }

  /** The rule UTF8-char. */
  predicate IsChar(s: seq<bv8>)
  {
    || (|s| == 1 && s[0] <= 0x7f)
    || (|s| == 2 && Char2(s[0], s[1]))
    || (|s| == 3 && Char3(s[0], s[1], s[2]))
    || (|s| == 4 && Char4(s[0], s[1], s[2], s[3]))
  }

  /** The rule UTF8-octets. */
  predicate WellFormed(s: seq<bv8>)
    decreases |s|
  {
    s == [] || exists n | 1 <= n <= 4 && n <= |s| :: IsChar(s[..n]) && WellFormed(s[n..])
  }

  function Bits(b: bv8, mask: bv32): bv32 { (b as bv32) & mask }

  function Scalar2(a: bv8, b: bv8): bv32
  {
    (Bits(a, 0x1f) << 6) | Bits(b, 0x3f)
  }

  function Scalar3(a: bv8, b: bv8, c: bv8): bv32
  {
    (Bits(a, 0x0f) << 12) | (Bits(b, 0x3f) << 6) | Bits(c, 0x3f)
  }

  function Scalar4(a: bv8, b: bv8, c: bv8, d: bv8): bv32
  {
    (Bits(a, 0x07) << 18) | (Bits(b, 0x3f) << 12) | (Bits(c, 0x3f) << 6) | Bits(d, 0x3f)
  }

  /** The character number a sequence of octets stands for (section 3): the bits marked x in the table there. */
  function ScalarOf(s: seq<bv8>): bv32
  {
    if |s| == 1 then s[0] as bv32
    else if |s| == 2 then Scalar2(s[0], s[1])
    else if |s| == 3 then Scalar3(s[0], s[1], s[2])
    else if |s| == 4 then Scalar4(s[0], s[1], s[2], s[3])
    else 0
  }

  // ----- the decoder

  const S_STRT: bv32 := 0
  const S_RJCT: bv32 := 8

  /** The packed table: eight four-bit entries a word, first categories of bytes from 128 on, then moves by category. */
  function Utf8StateInfo(i: bv32): bv32
  {
    if i == 0 then 0x11111111 else if i == 1 then 0x11111111
    else if i == 2 then 0x77777777 else if i == 3 then 0x77777777
    else if i == 4 then 0x88888888 else if i == 5 then 0x88888888
    else if i == 6 then 0x88888888 else if i == 7 then 0x88888888
    else if i == 8 then 0x22222299 else if i == 9 then 0x22222222
    else if i == 10 then 0x22222222 else if i == 11 then 0x22222222
    else if i == 12 then 0x3333333a else if i == 13 then 0x33433333
    else if i == 14 then 0x9995666b else if i == 15 then 0x99999999
    else if i == 16 then 0x88888880 else if i == 17 then 0x22818108
    else if i == 18 then 0x88888881 else if i == 19 then 0x88888882
    else if i == 20 then 0x88888884 else if i == 21 then 0x88888887
    else if i == 22 then 0x88888886 else if i == 23 then 0x82218108
    else if i == 24 then 0x82281108 else if i == 25 then 0x88888888
    else if i == 26 then 0x88888883 else if i == 27 then 0x88888885
    else 0
  }

  function Category(fragment: bv8): bv32
  {
    if fragment < 128 then 0
    else
      var b := fragment as bv32;
      (Utf8StateInfo((b >> 3) & 0xf) >> ((b & 7) << 2)) & 0xf
  }

  type State = s: bv32 | s <= 8

  function NextState(state: State, category: bv32): bv32
    requires category <= 15
  {
    if state == S_RJCT then S_RJCT else (Utf8StateInfo(category + 16) >> (state << 2)) & 0xf
  }

  datatype Decoder = Decoder(state: State, codepoint: bv32)

  function ConsumeUtf8Fragment(d: Decoder, fragment: bv8): Decoder
  {
    CategoryInRange(fragment);
    var category := Category(fragment);
    NextStateInRange(d.state, category);
    Decoder(NextState(d.state, category),
            if d.state != S_STRT then (d.codepoint << 6) | ((fragment as bv32) & 0x3f)
            else (0xff >> category) & (fragment as bv32))
  }

  function Consume(d: Decoder, s: seq<bv8>): Decoder
    decreases |s|
  {
    if s == [] then d else Consume(ConsumeUtf8Fragment(d, s[0]), s[1..])
  }

  // ----- the table, entry by entry

  lemma CategoryInRange(b: bv8)
    ensures Category(b) <= 15
  {
  }

  lemma NextStateInRange(state: State, category: bv32)
    requires category <= 15
    ensures NextState(state, category) <= 8
  {
  }

  lemma CategoryMeans(b: bv8)
    ensures Category(b) ==
      (if b <= 0x7f then 0 else if b <= 0x8f then 1 else if b <= 0x9f then 7 else if b <= 0xbf then 8
       else if b <= 0xc1 then 9 else if b <= 0xdf then 2 else if b == 0xe0 then 10 else if b == 0xed then 4
       else if b <= 0xef then 3 else if b == 0xf0 then 11 else if b <= 0xf3 then 6 else if b == 0xf4 then 5 else 9)
  {
  }

  /** The state after the first octet of a character; the number says what may follow. */
  function Opened(b: bv8): State
  {
    if b <= 0x7f then 0 else if b <= 0xc1 then 8 else if b <= 0xdf then 1
    else if b == 0xe0 then 3 else if b == 0xed then 4
    else if b <= 0xef then 2 else if b == 0xf0 then 5 else if b <= 0xf3 then 6 else if b == 0xf4 then 7 else 8
  }

  /** The state after a further octet. */
  function Continued(state: State, b: bv8): State
  {
    if state == 1 && Tail(b) then 0
    else if state == 2 && Tail(b) then 1
    else if state == 3 && 0xa0 <= b && b <= 0xbf then 1
    else if state == 4 && 0x80 <= b && b <= 0x9f then 1
    else if state == 5 && 0x90 <= b && b <= 0xbf then 2
    else if state == 6 && Tail(b) then 2
    else if state == 7 && 0x80 <= b && b <= 0x8f then 2
    else 8
  }

  lemma StateMeans(state: State, b: bv8)
    ensures NextState(state, Category(b)) == if state == 0 then Opened(b) else Continued(state, b)
  {
    CategoryMeans(b);
    if state == 0 {
      FirstMoves(Category(b));
    } else {
      FurtherMoves(state, Category(b));
    }
    hide Category, NextState;
  }

  lemma FirstMoves(category: bv32)
    requires category <= 11
    ensures NextState(0, category) ==
      (if category == 0 then 0 else if category == 2 then 1 else if category == 3 then 2 else if category == 10 then 3
       else if category == 4 then 4 else if category == 11 then 5 else if category == 6 then 6
       else if category == 5 then 7 else 8)
  {
  }

  lemma FurtherMoves(state: State, category: bv32)
    requires category <= 11 && state != 0
    ensures NextState(state, category) ==
      (if category == 1 then
         if state == 1 then 0 else if state == 2 || state == 4 then 1 else if state == 6 || state == 7 then 2 else 8
       else if category == 7 then
         if state == 1 then 0 else if state == 2 || state == 4 then 1 else if state == 5 || state == 6 then 2 else 8
       else if category == 8 then
         if state == 1 then 0 else if state == 2 || state == 3 then 1 else if state == 5 || state == 6 then 2 else 8
       else 8)
  {
    if category == 1 {
      MovesOfTails(state);
    } else if category == 7 {
      MovesOfTails(state);
    } else if category == 8 {
      MovesOfTails(state);
    } else {
      NoMoves(state, category);
    }
    hide NextState;
  }

  lemma MovesOfTails(state: State)
    requires state != 0
    ensures NextState(state, 1)
         == if state == 1 then 0 else if state == 2 || state == 4 then 1 else if state == 6 || state == 7 then 2 else 8
    ensures NextState(state, 7)
         == if state == 1 then 0 else if state == 2 || state == 4 then 1 else if state == 5 || state == 6 then 2 else 8
    ensures NextState(state, 8)
         == if state == 1 then 0 else if state == 2 || state == 3 then 1 else if state == 5 || state == 6 then 2 else 8
  {
  }

  lemma NoMoves(state: State, category: bv32)
    requires state != 0 && category <= 11 && category != 1 && category != 7 && category != 8
    ensures NextState(state, category) == 8
  {
  }

  /** The bits a first octet contributes. */
  function Leading(b: bv8): bv32
  {
    if b <= 0x7f then b as bv32
    else if b <= 0xdf then Bits(b, 0x1f)
    else if b <= 0xef then Bits(b, 0x0f)
    else Bits(b, 0x07)
  }

  lemma FirstBits(b: bv8)
    ensures Opened(b) != 8 ==> (0xff >> Category(b)) & (b as bv32) == Leading(b)
  {
    CategoryMeans(b);
    hide Category;
  }

  function Start(cp: bv32): Decoder { Decoder(S_STRT, cp) }

  function Shifted(cp: bv32, b: bv8): bv32 { (cp << 6) | Bits(b, 0x3f) }

  /** The decoder's step without its table. */
  lemma StepMeans(d: Decoder, b: bv8)
    ensures ConsumeUtf8Fragment(d, b).state == if d.state == 0 then Opened(b) else Continued(d.state, b)
    ensures d.state != 0 ==> ConsumeUtf8Fragment(d, b).codepoint == Shifted(d.codepoint, b)
    ensures d.state == 0 && Opened(b) != 8 ==> ConsumeUtf8Fragment(d, b).codepoint == Leading(b)
  {
    StateMeans(d.state, b);
    FirstBits(b);
    hide Category, NextState, Opened, Continued;
  }

  // ----- the decoder reads characters

  lemma ConsumeOne(d: Decoder, s: seq<bv8>)
    requires s != []
    ensures Consume(d, s) == Consume(ConsumeUtf8Fragment(d, s[0]), s[1..])
  {
  }

  lemma {:induction false} ConsumeAppend(d: Decoder, s: seq<bv8>, t: seq<bv8>)
    ensures Consume(d, s + t) == Consume(Consume(d, s), t)
    decreases |s|
  {
    if s == [] {
      assert s + t == t;
    } else {
      assert (s + t)[1..] == s[1..] + t;
      hide ConsumeUtf8Fragment;
      ConsumeAppend(ConsumeUtf8Fragment(d, s[0]), s[1..], t);
    }
  }

  lemma {:induction false} RejectedForever(d: Decoder, s: seq<bv8>)
    requires d.state == 8
    ensures Consume(d, s).state == 8
    decreases |s|
  {
    if s != [] {
      StepMeans(d, s[0]);
      hide ConsumeUtf8Fragment;
      RejectedForever(ConsumeUtf8Fragment(d, s[0]), s[1..]);
    }
  }

  lemma Read1(a: bv8, cp: bv32)
    requires a <= 0x7f
    ensures ConsumeUtf8Fragment(Start(cp), a) == Start(a as bv32)
  {
    StepMeans(Start(cp), a);
    hide ConsumeUtf8Fragment;
  }

  lemma Read2(a: bv8, b: bv8, cp: bv32)
    requires Char2(a, b)
    ensures var d := ConsumeUtf8Fragment(Start(cp), a);
      d.state == 1 && ConsumeUtf8Fragment(d, b) == Start(Scalar2(a, b))
  {
    hide ConsumeUtf8Fragment, Bits;
    StepMeans(Start(cp), a);
    StepMeans(ConsumeUtf8Fragment(Start(cp), a), b);
  }

  lemma Shifts3(a: bv8, b: bv8, c: bv8)
    ensures Shifted(Shifted(Bits(a, 0x0f), b), c) == Scalar3(a, b, c)
  {
  }

  lemma Shifts4(a: bv8, b: bv8, c: bv8, d: bv8)
    ensures Shifted(Shifted(Shifted(Bits(a, 0x07), b), c), d) == Scalar4(a, b, c, d)
  {
  }

  lemma Read3(a: bv8, b: bv8, c: bv8, cp: bv32)
    requires Char3(a, b, c)
    ensures var d := ConsumeUtf8Fragment(Start(cp), a);
      && d.state != 0 && d.state != 8
      && var e := ConsumeUtf8Fragment(d, b);
         && e.state == 1
         && ConsumeUtf8Fragment(e, c) == Start(Scalar3(a, b, c))
  {
    hide ConsumeUtf8Fragment, Bits, Shifted, Scalar3;
    var d := ConsumeUtf8Fragment(Start(cp), a);
    StepMeans(Start(cp), a);
    StepMeans(d, b);
    StepMeans(ConsumeUtf8Fragment(d, b), c);
    Shifts3(a, b, c);
  }

  lemma Read4(a: bv8, b: bv8, c: bv8, d: bv8, cp: bv32)
    requires Char4(a, b, c, d)
    ensures var x := ConsumeUtf8Fragment(Start(cp), a);
      && x.state != 0 && x.state != 8
      && var y := ConsumeUtf8Fragment(x, b);
         && y.state == 2
         && var z := ConsumeUtf8Fragment(y, c);
            && z.state == 1
            && ConsumeUtf8Fragment(z, d) == Start(Scalar4(a, b, c, d))
  {
    hide ConsumeUtf8Fragment, Bits, Shifted, Scalar4;
    var x := ConsumeUtf8Fragment(Start(cp), a);
    var y := ConsumeUtf8Fragment(x, b);
    StepMeans(Start(cp), a);
    StepMeans(x, b);
    StepMeans(y, c);
    StepMeans(ConsumeUtf8Fragment(y, c), d);
    Shifts4(a, b, c, d);
  }

  /** A character brings the decoder back to its first state, with the character's number. */
  lemma ReadsChar(s: seq<bv8>, cp: bv32)
    requires IsChar(s)
    ensures Consume(Start(cp), s) == Start(ScalarOf(s))
  {
    hide ConsumeUtf8Fragment, Char2, Char3, Char4, Scalar2, Scalar3, Scalar4, Consume;
    Unrolled(Start(cp), s);
    if |s| == 1 {
      Read1(s[0], cp);
    } else if |s| == 2 {
      Read2(s[0], s[1], cp);
    } else if |s| == 3 {
      Read3(s[0], s[1], s[2], cp);
    } else {
      Read4(s[0], s[1], s[2], s[3], cp);
    }
  }

  function Consume2(d: Decoder, a: bv8, b: bv8): Decoder
  {
    ConsumeUtf8Fragment(ConsumeUtf8Fragment(d, a), b)
  }

  lemma Unrolled(d: Decoder, s: seq<bv8>)
    ensures |s| == 1 ==> Consume(d, s) == ConsumeUtf8Fragment(d, s[0])
    ensures |s| == 2 ==> Consume(d, s) == Consume2(d, s[0], s[1])
    ensures |s| == 3 ==> Consume(d, s) == ConsumeUtf8Fragment(Consume2(d, s[0], s[1]), s[2])
    ensures |s| == 4 ==> Consume(d, s) == Consume2(Consume2(d, s[0], s[1]), s[2], s[3])
  {
    hide ConsumeUtf8Fragment;
    if 1 <= |s| <= 4 {
      var n := |s| - 1;
      assert s == s[..n] + [s[n]];
      ConsumeAppend(d, s[..n], [s[n]]);
      assert Consume(Consume(d, s[..n]), [s[n]]) == ConsumeUtf8Fragment(Consume(d, s[..n]), s[n]);
      Unrolled(d, s[..n]);
    }
  }

  /** The next character of an accepted string. */
  function CharLength(s: seq<bv8>): (n: nat)
    requires s != []
    ensures 1 <= n <= 4
  {
    if s[0] <= 0x7f then 1 else if s[0] <= 0xdf then 2 else if s[0] <= 0xef then 3 else 4
  }

  lemma AcceptedStartsWithChar(s: seq<bv8>, cp: bv32)
    requires s != [] && Consume(Start(cp), s).state == 0
    ensures CharLength(s) <= |s| && IsChar(s[..CharLength(s)])
  {
    hide ConsumeUtf8Fragment, Opened, Continued, Consume, CharLength, IsChar;
    var d1 := AcceptStep(Start(cp), s);
    if d1.state == 0 {
      CharByStates1(s);
    } else {
      var d2 := AcceptStep(d1, s[1..]);
      if d2.state == 0 {
        CharByStates2(s);
      } else {
        var d3 := AcceptStep(d2, s[1..][1..]);
        if d3.state == 0 {
          CharByStates3(s);
        } else {
          var d4 := AcceptStep(d3, s[1..][1..][1..]);
          CharByStates4(s);
        }
      }
    }
  }

  lemma AcceptStep(d: Decoder, s: seq<bv8>) returns (e: Decoder)
    requires Consume(d, s).state == 0 && (s != [] || d.state != 0)
    ensures s != [] && e.state != 8 && e.state == (if d.state == 0 then Opened(s[0]) else Continued(d.state, s[0]))
    ensures Consume(e, s[1..]).state == 0
  {
    hide ConsumeUtf8Fragment, Opened, Continued;
    NotRejected(d, s);
    StepMeans(d, s[0]);
    e := ConsumeUtf8Fragment(d, s[0]);
    NotRejected(e, s[1..]);
  }

  lemma CharByStates1(s: seq<bv8>)
    requires s != [] && Opened(s[0]) == 0
    ensures CharLength(s) == 1 && IsChar(s[..1])
  {
  }

  lemma CharByStates2(s: seq<bv8>)
    requires |s| >= 2 && Opened(s[0]) != 0 && Opened(s[0]) != 8 && Continued(Opened(s[0]), s[1]) == 0
    ensures CharLength(s) == 2 && IsChar(s[..2])
  {
  }

  lemma CharByStates3(s: seq<bv8>)
    requires |s| >= 3 && Opened(s[0]) != 0 && Opened(s[0]) != 8
    requires var e := Continued(Opened(s[0]), s[1]); e != 0 && e != 8 && Continued(e, s[2]) == 0
    ensures CharLength(s) == 3 && IsChar(s[..3])
  {
  }

  lemma CharByStates4(s: seq<bv8>)
    requires |s| >= 4 && Opened(s[0]) != 0 && Opened(s[0]) != 8
    requires var e := Continued(Opened(s[0]), s[1]);
      var f := Continued(e, s[2]);
      e != 0 && e != 8 && f != 0 && f != 8 && Continued(f, s[3]) != 8
    ensures CharLength(s) == 4 && IsChar(s[..4])
  {
  }

  lemma NotRejected(d: Decoder, s: seq<bv8>)
    requires Consume(d, s).state == 0
    ensures d.state != 8 && (s == [] ==> d.state == 0)
  {
    if d.state == 8 {
      RejectedForever(d, s);
    }
  }

  /** The decoder accepts exactly what the standard's grammar generates. */
  lemma {:induction false} AcceptsExactly(s: seq<bv8>, cp: bv32)
    ensures Consume(Start(cp), s).state == 0 <==> WellFormed(s)
    decreases |s|
  {
    if s != [] {
      hide ConsumeUtf8Fragment, IsChar, CharLength;
      if Consume(Start(cp), s).state == 0 {
        AcceptedStartsWithChar(s, cp);
        AcceptsRest(s, CharLength(s), cp);
        assert WellFormed(s[CharLength(s)..]);
      } else if WellFormed(s) {
        var n :| 1 <= n <= 4 && n <= |s| && IsChar(s[..n]) && WellFormed(s[n..]);
        AcceptsRest(s, n, cp);
      }
    }
  }

  lemma AcceptsRest(s: seq<bv8>, n: nat, cp: bv32)
    requires 1 <= n <= |s| && IsChar(s[..n])
    ensures Consume(Start(cp), s).state == 0 <==> WellFormed(s[n..])
    ensures Consume(Start(cp), s) == Consume(Start(ScalarOf(s[..n])), s[n..])
    decreases |s|, 0
  {
    hide ConsumeUtf8Fragment, IsChar, ScalarOf;
    assert s == s[..n] + s[n..];
    ConsumeAppend(Start(cp), s[..n], s[n..]);
    ReadsChar(s[..n], cp);
    AcceptsExactly(s[n..], ScalarOf(s[..n]));
  }

  method ValidUtf8(utf8String: seq<bv8>) returns (valid: bool)
    ensures valid <==> WellFormed(utf8String)
  {
    hide ConsumeUtf8Fragment, WellFormed;
    AcceptsExactly(utf8String, 0);
    var iter := 0;
    var d := Decoder(S_STRT, 0);
    while iter < |utf8String|
      invariant 0 <= iter <= |utf8String|
      invariant Consume(Start(0), utf8String) == Consume(d, utf8String[iter..])
    {
      ConsumeOne(d, utf8String[iter..]);
      d := ConsumeUtf8Fragment(d, utf8String[iter]);
      iter := iter + 1;
      assert utf8String[iter - 1..][1..] == utf8String[iter..];
      if d.state == S_RJCT {
        RejectedForever(d, utf8String[iter..]);
        return false;
      }
    }
    valid := d.state == 0;
  }

  // ----- the encoders

  const REPLACEMENT: bv32 := 0xfffd

  /** The bytes `AppendUTF8` appends. */
  function Encode(unicode: bv32): seq<bv8>
  {
    if unicode <= 0x7f then [Low(unicode)]
    else if unicode <= 0x7ff then [First2(unicode), LastBits(unicode)]
    else if unicode <= 0xd7ff || (0xe000 <= unicode && unicode <= 0xffff) then
      [First3(unicode), MiddleBits(unicode), LastBits(unicode)]
    else if 0x10000 <= unicode && unicode <= 0x10ffff then
      [First4(unicode), Second4(unicode), MiddleBits(unicode), LastBits(unicode)]
    else [0xef, 0xbf, 0xbd]
  }

  function First2(unicode: bv32): bv8 { Low((unicode >> 6) + 192) }

  function First3(unicode: bv32): bv8 { Low((unicode >> 12) + 224) }

  function First4(unicode: bv32): bv8 { Low((unicode >> 18) + 240) }

  function Second4(unicode: bv32): bv8 { Low(((unicode & 0x3ffff) >> 12) + 128) }

  function LastBits(unicode: bv32): bv8 { Low((unicode & 0x3f) + 128) }

  function MiddleBits(unicode: bv32): bv8 { Low(((unicode & 0xfff) >> 6) + 128) }

  /** A word cast to a byte. */
  function Low(w: bv32): bv8 { (w & 0xff) as bv8 }

  method AppendUTF8(str: seq<bv8>, unicode: bv32) returns (after: seq<bv8>)
    ensures after == str + Encode(unicode)
    decreases !IsScalar(unicode)
  {
    after := str;
    if unicode <= 0x7f {
      after := after + [Low(unicode)];
    } else if unicode >= 0x80 && unicode <= 0x7ff {
      after := after + [Low((unicode >> 6) + 192)];
      after := after + [Low((unicode & 0x3f) + 128)];
    } else if (unicode >= 0x800 && unicode <= 0xd7ff) || (unicode >= 0xe000 && unicode <= 0xffff) {
      after := after + [Low((unicode >> 12) + 224)];
      after := after + [Low(((unicode & 0xfff) >> 6) + 128)];
      after := after + [Low((unicode & 0x3f) + 128)];
    } else if unicode >= 0x10000 && unicode <= 0x10ffff {
      after := after + [Low((unicode >> 18) + 240)];
      after := after + [Low(((unicode & 0x3ffff) >> 12) + 128)];
      after := after + [Low(((unicode & 0xfff) >> 6) + 128)];
      after := after + [Low((unicode & 0x3f) + 128)];
    } else {
      after := AppendUTF8(after, REPLACEMENT);
    }
  }

  /** What is encoded for a number: itself, if it is a character's. */
  function Clean(unicode: bv32): Scalar
  {
    if IsScalar(unicode) then unicode else REPLACEMENT
  }

  lemma Encode2(w: bv32)
    requires 0x80 <= w && w <= 0x7ff
    ensures var a, b := First2(w), LastBits(w); Char2(a, b) && Scalar2(a, b) == w
  {
  }

  lemma Encode3(w: bv32)
    requires 0x800 <= w && w <= 0xffff && IsScalar(w)
    ensures var a, b, c := First3(w), MiddleBits(w), LastBits(w); Char3(a, b, c) && Scalar3(a, b, c) == w
  {
    Encode3Bits(w);
    Encode3Char(w);
    hide First3, MiddleBits, LastBits, Bits, Char3;
    Regrouped3(w);
  }

  lemma Encode3Bits(w: bv32)
    requires w <= 0xffff
    ensures Bits(First3(w), 0x0f) == w >> 12
    ensures Bits(MiddleBits(w), 0x3f) == (w & 0xfff) >> 6
    ensures Bits(LastBits(w), 0x3f) == w & 0x3f
  {
  }

  lemma Encode3Char(w: bv32)
    requires 0x800 <= w && w <= 0xffff && IsScalar(w)
    ensures Char3(First3(w), MiddleBits(w), LastBits(w))
  {
  }

  lemma Regrouped3(w: bv32)
    requires w <= 0xffff
    ensures ((w >> 12) << 12) | (((w & 0xfff) >> 6) << 6) | (w & 0x3f) == w
  {
  }

  lemma Encode4(w: bv32)
    requires 0x10000 <= w && w <= 0x10ffff
    ensures var a, b, c, d := First4(w), Second4(w), MiddleBits(w), LastBits(w);
      Char4(a, b, c, d) && Scalar4(a, b, c, d) == w
  {
    Encode4Bits(w);
    Encode4Char(w);
    Regrouped(w);
    hide First4, Second4, MiddleBits, LastBits, Bits, Char4;
  }

  lemma Encode4Bits(w: bv32)
    requires w <= 0x10ffff
    ensures Bits(First4(w), 0x07) == w >> 18
    ensures Bits(Second4(w), 0x3f) == (w & 0x3ffff) >> 12
    ensures Bits(MiddleBits(w), 0x3f) == (w & 0xfff) >> 6
    ensures Bits(LastBits(w), 0x3f) == w & 0x3f
  {
  }

  lemma Encode4Char(w: bv32)
    requires 0x10000 <= w && w <= 0x10ffff
    ensures Char4(First4(w), Second4(w), MiddleBits(w), LastBits(w))
  {
  }

  lemma Regrouped(w: bv32)
    requires w <= 0x10ffff
    ensures ((w >> 18) << 18) | (((w & 0x3ffff) >> 12) << 12) | (((w & 0xfff) >> 6) << 6) | (w & 0x3f) == w
  {
  }

  lemma EncodeReplacement()
    ensures IsChar([0xef, 0xbf, 0xbd]) && ScalarOf([0xef, 0xbf, 0xbd]) == REPLACEMENT
  {
  }

  /** Encoding gives the one character of the standard that stands for the number. */
  lemma EncodeGivesChar(unicode: bv32)
    ensures IsChar(Encode(unicode)) && ScalarOf(Encode(unicode)) == Clean(unicode)
  {
    if unicode <= 0x7f {
    } else if unicode <= 0x7ff {
      Encode2(unicode);
      hide Char2, Scalar2, Low;
    } else if unicode <= 0xffff && IsScalar(unicode) {
      Encode3(unicode);
      hide Char3, Scalar3, Low;
    } else if 0x10000 <= unicode && unicode <= 0x10ffff {
      Encode4(unicode);
      hide Char4, Scalar4, Low;
    } else {
      EncodeReplacement();
      hide IsChar, ScalarOf;
    }
  }

  lemma Decode1(a: bv8)
    requires a <= 0x7f
    ensures var w := a as bv32; w <= 0x7f && Low(w) == a
  {
  }

  lemma Decode2(a: bv8, b: bv8)
    requires Char2(a, b)
    ensures var w := Scalar2(a, b); 0x80 <= w && w <= 0x7ff && First2(w) == a && LastBits(w) == b
  {
  }

  lemma Decode3(a: bv8, b: bv8, c: bv8)
    requires Char3(a, b, c)
    ensures var w := Scalar3(a, b, c);
      && 0x800 <= w && w <= 0xffff && IsScalar(w)
      && First3(w) == a && MiddleBits(w) == b && LastBits(w) == c
  {
  }

  lemma Decode4(a: bv8, b: bv8, c: bv8, d: bv8)
    requires Char4(a, b, c, d)
    ensures var w := Scalar4(a, b, c, d);
      && 0x10000 <= w && w <= 0x10ffff
      && First4(w) == a && Second4(w) == b && MiddleBits(w) == c && LastBits(w) == d
  {
  }

  /** Every character of the standard is what its number is encoded as: no number has two encodings. */
  lemma CharIsEncoded(s: seq<bv8>)
    requires IsChar(s)
    ensures IsScalar(ScalarOf(s)) && Encode(ScalarOf(s)) == s
  {
    hide Char2, Char3, Char4, Scalar2, Scalar3, Scalar4, First2, First3, First4, Second4, LastBits, MiddleBits, Low;
    if |s| == 1 {
      Decode1(s[0]);
    } else if |s| == 2 {
      Decode2(s[0], s[1]);
    } else if |s| == 3 {
      Decode3(s[0], s[1], s[2]);
    } else {
      Decode4(s[0], s[1], s[2], s[3]);
    }
  }
}
