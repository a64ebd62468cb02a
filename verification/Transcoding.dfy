/**
 * Conversions between UTF-8, UTF-16 and UTF-32, and what they do to ill-formed input: each mistake is replaced by the
 * character U+FFFD.
 */
module Transcoding {
  import opened Utf8

  // ----- UTF-8 to numbers

  /** The numbers the decoder comes to, in the middle of a character or not. */
  function Decoded(d: Decoder, s: seq<bv8>): seq<bv32>
    decreases |s|
  {
    if s == [] then if d.state != S_STRT then [REPLACEMENT] else []
    else
      var d' := ConsumeUtf8Fragment(d, s[0]);
      if d'.state == S_STRT then [d'.codepoint] + Decoded(Start(0), s[1..])
      else if d'.state == S_RJCT then [REPLACEMENT] + Decoded(Start(0), s[1..])
      else Decoded(d', s[1..])
  }

  function FromUtf8(s: seq<bv8>): seq<bv32> { Decoded(Start(0), s) }

  function ToUtf8(cs: seq<bv32>): seq<bv8>
  {
    if cs == [] then [] else Encode(cs[0]) + ToUtf8(cs[1..])
  }

  function Cleaned(cs: seq<bv32>): seq<bv32>
  {
    seq(|cs|, i requires 0 <= i < |cs| => Clean(cs[i]))
  }

  predicate AllScalars(cs: seq<bv32>)
  {
    forall i :: 0 <= i < |cs| ==> IsScalar(cs[i])
  }

  // ----- one character

  /** A decoder in the middle of a character goes on. */
  lemma Goes(d: Decoder, s: seq<bv8>)
    requires s != [] && ConsumeUtf8Fragment(d, s[0]).state != 0 && ConsumeUtf8Fragment(d, s[0]).state != 8
    ensures Decoded(d, s) == Decoded(ConsumeUtf8Fragment(d, s[0]), s[1..])
  {
  }

  lemma Ends(d: Decoder, s: seq<bv8>)
    requires s != [] && ConsumeUtf8Fragment(d, s[0]).state == 0
    ensures Decoded(d, s) == [ConsumeUtf8Fragment(d, s[0]).codepoint] + FromUtf8(s[1..])
  {
  }

  lemma ReadsOneChar(s: seq<bv8>, n: nat)
    requires n <= |s| && IsChar(s[..n])
    ensures FromUtf8(s) == [ScalarOf(s[..n])] + FromUtf8(s[n..])
  {
    hide ConsumeUtf8Fragment, Decoded, FromUtf8, Char2, Char3, Char4, Scalar2, Scalar3, Scalar4;
    FromUtf8Is(s);
    var d := ConsumeUtf8Fragment(Start(0), s[0]);
    if n == 1 {
      Read1(s[0], 0);
      Ends(Start(0), s);
    } else if n == 2 {
      Read2(s[0], s[1], 0);
      Goes(Start(0), s);
      Ends(d, s[1..]);
      assert s[1..][1..] == s[2..];
    } else if n == 3 {
      Read3(s[0], s[1], s[2], 0);
      Goes(Start(0), s);
      Goes(d, s[1..]);
      Ends(ConsumeUtf8Fragment(d, s[1]), s[1..][1..]);
      assert s[1..][1..][1..] == s[3..];
    } else {
      Read4(s[0], s[1], s[2], s[3], 0);
      var e := ConsumeUtf8Fragment(d, s[1]);
      Goes(Start(0), s);
      Goes(d, s[1..]);
      Goes(e, s[1..][1..]);
      Ends(ConsumeUtf8Fragment(e, s[2]), s[1..][1..][1..]);
      assert s[1..][1..][1..][1..] == s[4..];
    }
  }

  lemma FromUtf8Is(s: seq<bv8>)
    ensures FromUtf8(s) == Decoded(Start(0), s)
  {
  }

  // ----- there and back

  /** Decoding inverts encoding, numbers that are no character's aside. */
  lemma {:induction false} DecodesEncoded(cs: seq<bv32>)
    ensures FromUtf8(ToUtf8(cs)) == Cleaned(cs)
  {
    if cs == [] {
      assert FromUtf8([]) == [];
    } else {
      hide FromUtf8, IsChar, Encode, Clean, ScalarOf, Cleaned;
      var first, rest := Encode(cs[0]), ToUtf8(cs[1..]);
      EncodeGivesChar(cs[0]);
      assert (first + rest)[..|first|] == first && (first + rest)[|first|..] == rest;
      ReadsOneChar(first + rest, |first|);
      DecodesEncoded(cs[1..]);
      CleanedCons(cs);
    }
  }

  lemma CleanedCons(cs: seq<bv32>)
    requires cs != []
    ensures Cleaned(cs) == [Clean(cs[0])] + Cleaned(cs[1..])
  {
    hide Clean;
  }

  /** Whatever is encoded, the result is well-formed. */
  lemma {:induction false} EncodedIsWellFormed(cs: seq<bv32>)
    ensures WellFormed(ToUtf8(cs))
  {
    if cs != [] {
      hide IsChar, Encode, Clean, ScalarOf;
      var first, rest := Encode(cs[0]), ToUtf8(cs[1..]);
      EncodeGivesChar(cs[0]);
      EncodedIsWellFormed(cs[1..]);
      CharLengths(first);
      StartsWellFormed(first, rest);
    }
  }

  lemma CharLengths(s: seq<bv8>)
    requires IsChar(s)
    ensures 1 <= |s| <= 4
  {
  }

  lemma StartsWellFormed(first: seq<bv8>, rest: seq<bv8>)
    requires 1 <= |first| <= 4 && IsChar(first) && WellFormed(rest)
    ensures WellFormed(first + rest)
  {
    hide IsChar;
    var n := |first|;
    assert (first + rest)[..n] == first && (first + rest)[n..] == rest;
  }

  /** Encoding inverts decoding of well-formed text, and of nothing else. */
  lemma {:induction false} EncodesDecodedIff(s: seq<bv8>)
    ensures ToUtf8(FromUtf8(s)) == s <==> WellFormed(s)
    decreases |s|
  {
    if ToUtf8(FromUtf8(s)) == s {
      EncodedIsWellFormed(FromUtf8(s));
    } else if WellFormed(s) {
      WellFormedReencodes(s);
    }
  }

  lemma {:induction false} WellFormedReencodes(s: seq<bv8>)
    requires WellFormed(s)
    ensures ToUtf8(FromUtf8(s)) == s
    decreases |s|
  {
    if s == [] {
      assert FromUtf8([]) == [];
    } else {
      hide FromUtf8, IsChar, Encode, ScalarOf;
      var n :| 1 <= n <= 4 && n <= |s| && IsChar(s[..n]) && WellFormed(s[n..]);
      WellFormedReencodes(s[n..]);
      ReencodesChar(s, n);
    }
  }

  lemma ReencodesChar(s: seq<bv8>, n: nat)
    requires n <= |s| && IsChar(s[..n]) && ToUtf8(FromUtf8(s[n..])) == s[n..]
    ensures ToUtf8(FromUtf8(s)) == s
  {
    hide FromUtf8, IsChar, Encode, ScalarOf, WellFormed;
    ReadsOneChar(s, n);
    CharIsEncoded(s[..n]);
    var c, cs := ScalarOf(s[..n]), FromUtf8(s[n..]);
    assert ([c] + cs)[0] == c && ([c] + cs)[1..] == cs;
    assert s == s[..n] + s[n..];
  }

  /** The octets read since the decoder was last in its first state, when it is not there nor has it given up. */
  ghost predicate Pending(p: seq<bv8>)
  {
    forall k :: 1 <= k <= |p| ==> Consume(Start(0), p[..k]).state != 0 && Consume(Start(0), p[..k]).state != 8
  }

  lemma PendingEnds(p: seq<bv8>, b: bv8)
    requires Pending(p) && Consume(Start(0), p + [b]).state == 0
    ensures IsScalar(Consume(Start(0), p + [b]).codepoint)
  {
    hide Consume, IsChar, ScalarOf, Encode;
    var s := p + [b];
    AcceptedStartsWithChar(s, 0);
    var n := CharLength(s);
    assert n <= |p| ==> s[..n] == p[..n];
    assert n > |p| ==> s[..n] == s;
    ReadsChar(s[..n], 0);
    if n <= |p| {
      assert false;
    }
    CharIsEncoded(s);
  }

  lemma PendingGrows(p: seq<bv8>, b: bv8)
    requires Pending(p)
    ensures Consume(Start(0), p + [b]) == ConsumeUtf8Fragment(Consume(Start(0), p), b)
    ensures var state := Consume(Start(0), p + [b]).state; state != 0 && state != 8 ==> Pending(p + [b])
  {
    ConsumeAppend(Start(0), p, [b]);
    var s := p + [b];
    assert Consume(Start(0), s) == ConsumeUtf8Fragment(Consume(Start(0), p), b) by {
      hide ConsumeUtf8Fragment;
    }
    hide Consume, ConsumeUtf8Fragment;
    assert s[..|s|] == s;
    assert forall k :: 1 <= k <= |p| ==> s[..k] == p[..k];
  }

  lemma {:induction false} DecodedScalarsFrom(p: seq<bv8>, s: seq<bv8>)
    requires Pending(p)
    ensures AllScalars(Decoded(Consume(Start(0), p), s))
    decreases |s|, 0
  {
    hide Consume, ConsumeUtf8Fragment, Pending;
    if s != [] {
      PendingGrows(p, s[0]);
      var d := Consume(Start(0), p + [s[0]]);
      if d.state == 0 || d.state == 8 {
        StartScalars(s[1..]);
      } else {
        DecodedScalarsFrom(p + [s[0]], s[1..]);
      }
      if d.state == 0 {
        PendingEnds(p, s[0]);
      }
    }
  }

  lemma StartScalars(s: seq<bv8>)
    ensures AllScalars(FromUtf8(s))
    decreases |s|, 1
  {
    assert Consume(Start(0), []) == Start(0);
    assert Pending([]);
    DecodedScalarsFrom([], s);
  }

  // ----- UTF-16

  predicate InRange(c: bv32, lo: bv32, hi: bv32) { c - lo < hi - lo + 1 }

  function Wide(u: bv16): bv32 { u as bv32 }

  predicate IsSurrogate(c: bv32) { InRange(c, 0xd800, 0xdfff) }

  predicate IsHighSurrogate(c: bv32) { c & 0xfffffc00 == 0xd800 }

  predicate IsLowSurrogate(c: bv32) { c & 0xfffffc00 == 0xdc00 }

  /** Units outside the surrogate range, and pairs of a high and a low surrogate. */
  predicate WellFormed16(w: seq<bv16>)
  {
    || w == []
    || (!InSurrogates(w[0]) && WellFormed16(w[1..]))
    || (|w| >= 2 && InPair(w[0], w[1]) && WellFormed16(w[2..]))
  }

  predicate InSurrogates(u: bv16) { 0xd800 <= u && u <= 0xdfff }

  predicate InPair(a: bv16, b: bv16) { 0xd800 <= a && a <= 0xdbff && 0xdc00 <= b && b <= 0xdfff }

  /** A word cast to a UTF-16 unit. */
  function Unit(w: bv32): bv16 { (w & 0xffff) as bv16 }

  function Units(codepoint: bv32): seq<bv16>
  {
    if codepoint <= 0xffff then [Unit(codepoint)] else [HighUnit(codepoint), LowUnit(codepoint)]
  }

  function HighUnit(codepoint: bv32): bv16 { Unit(((codepoint - 0x10000) >> 10) + 0xd800) }

  function LowUnit(codepoint: bv32): bv16 { Unit(((codepoint - 0x10000) & 0x3ff) + 0xdc00) }

  function ToUtf16(cs: seq<bv32>): seq<bv16>
  {
    if cs == [] then [] else Units(cs[0]) + ToUtf16(cs[1..])
  }

  function Combined(high: bv16, low: bv16): bv32
  {
    ((Wide(high)) << 10) + (Wide(low)) - 0x35fdc00
  }

  predicate IsPair(a: bv16, b: bv16)
  {
    IsHighSurrogate(Wide(a)) && IsLowSurrogate(Wide(b))
  }

  /** A surrogate out of place becomes a replacement, and the unit after it is dropped. */
  function FromUtf16(w: seq<bv16>): seq<bv32>
  {
    if w == [] then []
    else if !IsSurrogate(Wide(w[0])) then [Wide(w[0])] + FromUtf16(w[1..])
    else if |w| == 1 then [REPLACEMENT]
    else if IsPair(w[0], w[1]) then [Combined(w[0], w[1])] + FromUtf16(w[2..])
    else [REPLACEMENT] + FromUtf16(w[2..])
  }

  lemma SurrogateRange(u: bv16)
    ensures IsSurrogate(Wide(u)) <==> InSurrogates(u)
  {
  }

  lemma PairRanges(a: bv16, b: bv16)
    ensures IsPair(a, b) <==> InPair(a, b)
  {
  }

  lemma PairIsSurrogate(a: bv16, b: bv16)
    ensures InPair(a, b) ==> IsSurrogate(Wide(a)) && InSurrogates(a)
  {
  }

  lemma HighUnitOf(c: bv32)
    requires 0x10000 <= c && c <= 0x10ffff
    ensures Wide(HighUnit(c)) == ((c - 0x10000) >> 10) + 0xd800
    ensures 0xd800 <= HighUnit(c) && HighUnit(c) <= 0xdbff
  {
  }

  lemma LowUnitOf(c: bv32)
    requires 0x10000 <= c && c <= 0x10ffff
    ensures Wide(LowUnit(c)) == ((c - 0x10000) & 0x3ff) + 0xdc00
    ensures 0xdc00 <= LowUnit(c) && LowUnit(c) <= 0xdfff
  {
  }

  lemma Reunited(d: bv32)
    requires d <= 0xfffff
    ensures (((d >> 10) + 0xd800) << 10) + ((d & 0x3ff) + 0xdc00) - 0x35fdc00 == d + 0x10000
  {
  }

  lemma UnitsCombined(c: bv32)
    requires 0x10000 <= c && c <= 0x10ffff
    ensures Combined(HighUnit(c), LowUnit(c)) == c
  {
    HighUnitOf(c);
    LowUnitOf(c);
    Reunited(c - 0x10000);
    hide HighUnit, LowUnit;
  }

  lemma PairOfUnits(c: bv32)
    requires 0x10000 <= c && c <= 0x10ffff
    ensures var u := Units(c); |u| == 2 && IsPair(u[0], u[1]) && IsSurrogate(Wide(u[0])) && Combined(u[0], u[1]) == c
  {
    HighUnitOf(c);
    LowUnitOf(c);
    UnitsCombined(c);
    PairRanges(HighUnit(c), LowUnit(c));
    PairIsSurrogate(HighUnit(c), LowUnit(c));
    hide HighUnit, LowUnit, Combined, IsPair, IsSurrogate;
  }

  lemma UnitBits(c: bv32)
    requires c <= 0xffff
    ensures Wide(Unit(c)) == c
  {
  }

  lemma UnitOfNumber(c: bv32)
    requires c <= 0xffff && IsScalar(c)
    ensures Units(c) == [Unit(c)] && !IsSurrogate(Wide(Unit(c))) && Wide(Unit(c)) == c
  {
    UnitBits(c);
    NotSurrogate(c);
    hide Unit, IsSurrogate;
  }

  lemma NotSurrogate(c: bv32)
    requires c <= 0x10ffff
    ensures IsSurrogate(c) <==> !IsScalar(c)
  {
  }

  lemma CombinedUnits(a: bv16, b: bv16)
    requires 0xd800 <= a && a <= 0xdbff && 0xdc00 <= b && b <= 0xdfff
    ensures 0x10000 <= Combined(a, b) && Combined(a, b) <= 0x10ffff
    ensures HighUnit(Combined(a, b)) == a && LowUnit(Combined(a, b)) == b
  {
  }

  lemma PairCombined(a: bv16, b: bv16)
    requires IsPair(a, b)
    ensures 0x10000 <= Combined(a, b) && Combined(a, b) <= 0x10ffff && Units(Combined(a, b)) == [a, b]
  {
    PairRanges(a, b);
    CombinedUnits(a, b);
    hide IsPair, Combined, HighUnit, LowUnit;
  }

  lemma NumberOfUnit(u: bv16)
    requires !IsSurrogate(Wide(u))
    ensures IsScalar(Wide(u)) && Units(Wide(u)) == [u]
  {
    NotSurrogate(Wide(u));
    UnitBack(u);
    hide IsSurrogate, Unit;
  }

  lemma UnitBack(u: bv16)
    ensures Wide(u) <= 0xffff && Unit(Wide(u)) == u
  {
  }

  lemma FromUnit(w: seq<bv16>)
    requires w != [] && !IsSurrogate(Wide(w[0]))
    ensures FromUtf16(w) == [Wide(w[0])] + FromUtf16(w[1..])
  {
    hide IsSurrogate, IsPair, Combined;
  }

  lemma FromPair(w: seq<bv16>)
    requires |w| >= 2 && IsSurrogate(Wide(w[0])) && IsPair(w[0], w[1])
    ensures FromUtf16(w) == [Combined(w[0], w[1])] + FromUtf16(w[2..])
  {
    hide IsSurrogate, IsPair, Combined;
  }

  lemma FromUnits(c: bv32, rest: seq<bv16>)
    requires IsScalar(c)
    ensures FromUtf16(Units(c) + rest) == [c] + FromUtf16(rest)
  {
    hide IsSurrogate, IsPair, Combined, Units, Unit, IsScalar, FromUtf16;
    var w := Units(c) + rest;
    if c <= 0xffff {
      UnitOfNumber(c);
      FromUnit(w);
      assert w[1..] == rest;
    } else {
      ScalarBound(c);
      PairOfUnits(c);
      FromPair(w);
      assert w[2..] == rest;
    }
  }

  lemma {:induction false} Decodes16(cs: seq<bv32>)
    requires AllScalars(cs)
    ensures FromUtf16(ToUtf16(cs)) == cs
  {
    if cs == [] {
      assert FromUtf16([]) == [];
    } else {
      hide FromUtf16, Units, IsScalar;
      FromUnits(cs[0], ToUtf16(cs[1..]));
      Decodes16(cs[1..]);
    }
  }

  lemma ScalarBound(c: bv32)
    requires IsScalar(c)
    ensures c <= 0x10ffff
  {
  }

  lemma {:induction false} From16Scalars(w: seq<bv16>)
    ensures AllScalars(FromUtf16(w))
  {
    hide IsSurrogate, IsPair, Combined, IsScalar;
    if w != [] {
      ReplacementIsScalar();
      if !IsSurrogate(Wide(w[0])) {
        NumberOfUnit(w[0]);
        From16Scalars(w[1..]);
      } else if |w| > 1 {
        From16Scalars(w[2..]);
        if IsPair(w[0], w[1]) {
          PairCombined(w[0], w[1]);
          Supplementary(Combined(w[0], w[1]));
        }
      }
    }
  }

  lemma ReplacementIsScalar()
    ensures IsScalar(REPLACEMENT)
  {
  }

  lemma Supplementary(c: bv32)
    requires 0x10000 <= c && c <= 0x10ffff
    ensures IsScalar(c)
  {
  }

  lemma {:induction false} Encoded16IsWellFormed(cs: seq<bv32>)
    requires AllScalars(cs)
    ensures WellFormed16(ToUtf16(cs))
  {
    if cs != [] {
      hide IsSurrogate, IsPair, Combined, Units, Unit, IsScalar;
      var c, rest := cs[0], ToUtf16(cs[1..]);
      Encoded16IsWellFormed(cs[1..]);
      var w := Units(c) + rest;
      if c <= 0xffff {
        UnitOfNumber(c);
        SurrogateRange(w[0]);
        assert w[1..] == rest;
      } else {
        ScalarBound(c);
        PairOfUnits(c);
        PairRanges(w[0], w[1]);
        assert w[2..] == rest;
      }
    }
  }

  lemma {:induction false} WellFormed16Reencodes(w: seq<bv16>)
    requires WellFormed16(w)
    ensures ToUtf16(FromUtf16(w)) == w
  {
    if w == [] {
      assert FromUtf16(w) == [] && ToUtf16([]) == [];
    } else {
      hide InSurrogates, InPair, ToUtf16, FromUtf16;
      if !InSurrogates(w[0]) && WellFormed16(w[1..]) {
        WellFormed16Reencodes(w[1..]);
        UnitReencodes(w);
      } else {
        WellFormed16Reencodes(w[2..]);
        PairReencodes(w);
      }
    }
  }

  lemma UnitReencodes(w: seq<bv16>)
    requires w != [] && !InSurrogates(w[0]) && ToUtf16(FromUtf16(w[1..])) == w[1..]
    ensures ToUtf16(FromUtf16(w)) == w
  {
    hide IsSurrogate, InSurrogates, Units, ToUtf16, FromUtf16, IsScalar, Wide;
    SurrogateRange(w[0]);
    NumberOfUnit(w[0]);
    FromUnit(w);
    assert w[..1] == [w[0]];
    Reencoded16(w, Wide(w[0]), 1);
  }

  lemma PairReencodes(w: seq<bv16>)
    requires |w| >= 2 && InPair(w[0], w[1]) && ToUtf16(FromUtf16(w[2..])) == w[2..]
    ensures ToUtf16(FromUtf16(w)) == w
  {
    hide IsSurrogate, IsPair, Combined, Units, ToUtf16, FromUtf16;
    PairRanges(w[0], w[1]);
    PairIsSurrogate(w[0], w[1]);
    PairCombined(w[0], w[1]);
    FromPair(w);
    assert w[..2] == [w[0], w[1]];
    Reencoded16(w, Combined(w[0], w[1]), 2);
  }

  lemma Reencoded16(w: seq<bv16>, c: bv32, n: nat)
    requires n <= |w| && Units(c) == w[..n] && ToUtf16(FromUtf16(w[n..])) == w[n..]
    ensures ToUtf16([c] + FromUtf16(w[n..])) == w
  {
    hide Units, FromUtf16;
    var cs := FromUtf16(w[n..]);
    assert ([c] + cs)[1..] == cs;
    assert w[..n] + w[n..] == w;
  }

  /** Encoding inverts decoding of well-formed UTF-16, and of nothing else. */
  lemma Encodes16DecodedIff(w: seq<bv16>)
    ensures ToUtf16(FromUtf16(w)) == w <==> WellFormed16(w)
  {
    if WellFormed16(w) {
      WellFormed16Reencodes(w);
    } else if ToUtf16(FromUtf16(w)) == w {
      From16Scalars(w);
      Encoded16IsWellFormed(FromUtf16(w));
    }
  }

  // ----- between the encodings

  lemma CleanedScalars(cs: seq<bv32>)
    ensures Cleaned(cs) == cs <==> AllScalars(cs)
  {
    if AllScalars(cs) {
      assert forall i :: 0 <= i < |cs| ==> Cleaned(cs)[i] == cs[i];
    } else {
      var i :| 0 <= i < |cs| && !IsScalar(cs[i]);
      ReplacementIsScalar();
      assert Cleaned(cs)[i] != cs[i];
    }
  }

  /** UTF-8 goes to UTF-16 and back unharmed exactly if it is well-formed; what comes of it is always well-formed. */
  lemma Utf8RoundTripIff(s: seq<bv8>)
    ensures ToUtf8(FromUtf16(ToUtf16(FromUtf8(s)))) == s <==> WellFormed(s)
    ensures WellFormed16(ToUtf16(FromUtf8(s)))
  {
    hide *;
    StartScalars(s);
    Decodes16(FromUtf8(s));
    EncodesDecodedIff(s);
    Encoded16IsWellFormed(FromUtf8(s));
  }

  /** And UTF-16 to UTF-8 and back. */
  lemma Utf16RoundTripIff(w: seq<bv16>)
    ensures ToUtf16(FromUtf8(ToUtf8(FromUtf16(w)))) == w <==> WellFormed16(w)
    ensures WellFormed(ToUtf8(FromUtf16(w)))
  {
    hide *;
    From16Scalars(w);
    CleanedScalars(FromUtf16(w));
    DecodesEncoded(FromUtf16(w));
    Encodes16DecodedIff(w);
    EncodedIsWellFormed(FromUtf16(w));
  }

  /** UTF-32 comes back from UTF-8 unharmed exactly if it holds character numbers only. */
  lemma Utf32RoundTripIff(cs: seq<bv32>)
    ensures FromUtf8(ToUtf8(cs)) == cs <==> AllScalars(cs)
    ensures AllScalars(FromUtf8(ToUtf8(cs)))
  {
    hide *;
    DecodesEncoded(cs);
    CleanedScalars(cs);
    StartScalars(ToUtf8(cs));
  }

  // ----- the loops

  method FromUtf8To32(utf8String: seq<bv8>) returns (result: seq<bv32>)
    ensures result == FromUtf8(utf8String)
  {
    hide ConsumeUtf8Fragment, Decoded;
    result := [];
    var iter := 0;
    var d := Start(0);
    assert utf8String[iter..] == utf8String;
    while iter < |utf8String|
      invariant 0 <= iter <= |utf8String|
      invariant d.state != 8 && FromUtf8(utf8String) == result + Decoded(d, utf8String[iter..])
    {
      DecodedStep(d, utf8String, iter);
      d := ConsumeUtf8Fragment(d, utf8String[iter]);
      iter := iter + 1;
      if d.state == S_STRT {
        result := result + [d.codepoint];
        d := Start(0);
      } else if d.state == S_RJCT {
        result := result + [REPLACEMENT];
        d := Start(0);
      }
    }
    DecodedEnd(d);
    assert utf8String[iter..] == [];
    if d.state != S_STRT {
      result := result + [REPLACEMENT];
    }
  }

  method FromUtf8To16(utf8String: seq<bv8>) returns (result: seq<bv16>)
    ensures result == ToUtf16(FromUtf8(utf8String))
  {
    hide ConsumeUtf8Fragment, Decoded, ToUtf16, Unit, HighUnit, LowUnit;
    result := [];
    ghost var decoded: seq<bv32> := [];
    ToUtf16Nothing();
    ReplacementUnit();
    var iter := 0;
    var d := Start(0);
    assert utf8String[iter..] == utf8String;
    while iter < |utf8String|
      invariant 0 <= iter <= |utf8String|
      invariant d.state != 8 && FromUtf8(utf8String) == decoded + Decoded(d, utf8String[iter..])
      invariant result == ToUtf16(decoded)
    {
      DecodedStep(d, utf8String, iter);
      d := ConsumeUtf8Fragment(d, utf8String[iter]);
      iter := iter + 1;
      if d.state == S_STRT {
        ToUtf16Snoc(decoded, d.codepoint);
        decoded := decoded + [d.codepoint];
        if d.codepoint <= 0xffff {
          result := result + [Unit(d.codepoint)];
        } else {
          result := result + [HighUnit(d.codepoint)];
          result := result + [LowUnit(d.codepoint)];
        }
        d := Start(0);
      } else if d.state == S_RJCT {
        ToUtf16Snoc(decoded, REPLACEMENT);
        decoded := decoded + [REPLACEMENT];
        result := result + [0xfffd];
        d := Start(0);
      }
    }
    DecodedEnd(d);
    assert utf8String[iter..] == [];
    if d.state != S_STRT {
      ToUtf16Snoc(decoded, REPLACEMENT);
      decoded := decoded + [REPLACEMENT];
      result := result + [0xfffd];
    }
    assert decoded == FromUtf8(utf8String);
  }

  lemma ToUtf16Nothing()
    ensures ToUtf16([]) == []
  {
  }

  lemma DecodedStep(d: Decoder, s: seq<bv8>, iter: nat)
    requires iter < |s|
    ensures var d' := ConsumeUtf8Fragment(d, s[iter]);
      Decoded(d, s[iter..])
      == if d'.state == S_STRT then [d'.codepoint] + Decoded(Start(0), s[iter + 1..])
         else if d'.state == S_RJCT then [REPLACEMENT] + Decoded(Start(0), s[iter + 1..])
         else Decoded(d', s[iter + 1..])
  {
    hide ConsumeUtf8Fragment;
    assert s[iter..][1..] == s[iter + 1..];
  }

  lemma DecodedEnd(d: Decoder)
    ensures Decoded(d, []) == if d.state != S_STRT then [REPLACEMENT] else []
  {
  }

  lemma ReplacementUnit()
    ensures Units(REPLACEMENT) == [0xfffd]
  {
  }

  lemma {:induction false} ToUtf16Snoc(cs: seq<bv32>, c: bv32)
    ensures ToUtf16(cs + [c]) == ToUtf16(cs) + Units(c)
  {
    hide Units;
    if cs == [] {
      assert ToUtf16([c]) == Units(c) + ToUtf16([]);
    } else {
      assert (cs + [c])[1..] == cs[1..] + [c];
      ToUtf16Snoc(cs[1..], c);
    }
  }

  lemma {:induction false} ToUtf8Snoc(cs: seq<bv32>, c: bv32)
    ensures ToUtf8(cs + [c]) == ToUtf8(cs) + Encode(c)
  {
    hide Encode;
    if cs == [] {
      assert ToUtf8([c]) == Encode(c) + ToUtf8([]);
    } else {
      assert (cs + [c])[1..] == cs[1..] + [c];
      ToUtf8Snoc(cs[1..], c);
    }
  }

  method ToUtf8From32(unicodeString: seq<bv32>) returns (result: seq<bv8>)
    ensures result == ToUtf8(unicodeString)
  {
    result := [];
    for i := 0 to |unicodeString|
      invariant result == ToUtf8(unicodeString[..i])
    {
      hide Encode;
      ToUtf8Snoc(unicodeString[..i], unicodeString[i]);
      assert unicodeString[..i + 1] == unicodeString[..i] + [unicodeString[i]];
      result := AppendUTF8(result, unicodeString[i]);
    }
    assert unicodeString[..|unicodeString|] == unicodeString;
  }

  method ToUtf8From16(unicodeString: seq<bv16>) returns (result: seq<bv8>)
    ensures result == ToUtf8(FromUtf16(unicodeString))
  {
    hide Encode, IsSurrogate, IsHighSurrogate, IsLowSurrogate, Combined, Wide, FromUtf16, ToUtf8;
    result := [];
    ghost var decoded: seq<bv32> := [];
    NothingFromUtf16();
    var iter := 0;
    assert unicodeString[iter..] == unicodeString;
    while iter != |unicodeString|
      invariant 0 <= iter <= |unicodeString|
      invariant FromUtf16(unicodeString) == decoded + FromUtf16(unicodeString[iter..])
      invariant result == ToUtf8(decoded)
    {
      FromUtf16Step(unicodeString, iter);
      var c := unicodeString[iter];
      if IsSurrogate(Wide(c)) {
        iter := iter + 1;
        if iter != |unicodeString| && IsHighSurrogate(Wide(c)) && IsLowSurrogate(Wide(unicodeString[iter])) {
          ToUtf8Snoc(decoded, Combined(c, unicodeString[iter]));
          decoded := decoded + [Combined(c, unicodeString[iter])];
          result := AppendUTF8(result, Combined(c, unicodeString[iter]));
        } else {
          ToUtf8Snoc(decoded, REPLACEMENT);
          decoded := decoded + [REPLACEMENT];
          result := AppendUTF8(result, REPLACEMENT);
          if iter == |unicodeString| {
            break;
          }
        }
      } else {
        ToUtf8Snoc(decoded, Wide(c));
        decoded := decoded + [Wide(c)];
        result := AppendUTF8(result, Wide(c));
      }
      iter := iter + 1;
    }
    assert unicodeString[iter..] == [];
    assert decoded == FromUtf16(unicodeString);
  }

  lemma NothingFromUtf16()
    ensures FromUtf16([]) == [] && ToUtf8([]) == []
  {
  }

  lemma FromUtf16Step(w: seq<bv16>, iter: nat)
    requires iter < |w|
    ensures FromUtf16(w[iter..])
         == if !IsSurrogate(Wide(w[iter])) then [Wide(w[iter])] + FromUtf16(w[iter + 1..])
            else if iter + 1 == |w| then [REPLACEMENT] + FromUtf16([])
            else if IsHighSurrogate(Wide(w[iter])) && IsLowSurrogate(Wide(w[iter + 1])) then
              [Combined(w[iter], w[iter + 1])] + FromUtf16(w[iter + 2..])
            else [REPLACEMENT] + FromUtf16(w[iter + 2..])
  {
    hide IsSurrogate, IsHighSurrogate, IsLowSurrogate, Combined, Wide;
    assert w[iter..][1..] == w[iter + 1..];
    if iter + 1 < |w| {
      assert w[iter..][1] == w[iter + 1] && w[iter..][2..] == w[iter + 2..];
    }
  }
}
