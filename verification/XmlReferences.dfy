/** References to characters: what every way of writing one is read as, and what the encoder does with them. */
module XmlReferences {
  import opened XmlText

  // ----- numerals

  /** A digit, in the case a document's author preferred. */
  function DigitFor(d: nat, upper: bool): char
    requires d < 16
  {
    if upper then "0123456789ABCDEF"[d] else "0123456789abcdef"[d]
  }

  function Numeral(n: nat, radix: nat, upper: bool): (s: string)
    requires radix == 10 || radix == 16
    ensures s != ""
  {
    if n < radix then [DigitFor(n, upper)] else Numeral(n / radix, radix, upper) + [DigitFor(n % radix, upper)]
  }

  function Zeros(k: nat): string { if k == 0 then "" else "0" + Zeros(k - 1) }

  predicate DigitsOnly(s: string, radix: nat)
  {
    AllDigits(s, radix) && ';' !in s && '#' !in s && 'x' !in s
  }

  lemma DigitIs(d: nat, radix: nat, upper: bool)
    requires (radix == 10 || radix == 16) && d < radix
    ensures DigitValue(DigitFor(d, upper), radix) == d && DigitsOnly([DigitFor(d, upper)], radix)
  {
  }

  lemma {:induction false} NumeralDenotes(n: nat, radix: nat, upper: bool)
    requires radix == 10 || radix == 16
    ensures DigitsOnly(Numeral(n, radix, upper), radix) && NumberOf(Numeral(n, radix, upper), radix) == n
  {
    if n < radix {
      DigitIs(n, radix, upper);
      assert [DigitFor(n, upper)][..0] == "";
    } else {
      NumeralDenotes(n / radix, radix, upper);
      DigitIs(n % radix, radix, upper);
      hide DigitFor;
      assert Numeral(n, radix, upper)[..|Numeral(n, radix, upper)| - 1] == Numeral(n / radix, radix, upper);
    }
  }

  lemma NumberSnoc(s: string, c: char, radix: nat)
    requires DigitsOnly(s, radix) && DigitsOnly([c], radix)
    ensures DigitsOnly(s + [c], radix) && NumberOf(s + [c], radix) == radix * NumberOf(s, radix) + DigitValue(c, radix)
  {
    hide DigitValue;
    assert [c][0] == c;
    assert (s + [c])[..|s + [c]| - 1] == s;
  }

  lemma {:induction false} ZerosAre(k: nat, radix: nat)
    requires radix == 10 || radix == 16
    ensures DigitsOnly(Zeros(k), radix) && NumberOf(Zeros(k), radix) == 0
  {
    if k > 0 {
      OneMoreZero(k - 1);
      hide Zeros, NumberOf, DigitValue;
      ZerosAre(k - 1, radix);
      ZeroIs(radix);
      NumberSnoc(Zeros(k - 1), '0', radix);
    }
  }

  lemma {:induction false} ZerosDoNotCount(k: nat, s: string, radix: nat)
    requires (radix == 10 || radix == 16) && DigitsOnly(s, radix)
    ensures DigitsOnly(Zeros(k) + s, radix) && NumberOf(Zeros(k) + s, radix) == NumberOf(s, radix)
  {
    hide Zeros, NumberOf, DigitValue;
    if s == "" {
      ZerosAre(k, radix);
      assert Zeros(k) + s == Zeros(k);
      NothingIsZero(radix);
    } else {
      var init, last := s[..|s| - 1], s[|s| - 1];
      assert s == init + [last] && Zeros(k) + s == Zeros(k) + init + [last];
      ZerosDoNotCount(k, init, radix);
      NumberSnoc(init, last, radix);
      NumberSnoc(Zeros(k) + init, last, radix);
    }
  }

  lemma ZeroIs(radix: nat)
    ensures DigitsOnly("0", radix) && DigitValue('0', radix) == 0
  {
  }

  lemma NothingIsZero(radix: nat)
    ensures NumberOf("", radix) == 0
  {
  }

  lemma {:induction false} OneMoreZero(k: nat)
    ensures Zeros(k + 1) == Zeros(k) + "0"
  {
    if k > 0 {
      OneMoreZero(k - 1);
    }
  }

  // ----- reading

  lemma {:induction false} FindIs(s: string, c: char, from: nat, i: nat)
    requires from <= i < |s| && s[i] == c && forall j :: from <= j < i ==> s[j] != c
    ensures Find(s, c, from) == i
  {
  }

  lemma NumericReads(before: string, mark: char, digits: string, rest: string, radix: nat)
    requires (radix == 10 && mark == '#') || (radix == 16 && mark == 'x')
    requires DigitsOnly(digits, radix) && ';' !in before && before != "" && before[|before| - 1] == mark
    ensures var s := before + digits + ";" + rest;
      NumericEntity(s, mark, |before|, radix) == (At(rest), [LowByte(NumberOf(digits, radix))])
  {
    hide NumberOf;
    var s := before + digits + ";" + rest;
    var q := |before| + |digits|;
    assert s[q] == ';' && s[|before| - 1] == mark;
    assert forall j :: |before| <= j < q ==> s[j] == digits[j - |before|];
    FindIs(s, ';', |before|, q);
    var i := FindLast(s, mark, q);
    assert i == |before| - 1;
    assert s[i + 1..q] == digits && s[q + 1..] == rest;
  }

  /** A decimal reference, with any zeros in front, is read as the low byte of its number. */
  lemma DecimalReferenceReads(n: nat, zeros: nat, rest: string)
    ensures GetEntity("&#" + (Zeros(zeros) + Numeral(n, 10, true)) + ";" + rest) == (At(rest), [(n % 256) as char])
  {
    var digits := Zeros(zeros) + Numeral(n, 10, true);
    NumeralDenotes(n, 10, true);
    ZerosDoNotCount(zeros, Numeral(n, 10, true), 10);
    hide NumberOf, Numeral, Zeros;
    NumericReads("&#", '#', digits, rest, 10);
    var s := "&#" + digits + ";" + rest;
    assert digits != "" && s[2] == digits[0];
    assert digits[0] in digits;
  }

  /** And so is a hexadecimal one, with digits of either case. */
  lemma HexReferenceReads(n: nat, zeros: nat, upper: bool, rest: string)
    ensures GetEntity("&#x" + (Zeros(zeros) + Numeral(n, 16, upper)) + ";" + rest) == (At(rest), [(n % 256) as char])
  {
    var digits := Zeros(zeros) + Numeral(n, 16, upper);
    NumeralDenotes(n, 16, upper);
    ZerosDoNotCount(zeros, Numeral(n, 16, upper), 16);
    hide NumberOf, Numeral, Zeros;
    NumericReads("&#x", 'x', digits, rest, 16);
    var s := "&#x" + digits + ";" + rest;
    assert s[2] == 'x';
  }

  /** The five names. */
  lemma NamesRead(rest: string)
    ensures GetEntity("&amp;" + rest) == (At(rest), "&")
    ensures GetEntity("&lt;" + rest) == (At(rest), "<")
    ensures GetEntity("&gt;" + rest) == (At(rest), ">")
    ensures GetEntity("&quot;" + rest) == (At(rest), "\"")
    ensures GetEntity("&apos;" + rest) == (At(rest), "\'")
  {
    NameReads(0, rest);
    NameReads(1, rest);
    NameReads(2, rest);
    NameReads(3, rest);
    NameReads(4, rest);
  }

  lemma NameReads(k: nat, rest: string)
    requires k < 5
    ensures GetEntity(ENTITIES[k].0 + rest) == (At(rest), [ENTITIES[k].1])
  {
    var s := ENTITIES[k].0 + rest;
    assert s[1] == ENTITIES[k].0[1] && s[2] == ENTITIES[k].0[2];
    assert s[|ENTITIES[k].0|..] == rest;
    NamedFrom(s, 0, k);
  }

  lemma {:induction false} NamedFrom(s: string, j: nat, k: nat)
    requires s != "" && j <= k < |ENTITIES| && forall i :: j <= i < k ==> !(ENTITIES[i].0 <= s)
    ensures NamedEntity(s, j) == NamedEntity(s, k)
    decreases k - j
  {
    if j < k {
      NamedFrom(s, j + 1, k);
    }
  }

  /** An ampersand that starts neither is dropped. */
  lemma UnknownIsDropped(s: string)
    requires s != "" && s[0] == '&' && (|s| <= 2 || s[1] != '#')
    requires !("&amp;" <= s) && !("&lt;" <= s) && !("&gt;" <= s) && !("&quot;" <= s) && !("&apos;" <= s)
    ensures GetEntity(s) == (At(s[1..]), "")
  {
    NamedFrom(s, 0, 4);
  }

  // ----- writing

  lemma Passed(s: string, q: nat)
    requires StartsReference(s) && 3 <= q < |s| && forall j :: 3 <= j < q ==> s[j] != ';'
    requires s[q] == ';' || (q == |s| - 1 && s[q] != ';')
    ensures Encode(s) == s[..q] + Encode(s[q..])
  {
    if s[q] == ';' {
      FindIs(s, ';', 1, q);
    }
    hide Find;
    assert PassThrough(s) == q;
  }

  /** What looks like a hexadecimal reference is written as it is. */
  lemma ReferenceIsPassed(digits: string, rest: string)
    requires ';' !in digits
    ensures Encode("&#x" + digits + ";" + rest) == "&#x" + digits + ";" + Encode(rest)
  {
    hide Encode, EncodeChar, PassThrough;
    var s := "&#x" + digits + ";" + rest;
    var q := 3 + |digits|;
    assert s[0] == '&' && s[1] == '#' && s[2] == 'x' && s[q] == ';';
    assert forall j :: 3 <= j < q ==> s[j] == digits[j - 3];
    Passed(s, q);
    assert s[..q] == "&#x" + digits && s[q..] == ";" + rest;
    SemicolonWritten(rest);
  }

  lemma SemicolonWritten(rest: string)
    ensures Encode(";" + rest) == ";" + Encode(rest)
  {
    assert (";" + rest)[1..] == rest;
  }

  /** One that does not end is written as it is but for its last byte. */
  lemma OpenReferenceIsPassed(digits: string, last: char)
    requires ';' !in digits && last != ';'
    ensures Encode("&#x" + digits + [last]) == "&#x" + digits + EncodeChar(last)
  {
    hide Encode, EncodeChar, PassThrough;
    var s := "&#x" + digits + [last];
    var q := 3 + |digits|;
    assert s[0] == '&' && s[1] == '#' && s[2] == 'x' && s[q] == last;
    assert forall j :: 3 <= j < q ==> s[j] == digits[j - 3];
    Passed(s, q);
    assert s[..q] == "&#x" + digits && s[q..] == [last];
    LastWritten(last);
  }

  lemma LastWritten(c: char)
    ensures Encode([c]) == EncodeChar(c)
  {
    assert [c][1..] == "";
  }
}
