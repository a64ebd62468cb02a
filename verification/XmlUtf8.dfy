/**
 * The XML parser's own UTF-8 encoder, which writes the bytes backwards, and how it compares with the other one.
 */
module XmlUtf8 {
  import opened Utf8

  const BYTE_MASK: bv32 := 0xbf
  const BYTE_MARK: bv32 := 0x80

  function FirstByteMark(length: nat): bv32
  {
    if length == 2 then 0xc0 else if length == 3 then 0xe0 else if length == 4 then 0xf0 else 0
  }

  function LengthFor(input: bv32): nat
  {
    if input < 0x80 then 1
    else if input < 0x800 then 2
    else if input < 0x10000 then 3
    else if input < 0x200000 then 4
    else 0
  }

  function TailByte(w: bv32): bv8 { Low((w | BYTE_MARK) & BYTE_MASK) }

  function HeadByte(w: bv32, length: nat): bv8 { Low(w | FirstByteMark(length)) }

  /** The input without its last `k` groups of six bits. */
  function Chop(w: bv32, k: nat): bv32
  {
    if k == 0 then w else Group(Chop(w, k - 1))
  }

  /** The bytes for a number, the first one marked with how many there are. */
  function BytesOf(input: bv32, length: nat): seq<bv8>
  {
    if length == 0 then []
    else seq(length, i requires 0 <= i < length =>
               if i == 0 then HeadByte(Chop(input, length - 1), length) else TailByte(Chop(input, length - 1 - i)))
  }

  /** What ends up in the output buffer. */
  function Converted(input: bv32): seq<bv8>
  {
    BytesOf(input, LengthFor(input))
  }

  method ConvertUTF32ToUTF8(input: bv32, output: array<bv8>) returns (length: nat)
    requires output.Length >= 4
    modifies output
    ensures length <= 4 && output[..length] == Converted(input) && output[length..] == old(output[length..])
  {
    hide BytesOf;
    if input < 0x80 {
      length := 1;
    } else if input < 0x800 {
      length := 2;
    } else if input < 0x10000 {
      length := 3;
    } else if input < 0x200000 {
      length := 4;
    } else {
      length := 0;
    }
    WriteBackwards(input, output, length);
  }

  /** The cases of the switch fall through to the next. */
  method WriteBackwards(input: bv32, output: array<bv8>, length: nat)
    requires length <= 4 <= output.Length
    modifies output
    ensures output[..length] == BytesOf(input, length) && output[length..] == old(output[length..])
  {
    hide HeadByte, TailByte, Chop, Group;
    if length == 0 {
      return;
    }
    Chopped(input);
    var w := input;
    var p := length;
    if length == 4 {
      p := p - 1;
      output[p] := TailByte(w);
      w := Group(w);
    }
    if length >= 3 {
      p := p - 1;
      output[p] := TailByte(w);
      w := Group(w);
    }
    if length >= 2 {
      p := p - 1;
      output[p] := TailByte(w);
      w := Group(w);
    }
    p := p - 1;
    output[p] := HeadByte(w, length);
  }

  function Group(w: bv32): bv32 { w >> 6 }

  lemma Chopped(w: bv32)
    ensures Chop(w, 0) == w && Chop(w, 1) == Group(w)
    ensures Chop(w, 2) == Group(Group(w)) && Chop(w, 3) == Group(Group(Group(w)))
  {
  }

  // ----- the same bytes

  lemma Tails(w: bv32)
    requires w < 0x200000
    ensures TailByte(w) == LastBits(w) && TailByte(w >> 6) == MiddleBits(w) && TailByte(w >> 12) == Second4(w)
  {
  }

  lemma Heads(w: bv32)
    requires w < 0x200000
    ensures w <= 0x7f ==> HeadByte(w, 1) == Low(w)
    ensures w <= 0x7ff ==> HeadByte(w >> 6, 2) == First2(w)
    ensures w <= 0xffff ==> HeadByte(w >> 12, 3) == First3(w)
    ensures w < 0x200000 ==> HeadByte(w >> 18, 4) == First4(w)
  {
  }

  lemma Groups(w: bv32)
    ensures Group(w) == w >> 6 && Group(Group(w)) == w >> 12 && Group(Group(Group(w))) == w >> 18
  {
  }

  lemma SurrogateHead(w: bv32)
    requires 0xd800 <= w && w <= 0xdfff
    ensures HeadByte(w >> 12, 3) == 0xed
  {
  }

  lemma Lengths(w: bv32)
    ensures |Converted(w)| == LengthFor(w)
  {
    hide HeadByte, TailByte, Chop;
  }

  /** The two encoders agree exactly on the numbers of characters. */
  lemma SameBytesIff(c: bv32)
    ensures Converted(c) == Encode(c) <==> IsScalar(c)
  {
    if IsScalar(c) {
      SameBytes(c);
    } else if c <= 0xdfff {
      SurrogateHead(c);
      Chopped(c);
      Groups(c);
      hide HeadByte, TailByte, Low, Chop, Group;
      assert Converted(c)[0] == HeadByte(Chop(c, 2), 3);
    } else {
      Lengths(c);
      hide Converted, Low;
    }
  }

  lemma SameBytes(c: bv32)
    requires IsScalar(c)
    ensures Converted(c) == Encode(c)
  {
    Heads(c);
    Tails(c);
    Chopped(c);
    Groups(c);
    hide Group, Chop, HeadByte, TailByte, Low, LastBits, MiddleBits, First2, First3, First4, Second4;
  }
}
