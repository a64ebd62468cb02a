/**
 * Typed values sent over a socket that takes and delivers any number of bytes at a time, and a word read a few bytes at
 * a time without waiting. Words go out least significant byte first, as they lie in memory.
 */
module Framing {
  import opened Bytes
  import opened CStrings
  import opened Options

  // ----- the format

  datatype Message = UInt32(word: Word32) | UInt(wide: Word64) | Bool(flag: bool) | Str(text: seq<Byte>)

  datatype Kind = ReadingUInt32 | ReadingUInt | ReadingBool | ReadingString

  function KindOf(m: Message): Kind
  {
    match m
    case UInt32(_) => ReadingUInt32
    case UInt(_) => ReadingUInt
    case Bool(_) => ReadingBool
    case Str(_) => ReadingString
  }

  /** A length is cast to 32 bits, and only so much of the text is sent. */
  function LengthSent(text: seq<Byte>): (n: nat)
    ensures n <= |text| && n < TWO_TO_THE_32
  {
    |text| % TWO_TO_THE_32
  }

  /** The bytes written for a value; `size` is how many a pointer-sized value takes. */
  function Encoded(m: Message, size: nat): seq<Byte>
  {
    match m
    case UInt32(word) => Le(word, 4)
    case UInt(wide) => Le(wide, size)
    case Bool(flag) => Le(if flag then 1 else 0, 4)
    case Str(text) => Le(LengthSent(text), 4) + text[..LengthSent(text)]
  }

  type PointerSize = n: nat | n <= 8

  lemma {:induction false} SpanMonotone(m: nat, n: nat)
    requires m <= n
    ensures Span(m) <= Span(n)
  {
    if m < n {
      SpanMonotone(m, n - 1);
    }
  }

  function Word(s: seq<Byte>): Word32
    requires |s| == 4
  {
    FromLeBound(s);
    Spans();
    FromLe(s)
  }

  function WideWord(s: seq<Byte>): Word64
    requires |s| <= 8
  {
    FromLeBound(s);
    SpanMonotone(|s|, 8);
    Spans();
    FromLe(s)
  }

  /** The value read from the front of the stream, if enough of it is there, and the rest of the stream. */
  function Decoded(kind: Kind, size: PointerSize, s: seq<Byte>): Option<(Message, seq<Byte>)>
  {
    match kind
    case ReadingUInt32 => if |s| < 4 then None else Some((UInt32(Word(s[..4])), s[4..]))
    case ReadingUInt => if |s| < size then None else Some((UInt(WideWord(s[..size])), s[size..]))
    case ReadingBool => if |s| < 4 then None else Some((Bool(Word(s[..4]) != 0), s[4..]))
    case ReadingString =>
      if |s| < 4 || |s| - 4 < Word(s[..4]) then None
      else Some((Str(Before(s[4..4 + Word(s[..4])], 0)), s[4 + Word(s[..4])..]))
  }

  /** What becomes of a value on the way. */
  function Received(m: Message, size: PointerSize): Message
  {
    match m
    case UInt32(_) => m
    case UInt(wide) => UInt(WideWord(Le(wide, size)))
    case Bool(_) => m
    case Str(text) => Str(Before(text[..LengthSent(text)], 0))
  }

  /** Pointer-sized values that fit, and texts a C string of less than 4 GB can hold. */
  predicate Fits(m: Message, size: PointerSize)
  {
    match m
    case UInt(wide) => wide < Span(size)
    case Str(text) => 0 !in text && |text| < TWO_TO_THE_32
    case _ => true
  }

  lemma WordRead(v: Word32, rest: seq<Byte>)
    ensures var s := Le(v, 4) + rest; s[..4] == Le(v, 4) && s[4..] == rest && Word(s[..4]) == v
  {
    Spans();
    LeRoundTrip(v, 4);
    hide Le, FromLe;
    assert (Le(v, 4) + rest)[..4] == Le(v, 4);
  }

  lemma DecodesEncoded(m: Message, size: PointerSize, rest: seq<Byte>)
    ensures Decoded(KindOf(m), size, Encoded(m, size) + rest) == Some((Received(m, size), rest))
  {
    hide Le, FromLe, Word, WideWord, Before;
    var s := Encoded(m, size) + rest;
    match m {
      case UInt32(word) => WordRead(word, rest);
      case UInt(wide) => assert s[..size] == Le(wide, size) && s[size..] == rest;
      case Bool(flag) => WordRead(if flag then 1 else 0, rest);
      case Str(text) =>
        var n := LengthSent(text);
        WordRead(n, text[..n] + rest);
        assert s == Le(n, 4) + (text[..n] + rest);
        assert s[4..4 + n] == text[..n] && s[4 + n..] == rest by {
          assert s[4..] == text[..n] + rest;
        }
    }
  }

  /** A value arrives as it was sent if and only if it fits. */
  lemma ReceivedIff(m: Message, size: PointerSize)
    ensures Received(m, size) == m <==> Fits(m, size)
  {
    match m {
      case UInt(wide) => LeRoundTripIff(wide, size);
      case Str(text) =>
        var sent := text[..LengthSent(text)];
        BeforeWhole(sent, 0);
        if |text| < TWO_TO_THE_32 {
          assert sent == text;
        }
        hide Before;
      case _ =>
    }
  }

  function EncodedAll(ms: seq<Message>, size: nat): seq<Byte>
  {
    if ms == [] then [] else EncodedAll(ms[..|ms| - 1], size) + Encoded(ms[|ms| - 1], size)
  }

  function Kinds(ms: seq<Message>): seq<Kind>
  {
    seq(|ms|, i requires 0 <= i < |ms| => KindOf(ms[i]))
  }

  function DecodedAll(kinds: seq<Kind>, size: PointerSize, s: seq<Byte>): Option<(seq<Message>, seq<Byte>)>
  {
    if kinds == [] then Some(([], s))
    else match DecodedAll(kinds[..|kinds| - 1], size, s)
      case None => None
      case Some((before, rest)) =>
        match Decoded(kinds[|kinds| - 1], size, rest)
        case None => None
        case Some((m, rest')) => Some((before + [m], rest'))
  }

  function ReceivedAll(ms: seq<Message>, size: PointerSize): seq<Message>
  {
    seq(|ms|, i requires 0 <= i < |ms| => Received(ms[i], size))
  }

  lemma DecodedAllSnoc(kinds: seq<Kind>, kind: Kind, size: PointerSize, s: seq<Byte>)
    ensures DecodedAll(kinds + [kind], size, s)
         == match DecodedAll(kinds, size, s)
            case None => None
            case Some((before, rest)) =>
              match Decoded(kind, size, rest)
              case None => None
              case Some((m, rest')) => Some((before + [m], rest'))
  {
    hide Decoded;
    assert (kinds + [kind])[..|kinds|] == kinds;
  }

  lemma EncodedAllSnoc(ms: seq<Message>, m: Message, size: nat)
    ensures EncodedAll(ms + [m], size) == EncodedAll(ms, size) + Encoded(m, size)
  {
    hide Encoded;
    assert (ms + [m])[..|ms|] == ms;
  }

  lemma {:induction false} DecodesAllEncoded(ms: seq<Message>, size: PointerSize, rest: seq<Byte>)
    ensures DecodedAll(Kinds(ms), size, EncodedAll(ms, size) + rest) == Some((ReceivedAll(ms, size), rest))
  {
    hide Decoded, Received, Encoded;
    if ms == [] {
      assert EncodedAll(ms, size) + rest == rest;
    } else {
      var before, last := ms[..|ms| - 1], ms[|ms| - 1];
      var tail := Encoded(last, size) + rest;
      assert EncodedAll(ms, size) + rest == EncodedAll(before, size) + tail;
      DecodesAllEncoded(before, size, tail);
      DecodesEncoded(last, size, rest);
      assert Kinds(ms) == Kinds(before) + [KindOf(last)];
      assert ReceivedAll(ms, size) == ReceivedAll(before, size) + [Received(last, size)];
      hide DecodedAll, EncodedAll;
      DecodedAllSnoc(Kinds(before), KindOf(last), size, EncodedAll(before, size) + tail);
    }
  }

  /** A sequence of values is read back unchanged if and only if each of them fits. */
  lemma RoundTripIff(ms: seq<Message>, size: PointerSize, rest: seq<Byte>)
    ensures DecodedAll(Kinds(ms), size, EncodedAll(ms, size) + rest) == Some((ms, rest))
       <==> forall i :: 0 <= i < |ms| ==> Fits(ms[i], size)
  {
    DecodesAllEncoded(ms, size, rest);
    hide Received, Fits;
    forall i | 0 <= i < |ms| ensures ReceivedAll(ms, size)[i] == ms[i] <==> Fits(ms[i], size) {
      ReceivedIff(ms[i], size);
    }
    if forall i :: 0 <= i < |ms| ==> Fits(ms[i], size) {
      assert ReceivedAll(ms, size) == ms;
    }
  }

  // ----- the channel

  /** One end of a connection, as far as the other end's sending and receiving shows. */
  class Socket {
    /** Sent by the peer and not received yet. */
    var incoming: seq<Byte>
    /** Taken from this end so far. */
    var outgoing: seq<Byte>

    constructor (incoming: seq<Byte>)
      ensures this.incoming == incoming && outgoing == []
    {
      this.incoming, outgoing := incoming, [];
    }

    /** Takes some of the bytes; -1 is an error. */
    method Send(data: seq<Byte>) returns (sent: int)
      requires data != []
      modifies `outgoing
      ensures sent == -1 || 1 <= sent <= |data|
      ensures outgoing == old(outgoing) + if sent == -1 then [] else data[..sent]
    {
      if * {
        sent := -1;
      } else {
        sent :| 1 <= sent <= |data|;
        outgoing := outgoing + data[..sent];
      }
    }

    /** Delivers some of the bytes; 0 is the end of the connection, -1 an error or nothing there without waiting. */
    method Recv(length: nat) returns (received: int, data: seq<Byte>)
      requires length > 0
      modifies `incoming
      ensures -1 <= received <= length && |data| == (if received == -1 then 0 else received)
      ensures old(incoming) == data + incoming
    {
      received, data := -1, [];
      if * {
        received := 0;
      } else if incoming != [] {
        received :| 1 <= received <= length && received <= |incoming|;
        data := incoming[..received];
        incoming := incoming[received..];
      }
    }
  }

  class TcpChannel {
    const socket: Socket
    var connected: bool
    const nreadBuffer: array<Byte>
    var nreadCnt: int
    var pointerSize: PointerSize

    constructor (socket: Socket)
      ensures Valid() && this.socket == socket && connected && nreadCnt == 0 && fresh(nreadBuffer) && pointerSize == 4
    {
      this.socket := socket;
      connected := true;
      nreadBuffer := new Byte[4];
      nreadCnt := 0;
      pointerSize := 4;
    }

    ghost predicate Valid()
      reads this
    {
      nreadBuffer.Length == 4 && 0 <= nreadCnt < 4
    }

    /** What is still to be read: what polling has put aside comes first. */
    ghost function Stream(): seq<Byte>
      requires Valid()
      reads this, nreadBuffer, socket
    {
      nreadBuffer[..nreadCnt] + socket.incoming
    }

    method Disconnect()
      modifies `connected
      ensures !connected
    {
      connected := false;
    }

    /** All of the data, or some of it and the connection is given up. */
    method Write(data: seq<Byte>) returns (ok: bool)
      modifies `connected, socket`outgoing
      ensures ok ==> connected && socket.outgoing == old(socket.outgoing) + data
      ensures !ok ==> !connected && old(socket.outgoing) <= socket.outgoing <= old(socket.outgoing) + data
    {
      if !connected {
        return false;
      }
      var totalSent := 0;
      while totalSent < |data|
        invariant 0 <= totalSent <= |data| && connected
        invariant socket.outgoing == old(socket.outgoing) + data[..totalSent]
      {
        var sent := socket.Send(data[totalSent..]);
        if sent == -1 {
          Disconnect();
          return false;
        }
        assert data[..totalSent + sent] == data[..totalSent] + data[totalSent..][..sent];
        totalSent := totalSent + sent;
      }
      assert data[..totalSent] == data;
      return true;
    }

    /** So many bytes, or the connection is given up. While a word is being polled for, bytes put aside are skipped. */
    method Read(length: nat) returns (ok: bool, data: seq<Byte>)
      requires Valid()
      modifies `connected, socket`incoming
      ensures ok ==> connected && |data| == length && old(socket.incoming) == data + socket.incoming
      ensures ok ==> nreadCnt + length <= |old(Stream())| && data == old(Stream())[nreadCnt..nreadCnt + length]
      ensures !ok ==> !connected
    {
      data := [];
      if !connected {
        return false, data;
      }
      while |data| < length
        invariant |data| <= length && connected && old(socket.incoming) == data + socket.incoming
      {
        var received, part := socket.Recv(length - |data|);
        if received == -1 {
          Disconnect();
          return false, data;
        }
        if received == 0 {
          Disconnect();
          return false, data;
        }
        data := data + part;
      }
      return true, data;
    }

    /** A word, if what arrived completes one; no byte is lost otherwise. */
    method NReadUInt32() returns (success: bool, value: Word32)
      requires Valid()
      modifies `connected, `nreadCnt, nreadBuffer, socket`incoming
      ensures Valid()
      ensures success ==> connected && nreadCnt == 0 && |old(Stream())| >= 4
      ensures success ==> value == Word(old(Stream())[..4]) && Stream() == old(Stream())[4..]
      ensures !success ==> Stream() == old(Stream())
    {
      value := 0xffff_ffff;
      if !connected {
        return false, value;
      }
      ghost var before := Stream();
      var received, data := socket.Recv(4 - nreadCnt);
      forall k | 0 <= k < |data| {
        nreadBuffer[nreadCnt + k] := data[k];
      }
      assert nreadBuffer[..nreadCnt + |data|] + socket.incoming == before;
      success := false;
      if received + nreadCnt == 4 {
        assert before[..4] == nreadBuffer[..];
        value := Word(nreadBuffer[..]);
        nreadCnt := 0;
        success := true;
      } else if received == -1 {
        var wouldBlock: bool := *;
        if !wouldBlock {
          Disconnect();
        }
      } else if received == 0 {
        Disconnect();
      } else {
        nreadCnt := nreadCnt + received;
      }
    }

    // ----- typed values

    method WriteUInt32(value: Word32) returns (ok: bool)
      modifies `connected, socket`outgoing
      ensures Written(ok, connected, old(socket.outgoing), socket.outgoing, Encoded(UInt32(value), pointerSize))
    {
      ok := Write(Le(value, 4));
    }

    method WriteUInt(value: Word64) returns (ok: bool)
      modifies `connected, socket`outgoing
      ensures Written(ok, connected, old(socket.outgoing), socket.outgoing, Encoded(UInt(value), pointerSize))
    {
      ok := Write(Le(value, pointerSize));
    }

    method WriteBool(value: bool) returns (ok: bool)
      modifies `connected, socket`outgoing
      ensures Written(ok, connected, old(socket.outgoing), socket.outgoing, Encoded(Bool(value), pointerSize))
    {
      ok := WriteUInt32(if value then 1 else 0);
    }

    method WriteString(value: seq<Byte>) returns (ok: bool)
      modifies `connected, socket`outgoing
      ensures Written(ok, connected, old(socket.outgoing), socket.outgoing, Encoded(Str(value), pointerSize))
    {
      hide Le;
      var length := LengthSent(value);
      Together(socket.outgoing, Le(length, 4), value[..length]);
      ok := WriteUInt32(length);
      if !ok {
        return;
      }
      if length > 0 {
        ok := Write(value[..length]);
      }
    }

    method ReadUInt32() returns (ok: bool, value: Word32)
      requires Valid()
      modifies `connected, socket`incoming
      ensures GotBack(ok, connected, ReadingUInt32, pointerSize, old(socket.incoming), socket.incoming, UInt32(value))
    {
      var temp;
      ok, temp := Read(4);
      value := if ok then Word(temp) else 0;
    }

    method ReadUInt() returns (ok: bool, value: Word64)
      requires Valid()
      modifies `connected, socket`incoming
      ensures GotBack(ok, connected, ReadingUInt, pointerSize, old(socket.incoming), socket.incoming, UInt(value))
    {
      var temp;
      ok, temp := Read(pointerSize);
      value := if ok then WideWord(temp) else 0;
    }

    method ReadBool() returns (ok: bool, value: bool)
      requires Valid()
      modifies `connected, socket`incoming
      ensures GotBack(ok, connected, ReadingBool, pointerSize, old(socket.incoming), socket.incoming, Bool(value))
    {
      var temp;
      ok, temp := ReadUInt32();
      value := temp != 0;
    }

    method ReadString() returns (ok: bool, value: seq<Byte>)
      requires Valid()
      modifies `connected, socket`incoming
      ensures GotBack(ok, connected, ReadingString, pointerSize, old(socket.incoming), socket.incoming, Str(value))
    {
      value := [];
      var length;
      ok, length := ReadUInt32();
      if !ok {
        return;
      }
      ghost var stream := old(socket.incoming);
      assert stream[4..] == socket.incoming && Word(stream[..4]) == length;
      if length != 0 {
        var buffer;
        ok, buffer := Read(length);
        if ok {
          value := Before(buffer, 0);
          DecodedString(stream, buffer, socket.incoming);
        }
      } else {
        DecodedString(stream, [], socket.incoming);
      }
    }

    // ----- conversations

    method WriteMessage(m: Message) returns (ok: bool)
      modifies `connected, socket`outgoing
      ensures Written(ok, connected, old(socket.outgoing), socket.outgoing, Encoded(m, pointerSize))
    {
      hide Encoded, Written;
      match m {
        case UInt32(word) => ok := WriteUInt32(word);
        case UInt(wide) => ok := WriteUInt(wide);
        case Bool(flag) => ok := WriteBool(flag);
        case Str(text) => ok := WriteString(text);
      }
    }

    method ReadMessage(kind: Kind) returns (ok: bool, m: Message)
      requires Valid()
      modifies `connected, socket`incoming
      ensures GotBack(ok, connected, kind, pointerSize, old(socket.incoming), socket.incoming, m)
    {
      hide GotBack;
      match kind {
        case ReadingUInt32 =>
          var value;
          ok, value := ReadUInt32();
          m := UInt32(value);
        case ReadingUInt =>
          var value;
          ok, value := ReadUInt();
          m := UInt(value);
        case ReadingBool =>
          var value;
          ok, value := ReadBool();
          m := Bool(value);
        case ReadingString =>
          var value;
          ok, value := ReadString();
          m := Str(value);
      }
    }

    method WriteAll(ms: seq<Message>) returns (ok: bool)
      modifies `connected, socket`outgoing
      ensures ok ==> socket.outgoing == old(socket.outgoing) + EncodedAll(ms, pointerSize)
      ensures !ok ==> !connected
    {
      hide Encoded, Written;
      for i := 0 to |ms|
        invariant socket.outgoing == old(socket.outgoing) + EncodedAll(ms[..i], pointerSize)
      {
        hide EncodedAll;
        EncodedAllSnoc(ms[..i], ms[i], pointerSize);
        assert ms[..i + 1] == ms[..i] + [ms[i]];
        ghost var before := socket.outgoing;
        ok := WriteMessage(ms[i]);
        WrittenMeans(ok, connected, before, socket.outgoing, Encoded(ms[i], pointerSize));
        if !ok {
          return;
        }
        Together(old(socket.outgoing), EncodedAll(ms[..i], pointerSize), Encoded(ms[i], pointerSize));
      }
      assert ms[..|ms|] == ms;
      ok := true;
    }

    method ReadAll(kinds: seq<Kind>) returns (ok: bool, ms: seq<Message>)
      requires Valid()
      modifies `connected, socket`incoming
      ensures ok ==> DecodedAll(kinds, pointerSize, old(socket.incoming)) == Some((ms, socket.incoming))
      ensures !ok ==> !connected
    {
      ms := [];
      for i := 0 to |kinds|
        invariant DecodedAll(kinds[..i], pointerSize, old(socket.incoming)) == Some((ms, socket.incoming))
      {
        hide Decoded, DecodedAll;
        DecodedAllSnoc(kinds[..i], kinds[i], pointerSize, old(socket.incoming));
        assert kinds[..i + 1] == kinds[..i] + [kinds[i]];
        var m;
        ok, m := ReadMessage(kinds[i]);
        if !ok {
          return;
        }
        ms := ms + [m];
      }
      assert kinds[..|kinds|] == kinds;
      ok := true;
    }

    /** Polling any number of times: the words got and the bytes still to come are all there was to read. */
    method Poll(times: nat) returns (words: seq<Word32>)
      requires Valid()
      modifies `connected, `nreadCnt, nreadBuffer, socket`incoming
      ensures Valid() && InMemory(words) + Stream() == old(Stream())
    {
      words := [];
      for i := 0 to times
        invariant Valid() && InMemory(words) + Stream() == old(Stream())
      {
        ghost var before := Stream();
        var success, value := NReadUInt32();
        if success {
          LeOfFromLe(before[..4]);
          InMemorySnoc(words, value);
          words := words + [value];
        }
      }
    }
  }

  lemma DecodedString(s: seq<Byte>, buffer: seq<Byte>, rest: seq<Byte>)
    requires |s| >= 4 && Word(s[..4]) == |buffer| && s[4..] == buffer + rest
    ensures forall size: PointerSize :: Decoded(ReadingString, size, s) == Some((Str(Before(buffer, 0)), rest))
  {
    assert s[4..4 + |buffer|] == buffer && s[4 + |buffer|..] == rest by {
      assert s == s[..4] + (buffer + rest);
    }
    hide Word, Before;
  }

  /** All the bytes were taken, or some and the connection is gone. */
  ghost predicate Written(ok: bool, connected: bool, before: seq<Byte>, after: seq<Byte>, bytes: seq<Byte>)
  {
    if ok then connected && after == before + bytes else !connected && before <= after <= before + bytes
  }

  lemma WrittenMeans(ok: bool, connected: bool, before: seq<Byte>, after: seq<Byte>, bytes: seq<Byte>)
    requires Written(ok, connected, before, after, bytes)
    ensures if ok then after == before + bytes else !connected
  {
  }

  lemma Together(a: seq<Byte>, b: seq<Byte>, c: seq<Byte>)
    ensures (a + b) + c == a + (b + c)
  {
  }

  /** The value is the first one of the stream, or the connection is gone. */
  ghost predicate GotBack(ok: bool, connected: bool, kind: Kind, size: PointerSize, before: seq<Byte>, after: seq<Byte>,
                          m: Message)
  {
    if ok then connected && Decoded(kind, size, before) == Some((m, after)) else !connected
  }

  function InMemory(words: seq<Word32>): seq<Byte>
  {
    if words == [] then [] else InMemory(words[..|words| - 1]) + Le(words[|words| - 1], 4)
  }

  lemma InMemorySnoc(words: seq<Word32>, word: Word32)
    ensures InMemory(words + [word]) == InMemory(words) + Le(word, 4)
  {
    hide Le;
    assert (words + [word])[..|words|] == words;
  }

  // ----- the bytes on the wire

  /** Words are four bytes, the lowest first; a flag is a word; a text is its length as a word and its bytes, no NUL. */
  lemma WireFormat(m: Message, size: nat, i: nat)
    requires i < |Encoded(m, size)|
    ensures |Encoded(m, size)|
         == match m
            case UInt32(_) => 4
            case Bool(_) => 4
            case UInt(_) => size
            case Str(text) => 4 + |text| % TWO_TO_THE_32
    ensures Encoded(m, size)[i]
         == match m
            case UInt32(word) => word / Span(i) % 256
            case UInt(wide) => wide / Span(i) % 256
            case Bool(flag) => if flag && i == 0 then 1 else 0
            case Str(text) => if i < 4 then |text| % TWO_TO_THE_32 / Span(i) % 256 else text[i - 4]
  {
    hide Le, Span;
    match m
    case UInt32(word) => LeAt(word, 4, i);
    case UInt(wide) => LeAt(wide, size, i);
    case Bool(flag) =>
      LeAt(if flag then 1 else 0, 4, i);
      SmallNumber(if flag then 1 else 0, i);
    case Str(text) =>
      if i < 4 {
        LeAt(LengthSent(text), 4, i);
      }
  }

  lemma SmallNumber(v: nat, i: nat)
    requires v <= 1
    ensures v / Span(i) % 256 == if v == 1 && i == 0 then 1 else 0
  {
    if i > 0 {
      assert Span(i) == 256 * Span(i - 1);
      hide Span;
      QuotientIs(v, Span(i), 0, v);
    } else {
      assert Span(0) == 1;
    }
  }
}
