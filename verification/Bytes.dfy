/** Bytes and their little-endian grouping into words, shared by the thunk generator and the wire format. */
module Bytes {
  type Byte = x: int | 0 <= x < 256

  const TWO_TO_THE_31: int := 0x8000_0000
  const TWO_TO_THE_32: int := 0x1_0000_0000
  const TWO_TO_THE_64: int := 0x1_0000_0000_0000_0000

  type Word32 = x: int | 0 <= x < 0x1_0000_0000
  type Word64 = x: int | 0 <= x < 0x1_0000_0000_0000_0000

  /** 256 to the power `n`: the number of values `n` bytes can hold. */
  function Span(n: nat): (r: nat)
    ensures r >= 1
  {
    if n == 0 then 1 else 256 * Span(n - 1)
  }

  /** The `n` low-order bytes of `v`, least significant byte first. */
  function Le(v: nat, n: nat): (bs: seq<Byte>)
    ensures |bs| == n
  {
    if n == 0 then [] else [v % 256] + Le(v / 256, n - 1)
  }

  /** The number whose little-endian bytes are `bs`. */
  function FromLe(bs: seq<Byte>): (v: nat)
  {
    if bs == [] then 0 else bs[0] + 256 * FromLe(bs[1..])
  }

  lemma {:induction false} FromLeBound(bs: seq<Byte>)
    ensures FromLe(bs) < Span(|bs|)
  {
    if bs != [] {
      FromLeBound(bs[1..]);
    }
  }

  lemma {:induction false} LeRoundTrip(v: nat, n: nat)
    requires v < Span(n)
    ensures FromLe(Le(v, n)) == v
  {
    if n > 0 {
      var rest := Le(v / 256, n - 1);
      assert Le(v, n) == [v % 256] + rest;
      assert ([v % 256] + rest)[1..] == rest;
      LeRoundTrip(v / 256, n - 1);
    }
  }

  lemma {:induction false} LeOfFromLe(bs: seq<Byte>)
    ensures Le(FromLe(bs), |bs|) == bs
  {
    if bs != [] {
      LeOfFromLe(bs[1..]);
      assert bs == [bs[0]] + bs[1..];
    }
  }

  /** Reading `n` bytes back gives the number that was written exactly when it fits in them. */
  lemma LeRoundTripIff(v: nat, n: nat)
    ensures FromLe(Le(v, n)) == v <==> v < Span(n)
  {
    if v < Span(n) {
      LeRoundTrip(v, n);
    } else {
      FromLeBound(Le(v, n));
    }
  }

  lemma Spans()
    ensures Span(1) == 256 && Span(4) == TWO_TO_THE_32 && Span(8) == TWO_TO_THE_64
  {
    assert Span(2) == 256 * Span(1);
    assert Span(3) == 256 * Span(2);
    assert Span(4) == 256 * Span(3);
    assert Span(5) == 256 * Span(4);
    assert Span(6) == 256 * Span(5);
    assert Span(7) == 256 * Span(6);
    assert Span(8) == 256 * Span(7);
  }

  /** The byte at place `i` counts 256 to the power `i`. */
  lemma {:induction false} LeAt(v: nat, n: nat, i: nat)
    requires i < n
    ensures Le(v, n)[i] == v / Span(i) % 256
  {
    if i > 0 {
      LeAt(v / 256, n - 1, i - 1);
      DividedTwice(v, Span(i - 1));
      hide Span;
    }
  }

  lemma DividedTwice(v: nat, k: nat)
    requires k >= 1
    ensures v / 256 / k == v / (256 * k)
  {
    var q, r := v / 256, v % 256;
    var p, t := q / k, q % k;
    assert v == 256 * (k * p + t) + r;
    assert 256 * (k * p) == (256 * k) * p;
    assert v == (256 * k) * p + (256 * t + r) && 0 <= 256 * t + r < 256 * k;
    QuotientIs(v, 256 * k, p, 256 * t + r);
  }

  lemma QuotientIs(v: nat, d: nat, q: nat, r: nat)
    requires d >= 1 && v == d * q + r && r < d
    ensures v / d == q
  {
    var x, y := v / d, v % d;
    assert v == d * x + y && 0 <= y < d;
    if x < q {
      Larger(d, x, q);
    } else if x > q {
      Larger(d, q, x);
    }
  }

  lemma Larger(d: nat, x: nat, y: nat)
    requires x < y
    ensures d * x + d <= d * y
  {
    assert d * y == d * x + d * (y - x);
    assert d * (y - x) >= d * 1 by {
      NotLess(d, y - x);
    }
  }

  lemma {:induction false} NotLess(d: nat, k: nat)
    requires k >= 1
    ensures d * k >= d
  {
    if k > 1 {
      NotLess(d, k - 1);
      assert d * k == d * (k - 1) + d;
    }
  }
}
