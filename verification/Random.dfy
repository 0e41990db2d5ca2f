/** The minimal standard random generator in Schrage's form (CLR_RT_Random). */
module Randoms {
  import opened Sequences

  const IA := 16807
  const IM := 2147483647
  const IQ := 127773
  const IR := 2836
  const MASK := 123459876

  type Int32 = x: int | -0x8000_0000 <= x < 0x8000_0000

  // ---------- Exclusive or ----------

  function XorBits(x: nat, y: nat): nat {
    if x == 0 && y == 0 then 0 else 2 * XorBits(x / 2, y / 2) + if x % 2 != y % 2 then 1 else 0
  }

  lemma {:induction false} XorBounded(x: nat, y: nat, n: nat)
    requires x < Pow2(n) && y < Pow2(n)
    ensures XorBits(x, y) < Pow2(n)
  {
    if n > 0 { XorBounded(x / 2, y / 2, n - 1); }
  }

  lemma {:induction false} XorTwice(x: nat, y: nat)
    ensures XorBits(XorBits(x, y), y) == x
    decreases x + y
  {
    if x != 0 || y != 0 { XorTwice(x / 2, y / 2); }
  }

  lemma WordBound()
    ensures Pow2(31) == 0x8000_0000
  {
    assert Pow2(8) == 256;
    assert Pow2(16) == 0x1_0000;
    assert Pow2(24) == 0x100_0000;
  }

  /** v ^ MASK in 32 bits; the sign bit of MASK is clear. */
  function Masked(v: Int32): (r: Int32)
    ensures r >= 0 <==> v >= 0
  {
    WordBound();
    XorBounded(if v >= 0 then v else -1 - v, MASK, 31);
    if v >= 0 then XorBits(v, MASK) else -1 - XorBits(-1 - v, MASK)
  }

  lemma MaskedTwice(v: Int32)
    ensures Masked(Masked(v)) == v
  {
    XorTwice(if v >= 0 then v else -1 - v, MASK);
  }

  lemma XorHalf(x: nat, y: nat)
    ensures XorBits(x, y) / 2 == XorBits(x / 2, y / 2) && (XorBits(x, y) % 2 == 1 <==> x % 2 != y % 2)
  {
  }

  /** Bit k of a number. */
  function BitOf(x: int, k: nat): int {
    x / Pow2(k) % 2
  }

  lemma BitOfHalf(x: int, k: nat)
    ensures BitOf(x, k) == if k == 0 then x % 2 else BitOf(x / 2, k - 1)
  {
    if k > 0 { HalvedFirst(x, k - 1); }
  }

  /** Exclusive or works on every bit. */
  lemma {:induction false} XorBit(x: nat, y: nat, k: nat)
    ensures BitOf(XorBits(x, y), k) == 1 <==> BitOf(x, k) != BitOf(y, k)
  {
    XorHalf(x, y);
    BitOfHalf(x, k);
    BitOfHalf(y, k);
    BitOfHalf(XorBits(x, y), k);
    if k > 0 { XorBit(x / 2, y / 2, k - 1); }
  }

  /** The bits of a negative number are those of its complement, turned round. */
  lemma ComplementBits(x: int, k: nat)
    ensures BitOf(x, k) != BitOf(-1 - x, k)
  {
    var p: int := Pow2(k);
    var q, r := x / p, x % p;
    assert -1 - x == p * (-1 - q) + (p - 1 - r) by {
      assert p * (-1 - q) == -p - p * q;
    }
    DivisionUnique(-1 - x, p, -1 - q, p - 1 - r);
  }

  /** What the mask does to the bits of a state, in two's complement. */
  lemma MaskedBits(v: Int32)
    ensures forall k :: 0 <= k < 32 ==> (BitOf(Masked(v), k) == 1 <==> BitOf(v, k) != BitOf(123459876, k))
  {
    forall k | 0 <= k < 32 ensures BitOf(Masked(v), k) == 1 <==> BitOf(v, k) != BitOf(123459876, k) {
      if v >= 0 {
        XorBit(v, 123459876, k);
      } else {
        var w: int := -1 - v;
        XorBit(w, 123459876, k);
        ComplementBits(v, k);
        ComplementBits(XorBits(w, 123459876), k);
      }
    }
  }

  // ---------- The generator ----------

  /** Division that truncates toward zero. */
  function Quotient(v: int, d: int): int
    requires 0 < d
  {
    if v >= 0 then v / d else -(-v / d)
  }

  /** The next number of the sequence of Lehmer. */
  function Lehmer(v: int): (r: int)
    ensures 0 <= r < IM
  {
    IA * v % IM
  }

  /** The number 16807 has an inverse modulo 2^31 - 1, so different numbers have different successors. */
  lemma LehmerInjective(a: int, b: int)
    requires Lehmer(a) == Lehmer(b)
    ensures a % IM == b % IM
  {
    var k := IA * a / IM - IA * b / IM;
    assert IA * (a - b) == IM * k;
    assert 1407677000 * IA == 1 + 11017 * IM;
    var t := 1407677000 * k - 11017 * (a - b);
    assert a == b + IM * t;
    SameRemainder(b, t);
  }

  lemma SameRemainder(b: int, t: int)
    ensures (b + IM * t) % IM == b % IM
  {
    var q, r := b / IM, b % IM;
    assert b + IM * t == IM * (q + t) + r;
    UniqueRemainder(b + IM * t, q + t, r);
  }

  lemma UniqueRemainder(x: int, q: int, r: int)
    requires x == IM * q + r && 0 <= r < IM
    ensures x % IM == r
  {
  }

  /** The state without the mask after n steps. */
  function After(v: int, n: nat): int {
    if n == 0 then v else Lehmer(After(v, n - 1))
  }

  /** The sequence gets stuck at zero only if it starts there: in the states that the mask turns into a
      multiple of 2^31 - 1. */
  lemma {:induction false} StuckIff(v: int, n: nat)
    requires 1 <= n
    ensures After(v, n) == 0 <==> v % IM == 0
  {
    var u := After(v, n - 1);
    if n > 1 { StuckIff(v, n - 1); }
    if Lehmer(u) == 0 { LehmerInjective(u, 0); }
    if u % IM == 0 {
      SameRemainder(0, IA * (u / IM));
      assert IA * u == 0 + IM * (IA * (u / IM));
    }
  }

  /** Schrage's form: no part of it leaves 32 bits, and it makes one step of the sequence. */
  lemma Schrage(v: Int32)
    ensures var k := Quotient(v, IQ);
      var low, high := IA * (v - k * IQ), IR * k;
      && -0x8000_0000 <= low < 0x8000_0000 && -0x8000_0000 <= high < 0x8000_0000
      && -IM <= low - high < IM
      && Lehmer(v) == if low - high < 0 then low - high + IM else low - high
  {
    var k := Quotient(v, IQ);
    var rest := v - k * IQ;
    assert if v >= 0 then 0 <= rest < IQ && 0 <= k <= 16807 else -IQ < rest <= 0 && -16807 <= k <= 0;
    var d := IA * rest - IR * k;
    assert IA * v == IM * k + d;
    if d < 0 {
      UniqueRemainder(IA * v, k - 1, d + IM);
    } else {
      UniqueRemainder(IA * v, k, d);
    }
  }

  class Random {
    var next: Int32

    /** Initialize with a seed. */
    constructor (seed: Int32)
      ensures next == seed
    {
      next := seed;
    }

    /** Every intermediate value fits in 32 bits, whatever the seed was.  The state without the mask is x before
        the step and 16807 times that, modulo 2^31 - 1, after it; the mask turns the bits of 123459876 round. */
    method Next() returns (r: Int32, ghost x: Int32, ghost y: Int32)
      modifies this
      ensures next == r && 0 <= r && Masked(r) == Lehmer(Masked(old(next)))
      ensures y == 16807 * x % 0x7FFF_FFFF
      ensures forall k :: 0 <= k < 32 ==> (BitOf(x, k) == 1 <==> BitOf(old(next), k) != BitOf(123459876, k))
      ensures forall k :: 0 <= k < 32 ==> (BitOf(r, k) == 1 <==> BitOf(y, k) != BitOf(123459876, k))
    {
      x := Masked(next);
      MaskedBits(next);
      r := Step();
      y := Masked(r);
      MaskedTwice(r);
      MaskedBits(y);
    }

    /** The same in terms of the mask. */
    method Step() returns (r: Int32)
      modifies this
      ensures next == r && 0 <= r && Masked(r) == Lehmer(Masked(old(next)))
    {
      var v: Int32 := Masked(next);
      Schrage(v);
      var k: Int32 := Quotient(v, IQ);
      var rest: Int32 := v - k * IQ;
      var low: Int32, high: Int32 := IA * rest, IR * k;
      v := low - high;
      if v < 0 { v := v + IM; }
      MaskedTwice(v);
      v := Masked(v);
      next := v;
      r := v;
    }
  }
}
