/**
 Bitwise AND on non-negative integers, and what it means to AND with a mask of low bits.
 For operands in [0, 2^63) this is exactly the `&` of two non-negative int64_t values.
 */
module Bits {

  function Pow2(k: nat): (r: nat)
    ensures r >= 1
  {
    if k == 0 then 1 else 2 * Pow2(k - 1)
  }

  /** `a & b`, built from the least significant bit upwards. */
  function BitAnd(a: nat, b: nat): (r: nat)
    ensures r <= a && r <= b
    decreases a
  {
    if a == 0 || b == 0 then 0
    else 2 * BitAnd(a / 2, b / 2) + (if a % 2 == 1 && b % 2 == 1 then 1 else 0)
  }

  /** Bit i of x (bit 0 is the least significant). */
  predicate Bit(x: nat, i: nat) {
    (x / Pow2(i)) % 2 == 1
  }

  /** Bit i + 1 of x is bit i of x / 2. */
  lemma BitOfHalf(x: nat, i: nat)
    ensures Bit(x, i + 1) <==> Bit(x / 2, i)
  {
    DivModDouble(x, Pow2(i));
  }

  /** BitAnd is the bitwise AND: each bit of the result is set iff it is set in both operands. */
  lemma {:induction false} BitAndBit(a: nat, b: nat, i: nat)
    ensures Bit(BitAnd(a, b), i) <==> Bit(a, i) && Bit(b, i)
    decreases i
  {
    var r := BitAnd(a, b);
    if a == 0 || b == 0 {
      assert r == 0;
      assert 0 / Pow2(i) == 0;
    } else if i == 0 {
      assert Pow2(0) == 1;
    } else {
      var low := if a % 2 == 1 && b % 2 == 1 then 1 else 0;
      assert r == 2 * BitAnd(a / 2, b / 2) + low;
      assert r / 2 == BitAnd(a / 2, b / 2);
      BitOfHalf(r, i - 1);
      BitOfHalf(a, i - 1);
      BitOfHalf(b, i - 1);
      BitAndBit(a / 2, b / 2, i - 1);
    }
  }

  /** `(t & mask) == 0`: no bit of `t` set under `mask`. */
  predicate MaskClear(t: nat, mask: nat) {
    BitAnd(t, mask) == 0
  }

  /** x*d grows with x. */
  lemma MulLeft(x: nat, y: nat, d: nat)
    requires x <= y
    ensures x * d <= y * d
  {
  }

  /** Quotient and remainder are unique: any t == q*d + r with 0 <= r < d gives t / d and t % d. */
  lemma DivModUnique(t: nat, d: nat, q: nat, r: nat)
    requires d > 0 && r < d && t == q * d + r
    ensures t / d == q && t % d == r
  {
    var q' := t / d;
    var r' := t % d;
    assert q' * d + r' == q * d + r;
    if q' < q {
      assert (q' + 1) * d == q' * d + d;
      MulLeft(q' + 1, q, d);
    } else if q' > q {
      assert (q + 1) * d == q * d + d;
      MulLeft(q + 1, q', d);
    }
  }

  /**
   Dividing by 2p is halving and then dividing by p; the remainder modulo 2p is twice the
   remainder of t/2 modulo p, plus t's low bit.
   */
  lemma DivModDouble(t: nat, p: nat)
    requires p >= 1
    ensures t / (2 * p) == (t / 2) / p
    ensures t % (2 * p) == 2 * ((t / 2) % p) + t % 2
  {
    var h := t / 2;
    var q := h / p;
    var r := h % p;
    assert h == q * p + r;
    assert t == 2 * h + t % 2;
    assert q * (2 * p) == 2 * (q * p);
    assert t == q * (2 * p) + (2 * r + t % 2);
    DivModUnique(t, 2 * p, q, 2 * r + t % 2);
  }

  /** ANDing with the mask 2^k - 1 keeps exactly the remainder modulo 2^k. */
  lemma {:induction false} BitAndLowMask(t: nat, k: nat)
    ensures BitAnd(t, Pow2(k) - 1) == t % Pow2(k)
  {
    if k == 0 {
    } else if t == 0 {
    } else {
      var m := Pow2(k) - 1;
      var p := Pow2(k - 1);
      assert m == 2 * p - 1;
      assert m / 2 == p - 1 && m % 2 == 1;
      BitAndLowMask(t / 2, k - 1);
      calc {
        BitAnd(t, m);
        2 * BitAnd(t / 2, p - 1) + t % 2;
        2 * ((t / 2) % p) + t % 2;
        { DivModDouble(t, p); }
        t % Pow2(k);
      }
    }
  }

  /** With a low-bit mask, the AND is clear exactly when `t` is a multiple of 2^k. */
  lemma LowMaskClearIffMultiple(t: nat, k: nat)
    ensures MaskClear(t, Pow2(k) - 1) <==> t % Pow2(k) == 0
  {
    BitAndLowMask(t, k);
  }

  /** Two distinct multiples of s are at least s apart. */
  lemma MultiplesAreSpaced(a: nat, b: nat, s: nat)
    requires s > 0 && a % s == 0 && b % s == 0 && a < b
    ensures b - a >= s
  {
    var i := a / s;
    var j := b / s;
    assert a == i * s && b == j * s;
    if j <= i {
      MulLeft(j, i, s);
      assert false;
    }
    MulLeft(i + 1, j, s);
    assert (i + 1) * s == i * s + s;
  }
}
