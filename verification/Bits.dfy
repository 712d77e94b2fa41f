/** Unpacked bits, soft bits and powers of two: the vocabulary of the
    convolutional coder (include/osmocom/core/bits.h). */
module Bits {
  /** An unpacked bit, `ubit_t`. */
  type Bit = b: int | b == 0 || b == 1

  /** A soft bit, `sbit_t`: the sign carries the bit (negative is 1), 0 means "unknown". */
  type SBit = x: int | -128 <= x <= 127

  datatype Option<+T> = None | Some(value: T)

  function Pow2(n: nat): (p: nat)
    ensures p >= 1
  {
    if n == 0 then 1 else 2 * Pow2(n - 1)
  }

  /** Bit `k` of `v`, counted from the least significant one: (v >> k) & 1. */
  function BitAt(v: nat, k: nat): Bit {
    if k == 0 then v % 2 else BitAt(v / 2, k - 1)
  }

  lemma MulMono(a: nat, b: nat, d: nat)
    requires a <= b
    ensures a * d <= b * d
  {
  }

  /** Two numbers below 2^n with the same n low bits are equal. */
  lemma {:induction false} SameBitsSameValue(n: nat, v: nat, w: nat)
    requires v < Pow2(n) && w < Pow2(n)
    requires forall k :: 0 <= k < n ==> BitAt(v, k) == BitAt(w, k)
    ensures v == w
  {
    if n == 0 {
    } else {
      forall k | 0 <= k < n - 1
        ensures BitAt(v / 2, k) == BitAt(w / 2, k)
      {
        assert BitAt(v, k + 1) == BitAt(w, k + 1);
      }
      SameBitsSameValue(n - 1, v / 2, w / 2);
      assert BitAt(v, 0) == BitAt(w, 0);
      assert v % 2 == w % 2;
    }
  }

  // ---------------------------------------------------------------------------
  // Products and remainders

  /** d * n, without asking the solver to multiply. */
  function Times(d: nat, n: nat): nat {
    if n == 0 then 0 else Times(d, n - 1) + d
  }

  lemma {:induction false} TimesIsProduct(d: nat, n: nat)
    ensures Times(d, n) == n * d
  {
    if n == 0 {
    } else {
      TimesIsProduct(d, n - 1);
      assert n * d == (n - 1) * d + d;
    }
  }

  lemma {:induction false} TimesMono(d: nat, m: nat, n: nat)
    requires m <= n
    ensures Times(d, m) <= Times(d, n)
  {
    if m == n {
    } else {
      TimesMono(d, m, n - 1);
    }
  }

  lemma {:induction false} TimesAdd(d: nat, m: nat, n: nat)
    ensures Times(d, m + n) == Times(d, m) + Times(d, n)
    decreases n
  {
    if n == 0 {
    } else {
      TimesAdd(d, m, n - 1);
    }
  }

  lemma {:induction false} ModUnique(v: nat, d: nat, q: nat, r: nat)
    requires d > 0 && v == q * d + r && r < d
    ensures v % d == r
  {
    var q' := v / d;
    if q' < q {
      MulMono(q' + 1, q, d);
    } else if q < q' {
      MulMono(q + 1, q', d);
    }
  }

  lemma SmallMod(v: nat, d: nat)
    requires v < d
    ensures v % d == v
  {
  }

  lemma {:induction false} HalfMod(v: nat, n: nat)
    requires n >= 1
    ensures (2 * v) % Pow2(n) == 2 * (v % Pow2(n - 1))
    ensures (2 * v + 1) % Pow2(n) == 2 * (v % Pow2(n - 1)) + 1
  {
    var d := Pow2(n - 1);
    var q, r := v / d, v % d;
    assert 2 * v == q * (2 * d) + 2 * r;
    ModUnique(2 * v, 2 * d, q, 2 * r);
    ModUnique(2 * v + 1, 2 * d, q, 2 * r + 1);
  }

  lemma {:induction false} BitMod(v: nat, b: Bit, n: nat)
    requires n >= 1
    ensures (2 * v + b) % Pow2(n) == 2 * (v % Pow2(n - 1)) + b
  {
    HalfMod(v, n);
  }

  /** Reducing modulo a larger power of two does not change the remainder by a smaller one. */
  lemma {:induction false} ModOfMod(v: nat, m: nat, n: nat)
    requires n <= m
    ensures (v % Pow2(m)) % Pow2(n) == v % Pow2(n)
  {
    if n == 0 {
    } else {
      var w, b: Bit := v / 2, v % 2;
      assert v == 2 * w + b;
      ModOfMod(w, m - 1, n - 1);
      BitMod(w, b, m);
      BitMod(w, b, n);
      BitMod(w % Pow2(m - 1), b, n);
    }
  }
}
