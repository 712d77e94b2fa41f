/** Polynomials over GF(2) and the cyclic checks built on them: the register of src/core/crcXXgen.c.tpl and
    src/core/crc16.c, and which changes of a block it cannot see. */
module Gf2 {
  import opened Bits

  /** A polynomial, the coefficient of the highest power first. */
  type Poly = seq<bool>

  /** Bits as a polynomial. */
  function Bools(bits: seq<Bit>): (p: Poly)
    ensures |p| == |bits|
  {
    seq(|bits|, i requires 0 <= i < |bits| => bits[i] == 1)
  }

  function Zeros(n: nat): (z: Poly)
    ensures |z| == n
  {
    seq(n, i => false)
  }

  /** Sum, and difference. */
  function Xor(a: Poly, b: Poly): (c: Poly)
    requires |a| == |b|
    ensures |c| == |a|
  {
    seq(|a|, i requires 0 <= i < |a| => a[i] != b[i])
  }

  function Scale(b: bool, g: Poly): (s: Poly)
    ensures |s| == |g|
  {
    if b then g else Zeros(|g|)
  }

  /** A generator: first and last coefficient are 1. */
  predicate Generator(g: Poly) {
    |g| >= 2 && g[0] && g[|g| - 1]
  }

  /** Schoolbook product of a generator and any polynomial. */
  function Product(g: Poly, q: Poly): (p: Poly)
    requires |g| >= 1
    ensures |p| == |q| + |g| - 1
  {
    if q == [] then Zeros(|g| - 1)
    else
      var n := |q| - 1;
      Xor(Product(g, q[..n]) + [false], Zeros(n) + Scale(q[n], g))
  }

  ghost predicate IsProduct(g: Poly, q: Poly, w: Poly)
    requires |g| >= 1
  {
    w == Product(g, q)
  }

  ghost predicate Multiple(g: Poly, w: Poly)
    requires |g| >= 1
  {
    exists q :: IsProduct(g, q, w)
  }

  // ---------------------------------------------------------------------------
  // Sums

  lemma XorSelf(a: Poly)
    ensures Xor(a, a) == Zeros(|a|)
  {
  }

  lemma XorZeros(a: Poly)
    ensures Xor(a, Zeros(|a|)) == a && Xor(Zeros(|a|), a) == a
  {
  }

  lemma XorAppend(a: Poly, b: Poly, c: Poly, d: Poly)
    requires |a| == |b| && |c| == |d|
    ensures Xor(a + c, b + d) == Xor(a, b) + Xor(c, d)
  {
  }

  /** Four sums in two orders. */
  lemma XorSwap(a: Poly, b: Poly, c: Poly, d: Poly)
    requires |a| == |b| == |c| == |d|
    ensures Xor(Xor(a, b), Xor(c, d)) == Xor(Xor(a, c), Xor(b, d))
  {
  }

  lemma XorCancels(a: Poly, b: Poly)
    requires |a| == |b| && Xor(a, b) == Zeros(|a|)
    ensures a == b
  {
    forall i | 0 <= i < |a|
      ensures a[i] == b[i]
    {
      assert Xor(a, b)[i] == Zeros(|a|)[i];
    }
  }

  lemma ScaleSum(g: Poly, a: bool, b: bool)
    ensures Scale(a != b, g) == Xor(Scale(a, g), Scale(b, g))
  {
  }

  lemma {:induction false} ProductSum(g: Poly, p: Poly, q: Poly)
    requires |g| >= 1 && |p| == |q|
    ensures Product(g, Xor(p, q)) == Xor(Product(g, p), Product(g, q))
    decreases |p|
  {
    if p == [] {
      XorSelf(Zeros(|g| - 1));
    } else {
      var n := |p| - 1;
      ProductSum(g, p[..n], q[..n]);
      assert Xor(p, q)[..n] == Xor(p[..n], q[..n]);
      ScaleSum(g, p[n], q[n]);
      XorAppend(Product(g, p[..n]), Product(g, q[..n]), [false], [false]);
      XorAppend(Zeros(n), Zeros(n), Scale(p[n], g), Scale(q[n], g));
      XorSelf(Zeros(n));
      assert Xor([false], [false]) == [false];
      XorSwap(Product(g, p[..n]) + [false], Product(g, q[..n]) + [false],
              Zeros(n) + Scale(p[n], g), Zeros(n) + Scale(q[n], g));
    }
  }

  lemma {:induction false} ProductZeros(g: Poly, n: nat)
    requires |g| >= 1
    ensures Product(g, Zeros(n)) == Zeros(n + |g| - 1)
  {
    if n == 0 {
    } else {
      ProductZeros(g, n - 1);
      assert Zeros(n)[..n - 1] == Zeros(n - 1);
    }
  }

  /** Adding a multiple neither makes nor breaks a multiple. */
  lemma {:induction false} MultipleSum(g: Poly, a: Poly, b: Poly)
    requires |g| >= 1 && |a| == |b| && Multiple(g, a)
    ensures Multiple(g, b) <==> Multiple(g, Xor(a, b))
  {
    var p :| IsProduct(g, p, a);
    if Multiple(g, b) {
      var q :| IsProduct(g, q, b);
      ProductSum(g, p, q);
      assert IsProduct(g, Xor(p, q), Xor(a, b));
    }
    if Multiple(g, Xor(a, b)) {
      var q :| IsProduct(g, q, Xor(a, b));
      ProductSum(g, p, q);
      assert Xor(a, Xor(a, b)) == b;
      assert IsProduct(g, Xor(p, q), b);
    }
  }

  // ---------------------------------------------------------------------------
  // Multiples that begin or end with zeros

  /** The last factor changes no coefficient before it. */
  lemma {:induction false} FrontBit(g: Poly, q: Poly, i: nat)
    requires |g| >= 1 && i + 1 < |q|
    ensures Product(g, q)[i] == Product(g, q[..|q| - 1])[i]
  {
  }

  /** After zeros it is itself the next one. */
  lemma {:induction false} NextBit(g: Poly, q: Poly)
    requires Generator(g) && q != [] && q[..|q| - 1] == Zeros(|q| - 1)
    ensures Product(g, q)[|q| - 1] == q[|q| - 1]
  {
    ProductZeros(g, |q| - 1);
  }

  /** A multiple of degree below the generator's is 0. */
  lemma {:induction false} HighZeros(g: Poly, q: Poly)
    requires Generator(g) && forall i :: 0 <= i < |q| ==> !Product(g, q)[i]
    ensures q == Zeros(|q|)
    decreases |q|
  {
    if q == [] {
    } else {
      var n := |q| - 1;
      forall i | 0 <= i < n
        ensures !Product(g, q[..n])[i]
      {
        FrontBit(g, q, i);
      }
      HighZeros(g, q[..n]);
      NextBit(g, q);
      LastZero(q);
    }
  }

  lemma LastZero(q: Poly)
    requires q != [] && q[..|q| - 1] == Zeros(|q| - 1) && !q[|q| - 1]
    ensures q == Zeros(|q|)
  {
    assert q == q[..|q| - 1] + [q[|q| - 1]];
  }

  lemma LastOfSum(a: Poly, z: Poly, s: Poly)
    requires |a| + 1 == |z| + |s| && s != []
    ensures Xor(a + [false], z + s)[|a|] == s[|s| - 1]
  {
  }

  /** The last coefficient of a product. */
  lemma {:induction false} LowBit(g: Poly, q: Poly)
    requires Generator(g) && q != []
    ensures Product(g, q)[|q| + |g| - 2] == q[|q| - 1]
  {
    var n := |q| - 1;
    LastOfSum(Product(g, q[..n]), Zeros(n), Scale(q[n], g));
  }

  /** A multiple of x that is a multiple of a generator is x times one. */
  lemma {:induction false} LowZero(g: Poly, q: Poly, w: Poly)
    requires Generator(g) && q != [] && Product(g, q) == w + [false]
    ensures Product(g, q[..|q| - 1]) == w
  {
    LowBit(g, q);
    var n := |q| - 1;
    XorZeros(Product(g, q[..n]) + [false]);
    assert Zeros(n) + Zeros(|g|) == Zeros(n + |g|);
    assert (Product(g, q[..n]) + [false])[..n + |g| - 1] == (w + [false])[..n + |g| - 1];
  }

  lemma {:induction false} LowZeros(g: Poly, q: Poly, w: Poly, n: nat)
    requires Generator(g) && |w| >= |g| - 1 && Product(g, q) == w + Zeros(n)
    ensures n <= |q| && Product(g, q[..|q| - n]) == w
    decreases n
  {
    if n == 0 {
      assert w + Zeros(0) == w && q[..|q|] == q;
    } else {
      assert w + Zeros(n) == (w + Zeros(n - 1)) + [false];
      LowZero(g, q, w + Zeros(n - 1));
      LowZeros(g, q[..|q| - 1], w, n - 1);
      assert q[..|q| - 1][..|q| - n] == q[..|q| - n];
    }
  }

  /** All ones of `e` lie among `width` positions from `from` on. */
  predicate Burst(e: Poly, from: nat, width: nat) {
    forall i :: 0 <= i < |e| && e[i] ==> from <= i < from + width
  }

  /** No burst that is shorter than the generator is a multiple of it. */
  lemma {:induction false} BurstIsNoMultiple(g: Poly, e: Poly, from: nat)
    requires Generator(g) && Burst(e, from, |g| - 1) && e != Zeros(|e|)
    ensures !Multiple(g, e)
  {
    if Multiple(g, e) {
      var q :| IsProduct(g, q, e);
      BurstFactor(g, q, e, from);
      ProductZeros(g, |q|);
    }
  }

  lemma {:induction false} BurstFactor(g: Poly, q: Poly, e: Poly, from: nat)
    requires Generator(g) && Burst(e, from, |g| - 1) && e == Product(g, q)
    ensures q == Zeros(|q|)
  {
    var end := if from + |g| - 1 <= |e| then from + |g| - 1 else |e|;
    var w, n := e[..end], |e| - end;
    assert e == w + Zeros(n);
    LowZeros(g, q, w, n);
    var front := q[..|q| - n];
    forall i | 0 <= i < |front|
      ensures !Product(g, front)[i]
    {
      assert w[i] == e[i];
    }
    HighZeros(g, front);
    ProductZeros(g, |front|);
    assert e == Zeros(|e|);
    HighZeros(g, q);
  }

  // ---------------------------------------------------------------------------
  // The register

  /** One bit into the register; `r[0]` is its highest bit. */
  function Shift(g: Poly, r: Poly, d: bool): (s: Poly)
    requires |g| == |r| + 1 && |r| >= 1
    ensures |s| == |r|
  {
    Xor(r[1..] + [false], Scale(r[0] != d, g[1..]))
  }

  function Register(g: Poly, r: Poly, ds: Poly): (s: Poly)
    requires |g| == |r| + 1 && |r| >= 1
    ensures |s| == |r|
    decreases |ds|
  {
    if ds == [] then r else Shift(g, Register(g, r, ds[..|ds| - 1]), ds[|ds| - 1])
  }

  lemma {:induction false} RegisterAppend(g: Poly, r: Poly, a: Poly, b: Poly)
    requires |g| == |r| + 1 && |r| >= 1
    ensures Register(g, r, a + b) == Register(g, Register(g, r, a), b)
    decreases |b|
  {
    if b == [] {
      assert a + b == a;
    } else {
      assert (a + b)[..|a + b| - 1] == a + b[..|b| - 1];
      RegisterAppend(g, r, a, b[..|b| - 1]);
    }
  }

  lemma ShiftSum(g: Poly, r: Poly, r': Poly, d: bool, d': bool)
    requires |g| == |r| + 1 == |r'| + 1 && |r| >= 1
    ensures Shift(g, Xor(r, r'), d != d') == Xor(Shift(g, r, d), Shift(g, r', d'))
  {
    ScaleSum(g[1..], r[0] != d, r'[0] != d');
    assert Xor(r, r')[1..] == Xor(r[1..], r'[1..]);
    XorAppend(r[1..], r'[1..], [false], [false]);
    assert Xor([false], [false]) == [false];
    XorSwap(r[1..] + [false], r'[1..] + [false], Scale(r[0] != d, g[1..]), Scale(r'[0] != d', g[1..]));
  }

  /** The register is linear in its start and in the data. */
  lemma {:induction false} RegisterSum(g: Poly, r: Poly, r': Poly, a: Poly, b: Poly)
    requires |g| == |r| + 1 == |r'| + 1 && |r| >= 1 && |a| == |b|
    ensures Register(g, Xor(r, r'), Xor(a, b)) == Xor(Register(g, r, a), Register(g, r', b))
    decreases |a|
  {
    if a == [] {
    } else {
      var n := |a| - 1;
      RegisterSum(g, r, r', a[..n], b[..n]);
      assert Xor(a, b)[..n] == Xor(a[..n], b[..n]);
      ShiftSum(g, Register(g, r, a[..n]), Register(g, r', b[..n]), a[n], b[n]);
    }
  }

  /** Zeros at the high end are shifted out without a trace. */
  lemma {:induction false} NoFeedback(g: Poly, t: Poly, n: nat)
    requires |g| == n + |t| + 1 && n + |t| >= 1
    ensures Register(g, Zeros(n) + t, Zeros(n)) == t + Zeros(n)
    decreases n
  {
    if n == 0 {
      assert Zeros(0) + t == t == t + Zeros(0);
    } else {
      NoFeedback(g, [false] + t, n - 1);
      assert Zeros(n) + t == Zeros(n - 1) + ([false] + t);
      assert Zeros(n)[..n - 1] == Zeros(n - 1);
      ShiftOutZero(g, t, n - 1);
    }
  }

  lemma ShiftOutZero(g: Poly, t: Poly, n: nat)
    requires |g| == n + |t| + 2
    ensures Shift(g, [false] + t + Zeros(n), false) == t + Zeros(n + 1)
  {
    XorZeros(t + Zeros(n + 1));
  }

  /** Data may be added to the register at once and then shifted through. */
  lemma {:induction false} DataAtOnce(g: Poly, r: Poly, ds: Poly)
    requires |g| == |r| + 1 && |r| >= 1 && |ds| <= |r|
    ensures Register(g, r, ds) == Register(g, Xor(r, ds + Zeros(|r| - |ds|)), Zeros(|ds|))
    decreases |ds|
  {
    if ds == [] {
      assert [] + Zeros(|r|) == Zeros(|r|);
      XorZeros(r);
    } else {
      var n := |ds| - 1;
      DataAtOnce(g, r, ds[..n]);
      assert ds == ds[..n] + [ds[n]];
      OneMoreAtOnce(g, r, ds[..n], ds[n]);
    }
  }

  lemma {:induction false} OneMoreAtOnce(g: Poly, r: Poly, front: Poly, d: bool)
    requires |g| == |r| + 1 && |front| < |r|
    ensures Shift(g, Register(g, Xor(r, front + Zeros(|r| - |front|)), Zeros(|front|)), d) ==
            Register(g, Xor(r, front + [d] + Zeros(|r| - |front| - 1)), Zeros(|front| + 1))
  {
    var n, rest := |front|, Zeros(|r| - |front| - 1);
    var all, one := Xor(r, front + Zeros(|r| - n)), Zeros(n) + ([d] + rest);
    SplitData(r, front, d);
    RegisterSum(g, all, one, Zeros(n), Zeros(n));
    XorSelf(Zeros(n));
    NoFeedback(g, [d] + rest, n);
    assert [d] + rest + Zeros(n) == [d] + Zeros(|r| - 1);
    assert Zeros(n + 1)[..n] == Zeros(n);
    FirstFlips(g, Register(g, all, Zeros(n)), d);
  }

  lemma SplitData(r: Poly, front: Poly, d: bool)
    requires |front| < |r|
    ensures var n, rest := |front|, Zeros(|r| - |front| - 1);
            Xor(Xor(r, front + Zeros(|r| - n)), Zeros(n) + ([d] + rest)) == Xor(r, front + [d] + rest)
  {
  }

  lemma FirstFlips(g: Poly, r: Poly, d: bool)
    requires |g| == |r| + 1 && |r| >= 1
    ensures Shift(g, Xor(r, [d] + Zeros(|r| - 1)), false) == Shift(g, r, d)
  {
    assert Xor(r, [d] + Zeros(|r| - 1))[1..] == r[1..];
  }

  /** Division: data followed by what the register holds is a multiple of the generator. */
  lemma {:induction false} Division(g: Poly, ds: Poly) returns (q: Poly)
    requires Generator(g)
    ensures |q| == |ds| && IsProduct(g, q, ds + Register(g, Zeros(|g| - 1), ds))
    decreases |ds|
  {
    if ds == [] {
      q := [];
      assert [] + Zeros(|g| - 1) == Zeros(|g| - 1);
    } else {
      var n := |ds| - 1;
      var q' := Division(g, ds[..n]);
      var r := Register(g, Zeros(|g| - 1), ds[..n]);
      q := q' + [r[0] != ds[n]];
      assert q[..n] == q' && ds == ds[..n] + [ds[n]];
      DivisionStep(g, ds[..n], r, ds[n]);
    }
  }

  lemma {:induction false} DivisionStep(g: Poly, front: Poly, r: Poly, d: bool)
    requires Generator(g) && |r| == |g| - 1
    ensures Xor(front + r + [false], Zeros(|front|) + Scale(r[0] != d, g)) == front + [d] + Shift(g, r, d)
  {
    var b := r[0] != d;
    CarryOut(g, r, d);
    Associative(front, r, [false]);
    XorAppend(front, Zeros(|front|), r + [false], Scale(b, g));
    XorZeros(front);
    Associative(front, [d], Shift(g, r, d));
  }

  lemma CarryOut(g: Poly, r: Poly, d: bool)
    requires Generator(g) && |r| == |g| - 1
    ensures Xor(r + [false], Scale(r[0] != d, g)) == [d] + Shift(g, r, d)
  {
  }

  lemma Associative(a: Poly, b: Poly, c: Poly)
    ensures a + b + c == a + (b + c)
  {
  }

  /** Only the register's content makes a multiple. */
  lemma {:induction false} RemainderUnique(g: Poly, ds: Poly, r: Poly)
    requires Generator(g) && |r| == |g| - 1
    ensures Multiple(g, ds + r) <==> r == Register(g, Zeros(|g| - 1), ds)
  {
    var s := Register(g, Zeros(|g| - 1), ds);
    var q := Division(g, ds);
    if Multiple(g, ds + r) {
      var q' :| IsProduct(g, q', ds + r);
      assert |q'| == |ds|;
      ProductSum(g, q, q');
      XorAppend(ds, ds, s, r);
      XorSelf(ds);
      assert Product(g, Xor(q, q')) == Zeros(|ds|) + Xor(s, r);
      HighZeros(g, Xor(q, q'));
      ProductZeros(g, |ds|);
      forall i | 0 <= i < |s|
        ensures Xor(s, r)[i] == Zeros(|s|)[i]
      {
        assert (Zeros(|ds|) + Xor(s, r))[|ds| + i] == Zeros(|ds| + |g| - 1)[|ds| + i];
      }
      XorCancels(s, r);
    }
  }

  // ---------------------------------------------------------------------------
  // What a check cannot see

  /** Two data blocks leave the same register exactly if their difference is a multiple of the generator. */
  lemma {:induction false} SameRegister(g: Poly, r: Poly, a: Poly, b: Poly)
    requires Generator(g) && |r| == |g| - 1 && |a| == |b|
    ensures Register(g, r, a) == Register(g, r, b) <==> Multiple(g, Xor(a, b) + Zeros(|r|))
  {
    RegisterSum(g, r, r, a, b);
    XorSelf(r);
    RemainderUnique(g, Xor(a, b), Zeros(|r|));
    if Register(g, r, a) == Register(g, r, b) {
      XorSelf(Register(g, r, a));
    } else if Register(g, Zeros(|r|), Xor(a, b)) == Zeros(|r|) {
      XorCancels(Register(g, r, a), Register(g, r, b));
    }
  }

  /** A burst not longer than the register changes it. */
  lemma {:induction false} BurstChangesRegister(g: Poly, r: Poly, a: Poly, b: Poly, from: nat)
    requires Generator(g) && |r| == |g| - 1 && |a| == |b| && a != b && Burst(Xor(a, b), from, |r|)
    ensures Register(g, r, a) != Register(g, r, b)
  {
    var e := Xor(a, b) + Zeros(|r|);
    if e == Zeros(|e|) {
      forall i | 0 <= i < |a|
        ensures Xor(a, b)[i] == Zeros(|a|)[i]
      {
        assert e[i] == Zeros(|e|)[i];
      }
      XorCancels(a, b);
    }
    assert Burst(e, from, |r|);
    BurstIsNoMultiple(g, e, from);
    SameRegister(g, r, a, b);
  }
}
