/** What the tables of utils/conv_gen.py compute: with the bits that enter the register as a polynomial over GF(2),
    every output is its product with the generator, and the message its product with the divider. */
module ConvProduct {
  import opened Bits
  import opened ConvCode
  import opened ConvPoly
  import Gf2

  /** The taps of a generator as a polynomial, delay 0 first. */
  function Taps(sel: nat, n: nat): (g: Gf2.Poly)
    ensures |g| == n
  {
    if n == 0 then [] else [sel % 2 == 1] + Taps(sel / 2, n - 1)
  }

  /** The bit that a step shifts into the register. */
  predicate Enters(c: Code, s: nat, m: Move)
    requires s < c.NumStates()
  {
    Next(c, s, m) % 2 == 1
  }

  /** The bits that enter the register on a path from state 0. */
  function Entered(c: Code, ms: seq<Move>): (a: Gf2.Poly)
    ensures |a| == |ms|
  {
    if ms == [] then []
    else
      var front := ms[..|ms| - 1];
      Entered(c, front) + [Enters(c, Run(c, 0, front), ms[|ms| - 1])]
  }

  /** Output `i` of a step. */
  predicate Sends(c: Code, s: nat, m: Move, i: nat)
    requires s < c.NumStates() && i < c.N
  {
    OutBits(c.N, Out(c, s, m))[i] == 1
  }

  /** Output `i` of every step. */
  function OutputStream(c: Code, ms: seq<Move>, i: nat): (y: Gf2.Poly)
    requires i < c.N
    ensures |y| == |ms|
  {
    if ms == [] then []
    else
      var front := ms[..|ms| - 1];
      OutputStream(c, front, i) + [Sends(c, Run(c, 0, front), ms[|ms| - 1], i)]
  }

  /** That is every N-th coded bit. */
  lemma {:induction false} StreamOfCoded(c: Code, ms: seq<Move>, i: nat, t: nat)
    requires i < c.N && t < |ms|
    ensures Times(c.N, t) + i < |Coded(c, 0, ms)|
    ensures OutputStream(c, ms, i)[t] == (Coded(c, 0, ms)[Times(c.N, t) + i] == 1)
    decreases |ms|
  {
    var n := |ms| - 1;
    TimesMono(c.N, t + 1, n + 1);
    if t < n {
      StreamOfCoded(c, ms[..n], i, t);
    }
  }

  // ---------------------------------------------------------------------------
  // A register as a product

  lemma LowBit(q: nat, b: Bit)
    ensures (2 * q + b) % 2 == b
  {
  }

  /** Every step shifts the register left. */
  ghost predicate Shifts(c: Code) {
    c.K >= 2 && forall s, m :: 0 <= s < c.NumStates() ==> Next(c, s, m) / 2 == s % Pow2(c.K - 2)
  }

  /** The parity of the taps over the register and the bit that enters it. */
  predicate Odd(c: Code, s: nat, m: Move, sel: nat)
    requires s < c.NumStates()
  {
    Combine(Source(s, Next(c, s, m)), sel, c.K) == 1
  }

  /** That parity at every step. */
  function Filtered(c: Code, ms: seq<Move>, sel: nat): (y: Gf2.Poly)
    ensures |y| == |ms|
  {
    if ms == [] then []
    else
      var front := ms[..|ms| - 1];
      Filtered(c, front, sel) + [Odd(c, Run(c, 0, front), ms[|ms| - 1], sel)]
  }

  /** What the register `s` adds to the next `n` parities if only zeros enter. */
  function Pending(s: nat, sel: nat, n: nat): (p: Gf2.Poly)
    ensures |p| == n
  {
    if n == 0 then [] else [Combine(s, sel / 2, n) == 1] + Pending(s, sel / 2, n - 1)
  }

  lemma {:induction false} CombineEmpty(sel: nat, n: nat)
    ensures Combine(0, sel, n) == 0
  {
    if n == 0 {
    } else {
      CombineEmpty(sel / 2, n - 1);
    }
  }

  lemma {:induction false} PendingEmpty(sel: nat, n: nat)
    ensures Pending(0, sel, n) == Gf2.Zeros(n)
  {
    if n == 0 {
    } else {
      CombineEmpty(sel / 2, n);
      PendingEmpty(sel / 2, n - 1);
    }
  }

  /** Only the low bits count. */
  lemma {:induction false} CombineMod(v: nat, sel: nat, n: nat, m: nat)
    requires n <= m
    ensures Combine(v % Pow2(m), sel, n) == Combine(v, sel, n)
    decreases n
  {
    if n == 0 {
    } else {
      var w, b: Bit := v / 2, v % 2;
      BitMod(w, b, m);
      assert v % Pow2(m) == 2 * (w % Pow2(m - 1)) + b;
      CombineMod(w, sel / 2, n - 1, m - 1);
    }
  }

  lemma {:induction false} PendingMod(v: nat, sel: nat, n: nat, m: nat)
    requires n <= m
    ensures Pending(v % Pow2(m), sel, n) == Pending(v, sel, n)
    decreases n
  {
    if n == 0 {
    } else {
      CombineMod(v, sel / 2, n, m);
      PendingMod(v, sel / 2, n - 1, m);
    }
  }

  lemma {:induction false} ParityMore(s: nat, x: Bit, sel: nat, n: nat)
    requires n >= 1
    ensures (Combine(2 * s + x, sel, n) == 1) == ((Combine(s, sel / 2, n - 1) == 1) != (x == 1 && sel % 2 == 1))
  {
    assert (2 * s + x) / 2 == s && (2 * s + x) % 2 == x;
  }

  lemma PendingTail(s: nat, sel: nat, n: nat, j: nat)
    requires j + 1 < n
    ensures Pending(s, sel, n)[j + 1] == Pending(s, sel / 2, n - 1)[j]
  {
  }

  lemma TapsTail(sel: nat, n: nat, j: nat)
    requires j + 1 < n
    ensures Taps(sel, n)[j + 1] == Taps(sel / 2, n - 1)[j]
  {
  }

  /** One more bit enters: everything pending comes one step nearer, and the bit adds its taps. */
  lemma {:induction false} PendingMore(s: nat, x: Bit, sel: nat, n: nat, j: nat)
    requires j < n
    ensures Pending(2 * s + x, sel, n)[j] ==
            ((j + 1 < n && Pending(s, sel, n)[j + 1]) != (x == 1 && Taps(sel / 2, n)[j]))
    decreases n
  {
    if j == 0 {
      ParityMore(s, x, sel / 2, n);
    } else {
      PendingMore(s, x, sel / 2, n - 1, j - 1);
      PendingTail(2 * s + x, sel, n, j - 1);
      TapsTail(sel / 2, n, j - 1);
      if j + 1 < n {
        PendingTail(s, sel, n, j);
      }
    }
  }

  /** `q` is a product `p` with the factor `x` more, behind `n` others. */
  ghost predicate Grows(g: Gf2.Poly, n: nat, x: bool, p: Gf2.Poly, q: Gf2.Poly) {
    && |q| == n + |g| && |p| + 1 == |q|
    && forall j :: 0 <= j < |q| ==> q[j] == ((j < |p| && p[j]) != (j >= n && x && g[j - n]))
  }

  lemma {:induction false} ProductGrows(g: Gf2.Poly, a: Gf2.Poly, x: bool)
    requires |g| >= 1
    ensures Grows(g, |a|, x, Gf2.Product(g, a), Gf2.Product(g, a + [x]))
  {
    assert (a + [x])[..|a|] == a;
  }

  /** `p` begins with `y` and goes on with `z`. */
  ghost predicate Splits(p: Gf2.Poly, y: Gf2.Poly, z: Gf2.Poly) {
    && |p| == |y| + |z|
    && (forall j :: 0 <= j < |y| ==> p[j] == y[j])
    && forall j :: 0 <= j < |z| ==> p[|y| + j] == z[j]
  }

  lemma SplitsAt(p: Gf2.Poly, y: Gf2.Poly, z: Gf2.Poly, j: nat)
    requires Splits(p, y, z) && j < |z|
    ensures p[|y| + j] == z[j]
  {
  }

  lemma SplitsFront(g: Gf2.Poly, n: nat, x: bool, p: Gf2.Poly, q: Gf2.Poly, y: Gf2.Poly, z: Gf2.Poly, j: nat)
    requires |g| >= 2 && |y| == n && |z| == |g| - 1 && Splits(p, y, z) && Grows(g, n, x, p, q) && j <= n
    ensures q[j] == if j < n then y[j] else z[0] != (x && g[0])
  {
    SplitsAt(p, y, z, 0);
  }

  lemma SplitsBack(g: Gf2.Poly, n: nat, x: bool, p: Gf2.Poly, q: Gf2.Poly, y: Gf2.Poly, z: Gf2.Poly, i: nat)
    requires |g| >= 2 && |y| == n && |z| == |g| - 1 && Splits(p, y, z) && Grows(g, n, x, p, q) && 1 <= i <= |z|
    ensures q[n + i] == ((i < |z| && z[i]) != (x && g[i]))
  {
    if i < |z| {
      SplitsAt(p, y, z, i);
    }
  }

  /** One factor more: one more coefficient is final, the others are still pending. */
  lemma {:induction false} SplitsMore(g: Gf2.Poly, a: Gf2.Poly, x: bool, y: Gf2.Poly, z: Gf2.Poly, e: bool,
                                      z': Gf2.Poly)
    requires |g| >= 2 && |y| == |a| && |z| == |z'| == |g| - 1 && Splits(Gf2.Product(g, a), y, z)
    requires e == (z[0] != (x && g[0]))
    requires forall j :: 0 <= j < |z'| ==> z'[j] == ((j + 1 < |z| && z[j + 1]) != (x && g[j + 1]))
    ensures Splits(Gf2.Product(g, a + [x]), y + [e], z')
  {
    var p, q := Gf2.Product(g, a), Gf2.Product(g, a + [x]);
    ProductGrows(g, a, x);
    forall j | 0 <= j < |y + [e]|
      ensures q[j] == (y + [e])[j]
    {
      SplitsFront(g, |a|, x, p, q, y, z, j);
    }
    forall j | 0 <= j < |z'|
      ensures q[|y + [e]| + j] == z'[j]
    {
      SplitsBack(g, |a|, x, p, q, y, z, j + 1);
    }
  }

  /** After the bits `a` the parities `y` are final, and the register `s` is pending. */
  ghost predicate Settled(sel: nat, k: nat, s: nat, a: Gf2.Poly, y: Gf2.Poly)
    requires k >= 2
  {
    |y| == |a| && Splits(Gf2.Product(Taps(sel, k), a), y, Pending(s, sel, k - 1))
  }

  lemma {:induction false} PendingAt(s: nat, x: Bit, sel: nat, k: nat, j: nat)
    requires k >= 2 && j < k - 1
    ensures Pending(2 * s + x, sel, k - 1)[j] ==
            ((j + 1 < k - 1 && Pending(s, sel, k - 1)[j + 1]) != (x == 1 && Taps(sel, k)[j + 1]))
  {
    PendingMore(s, x, sel, k - 1, j);
    TapsTail(sel, k, j);
  }

  /** The bit `x` enters the register `s`. */
  lemma {:induction false} FilterMore(s: nat, x: Bit, sel: nat, k: nat, a: Gf2.Poly, y: Gf2.Poly)
    requires k >= 2 && Settled(sel, k, s, a, y)
    ensures Settled(sel, k, 2 * s + x, a + [x == 1], y + [Combine(2 * s + x, sel, k) == 1])
  {
    var z, z' := Pending(s, sel, k - 1), Pending(2 * s + x, sel, k - 1);
    ParityMore(s, x, sel, k);
    forall j | 0 <= j < |z'|
      ensures z'[j] == ((j + 1 < |z| && z[j + 1]) != (x == 1 && Taps(sel, k)[j + 1]))
    {
      PendingAt(s, x, sel, k, j);
    }
    SplitsMore(Taps(sel, k), a, x == 1, y, z, Combine(2 * s + x, sel, k) == 1, z');
  }

  lemma {:induction false} FilterStep(c: Code, s: nat, m: Move, sel: nat, a: Gf2.Poly, y: Gf2.Poly)
    requires Shifts(c) && s < c.NumStates() && Settled(sel, c.K, s, a, y)
    ensures Settled(sel, c.K, Next(c, s, m), a + [Enters(c, s, m)], y + [Odd(c, s, m, sel)])
  {
    var x: Bit := Next(c, s, m) % 2;
    FilterMore(s, x, sel, c.K, a, y);
    ShiftedState(c, s, m);
    PendingMod(2 * s + x, sel, c.K - 1, c.K - 1);
  }

  /** The parities of all steps are the first coefficients of the product, and the rest of it is pending. */
  lemma {:induction false} FilterIsProduct(c: Code, ms: seq<Move>, sel: nat)
    requires Shifts(c)
    ensures Settled(sel, c.K, Run(c, 0, ms), Entered(c, ms), Filtered(c, ms, sel))
    decreases |ms|
  {
    if ms == [] {
      PendingEmpty(sel, c.K - 1);
    } else {
      var n := |ms| - 1;
      FilterIsProduct(c, ms[..n], sel);
      FilterStep(c, Run(c, 0, ms[..n]), ms[n], sel, Entered(c, ms[..n]), Filtered(c, ms[..n], sel));
    }
  }

  lemma {:induction false} ShiftedState(c: Code, s: nat, m: Move)
    requires Shifts(c) && s < c.NumStates()
    ensures Next(c, s, m) == (2 * s + Next(c, s, m) % 2) % Pow2(c.K - 1)
  {
    var t := Next(c, s, m);
    assert t / 2 == s % Pow2(c.K - 2);
    BitMod(s, t % 2, c.K - 1);
  }

  // ---------------------------------------------------------------------------
  // Codes with generators

  /** Output `i` is the parity of `sel`. */
  ghost predicate Generates(c: Code, sel: nat, i: nat) {
    i < c.N && forall s, m :: 0 <= s < c.NumStates() ==> Sends(c, s, m, i) == Odd(c, s, m, sel)
  }

  /** The data bit is the parity of `sel`. */
  ghost predicate Divides(c: Code, sel: nat) {
    forall s, b :: 0 <= s < c.NumStates() ==> Odd(c, s, Data(b), sel) == (b == 1)
  }

  lemma {:induction false} StreamIsFiltered(c: Code, ms: seq<Move>, sel: nat, i: nat)
    requires Generates(c, sel, i)
    ensures OutputStream(c, ms, i) == Filtered(c, ms, sel)
    decreases |ms|
  {
    if ms == [] {
    } else {
      var n := |ms| - 1;
      StreamIsFiltered(c, ms[..n], sel, i);
      var s := Run(c, 0, ms[..n]);
      assert Sends(c, s, ms[n], i) == Odd(c, s, ms[n], sel);
    }
  }

  /** A message one bit longer. */
  lemma {:induction false} LastBit(c: Code, msg: seq<Bit>) returns (s: nat)
    requires msg != []
    ensures var n := |msg| - 1;
            && DataMoves(msg)[..n] == DataMoves(msg[..n]) && s == Run(c, 0, DataMoves(msg[..n])) < c.NumStates()
            && Run(c, 0, DataMoves(msg)) == Next(c, s, Data(msg[n]))
            && Gf2.Bools(msg) == Gf2.Bools(msg[..n]) + [msg[n] == 1]
  {
    var n := |msg| - 1;
    assert DataMoves(msg)[..n] == DataMoves(msg[..n]);
    s := Run(c, 0, DataMoves(msg[..n]));
  }

  lemma {:induction false} MessageIsFiltered(c: Code, msg: seq<Bit>, sel: nat)
    requires Divides(c, sel)
    ensures Gf2.Bools(msg) == Filtered(c, DataMoves(msg), sel)
    decreases |msg|
  {
    if msg == [] {
    } else {
      var n := |msg| - 1;
      MessageIsFiltered(c, msg[..n], sel);
      var s := LastBit(c, msg);
      assert Odd(c, s, Data(msg[n]), sel) == (msg[n] == 1);
    }
  }

  lemma DataEnters(c: Code, s: nat, b: Bit)
    requires DataShifts(c) && s < c.NumStates()
    ensures Enters(c, s, Data(b)) == (b == 1)
  {
    LowBit(s % Pow2(c.K - 2), b);
  }

  /** Without divider the bits that enter are the message. */
  lemma {:induction false} MessageEnters(c: Code, msg: seq<Bit>)
    requires DataShifts(c)
    ensures Entered(c, DataMoves(msg)) == Gf2.Bools(msg)
    decreases |msg|
  {
    if msg == [] {
    } else {
      MessageEnters(c, msg[..|msg| - 1]);
      var s := LastBit(c, msg);
      DataEnters(c, s, msg[|msg| - 1]);
    }
  }

  lemma ZerosMore(a: Gf2.Poly, n: nat)
    requires n >= 1
    ensures a + Gf2.Zeros(n) == (a + Gf2.Zeros(n - 1)) + [false]
  {
  }

  lemma ZerosNone(a: Gf2.Poly)
    ensures a + Gf2.Zeros(0) == a
  {
  }

  lemma {:induction false} ProductShifted(g: Gf2.Poly, a: Gf2.Poly)
    requires |g| >= 1
    ensures Gf2.Product(g, a + [false]) == Gf2.Product(g, a) + [false]
  {
    ProductGrows(g, a, false);
  }

  /** Zeros at the end of a factor are zeros at the end of the product. */
  lemma {:induction false} ProductPadded(g: Gf2.Poly, a: Gf2.Poly, n: nat)
    requires |g| >= 1
    ensures Gf2.Product(g, a + Gf2.Zeros(n)) == Gf2.Product(g, a) + Gf2.Zeros(n)
  {
    if n == 0 {
      ZerosNone(a);
      ZerosNone(Gf2.Product(g, a));
    } else {
      ProductPadded(g, a, n - 1);
      ZerosMore(a, n);
      ZerosMore(Gf2.Product(g, a), n);
      ProductShifted(g, a + Gf2.Zeros(n - 1));
    }
  }

  /** The flush lets only zeros in. */
  lemma {:induction false} FlushEnters(c: Code, ms: seq<Move>, n: nat)
    requires FlushShifts(c)
    ensures Entered(c, ms + TailMoves(n)) == Entered(c, ms) + Gf2.Zeros(n)
  {
    if n == 0 {
      assert ms + TailMoves(0) == ms;
      ZerosNone(Entered(c, ms));
    } else {
      FlushEnters(c, ms, n - 1);
      var all := ms + TailMoves(n);
      assert all[..|all| - 1] == ms + TailMoves(n - 1) && all[|all| - 1] == Tail;
      ZerosMore(Entered(c, ms), n);
    }
  }

  /** A flushed block: each output is the product of its polynomial and the bits that enter. */
  lemma {:induction false} FlushedStream(c: Code, msg: seq<Bit>, sel: nat, i: nat)
    requires Shifts(c) && FlushShifts(c) && Generates(c, sel, i) && c.term.Flush?
    ensures OutputStream(c, BlockMoves(c, msg), i) == Gf2.Product(Taps(sel, c.K), Entered(c, DataMoves(msg)))
  {
    var a, ms, taps := Entered(c, DataMoves(msg)), BlockMoves(c, msg), Taps(sel, c.K);
    StreamIsFiltered(c, ms, sel, i);
    FilterIsProduct(c, ms, sel);
    FlushEnters(c, DataMoves(msg), c.K - 1);
    assert Entered(c, ms) == a + Gf2.Zeros(c.K - 1);
    ProductPadded(taps, a, c.K - 1);
    SameFront(Gf2.Product(taps, a), Gf2.Zeros(c.K - 1), OutputStream(c, ms, i), Pending(Run(c, 0, ms), sel, c.K - 1));
  }

  lemma SameFront(a: Gf2.Poly, b: Gf2.Poly, y: Gf2.Poly, z: Gf2.Poly)
    requires Splits(a + b, y, z) && |a| == |y|
    ensures a == y
  {
    forall j | 0 <= j < |a|
      ensures a[j] == y[j]
    {
      assert (a + b)[j] == a[j];
    }
  }

  // ---------------------------------------------------------------------------
  // The outputs of a polynomial code

  /** The polynomial behind output `i`: the systematic output of a recursive code is divider over divider. */
  function Sel(g: Polys, i: nat): nat
    requires i < |g.list|
  {
    if g.Systematic(i) then g.Divider() else g.Normal(i).num
  }

  lemma {:induction false} PolyShifts(g: Polys, len: nat, term: Term, puncture: Option<seq<int>>)
    requires g.Valid() && (puncture.Some? ==> PunctureList(puncture.value))
    ensures Shifts(PolyCode(g, len, term, puncture))
  {
    var c := PolyCode(g, len, term, puncture);
    forall s, m | 0 <= s < c.NumStates()
      ensures Next(c, s, m) / 2 == s % Pow2(c.K - 2)
    {
      match m
      case Data(b) =>
        PolyNext(g, len, term, puncture, s, b);
        Shift(g, s, b);
      case Tail =>
        PolyTail(g, len, term, puncture, s);
    }
  }

  lemma {:induction false} PolyOut(g: Polys, len: nat, term: Term, puncture: Option<seq<int>>, s: nat, b: Bit)
    requires g.Valid() && (puncture.Some? ==> PunctureList(puncture.value)) && s < Pow2(g.k - 1)
    ensures OutBits(|g.list|, Out(PolyCode(g, len, term, puncture), s, Data(b))) == g.NextOutput(s, b)
  {
    PackBits(g.NextOutput(s, b));
    assert b == 0 || b == 1;
  }

  lemma {:induction false} PolyTailOut(g: Polys, len: nat, term: Term, puncture: Option<seq<int>>, s: nat)
    requires g.Valid() && g.Recursive() && (puncture.Some? ==> PunctureList(puncture.value)) && s < Pow2(g.k - 1)
    ensures var c := PolyCode(g, len, term, puncture);
            OutBits(|g.list|, Out(c, s, Tail)) == g.NextTermOutput(s) && Next(c, s, Tail) == g.NextTermState(s)
  {
    PackBits(g.NextTermOutput(s));
  }

  lemma {:induction false} PlainTail(g: Polys, len: nat, term: Term, puncture: Option<seq<int>>, s: nat)
    requires g.Valid() && !g.Recursive() && (puncture.Some? ==> PunctureList(puncture.value)) && s < Pow2(g.k - 1)
    ensures var c := PolyCode(g, len, term, puncture);
            Out(c, s, Tail) == Out(c, s, Data(0)) && Next(c, s, Tail) == Next(c, s, Data(0))
  {
  }

  /** The bit that enters the register. */
  lemma {:induction false} EnteringBit(g: Polys, s: nat, b: Bit)
    requires g.Valid() && s < Pow2(g.k - 1)
    ensures Source(s, g.NextState(s, b)) == 2 * s + Combine(2 * s + b, g.Divider(), g.k)
  {
    Shift(g, s, b);
    LowBit(s % Pow2(g.k - 2), Combine(2 * s + b, g.Divider(), g.k));
  }

  /** The divider's parity over it is the data bit again. */
  lemma {:induction false} Feedback(s: nat, b: Bit, sel: nat, n: nat)
    requires n >= 1 && sel % 2 == 1
    ensures Combine(2 * s + Combine(2 * s + b, sel, n), sel, n) == b
  {
    ParityMore(s, b, sel, n);
    ParityMore(s, Combine(2 * s + b, sel, n), sel, n);
  }

  lemma {:induction false} DividerBit(g: Polys, s: nat, b: Bit)
    requires g.Valid() && g.Divider() % 2 == 1 && s < Pow2(g.k - 1)
    ensures Combine(Source(s, g.NextState(s, b)), g.Divider(), g.k) == b
  {
    EnteringBit(g, s, b);
    Feedback(s, b, g.Divider(), g.k);
  }

  /** A data step: each output is the parity of its polynomial. */
  lemma {:induction false} DataParity(g: Polys, s: nat, b: Bit, i: nat)
    requires g.Valid() && g.Divider() % 2 == 1 && s < Pow2(g.k - 1) && i < |g.list|
    ensures g.NextOutput(s, b)[i] == Combine(Source(s, g.NextState(s, b)), Sel(g, i), g.k)
  {
    if g.Systematic(i) {
      DividerBit(g, s, b);
    }
  }

  /** A flush step of a recursive code: the same. */
  lemma {:induction false} TailParity(g: Polys, s: nat, i: nat)
    requires g.Valid() && g.Recursive() && s < Pow2(g.k - 1) && i < |g.list|
    ensures g.NextTermOutput(s)[i] == Combine(Source(s, g.NextTermState(s)), Sel(g, i), g.k)
  {
  }

  lemma {:induction false} PolyDataBit(g: Polys, len: nat, term: Term, puncture: Option<seq<int>>, i: nat, s: nat,
                                       b: Bit)
    requires g.Valid() && g.Divider() % 2 == 1 && (puncture.Some? ==> PunctureList(puncture.value)) && i < |g.list|
    requires s < Pow2(g.k - 1)
    ensures var c := PolyCode(g, len, term, puncture); Sends(c, s, Data(b), i) == Odd(c, s, Data(b), Sel(g, i))
  {
    PolyNext(g, len, term, puncture, s, b);
    PolyOut(g, len, term, puncture, s, b);
    DataParity(g, s, b, i);
  }

  lemma {:induction false} PolyTailBit(g: Polys, len: nat, term: Term, puncture: Option<seq<int>>, i: nat, s: nat)
    requires g.Valid() && g.Divider() % 2 == 1 && (puncture.Some? ==> PunctureList(puncture.value)) && i < |g.list|
    requires s < Pow2(g.k - 1)
    ensures var c := PolyCode(g, len, term, puncture); Sends(c, s, Tail, i) == Odd(c, s, Tail, Sel(g, i))
  {
    if g.Recursive() {
      PolyTailOut(g, len, term, puncture, s);
      TailParity(g, s, i);
    } else {
      PlainTail(g, len, term, puncture, s);
      PolyDataBit(g, len, term, puncture, i, s, 0);
    }
  }

  lemma {:induction false} PolyGenerates(g: Polys, len: nat, term: Term, puncture: Option<seq<int>>, i: nat)
    requires g.Valid() && g.Divider() % 2 == 1 && (puncture.Some? ==> PunctureList(puncture.value)) && i < |g.list|
    ensures Generates(PolyCode(g, len, term, puncture), Sel(g, i), i)
  {
    var c := PolyCode(g, len, term, puncture);
    forall s, m | 0 <= s < c.NumStates()
      ensures Sends(c, s, m, i) == Odd(c, s, m, Sel(g, i))
    {
      match m
      case Data(b) => PolyDataBit(g, len, term, puncture, i, s, b);
      case Tail => PolyTailBit(g, len, term, puncture, i, s);
    }
  }

  lemma {:induction false} PolyDividerBit(g: Polys, len: nat, term: Term, puncture: Option<seq<int>>, s: nat, b: Bit)
    requires g.Valid() && g.Divider() % 2 == 1 && (puncture.Some? ==> PunctureList(puncture.value))
    requires s < Pow2(g.k - 1)
    ensures Odd(PolyCode(g, len, term, puncture), s, Data(b), g.Divider()) == (b == 1)
  {
    PolyNext(g, len, term, puncture, s, b);
    DividerBit(g, s, b);
  }

  lemma {:induction false} PolyDivides(g: Polys, len: nat, term: Term, puncture: Option<seq<int>>)
    requires g.Valid() && g.Divider() % 2 == 1 && (puncture.Some? ==> PunctureList(puncture.value))
    ensures Divides(PolyCode(g, len, term, puncture), g.Divider())
  {
    var c := PolyCode(g, len, term, puncture);
    forall s, b | 0 <= s < c.NumStates()
      ensures Odd(c, s, Data(b), g.Divider()) == (b == 1)
    {
      PolyDividerBit(g, len, term, puncture, s, b);
    }
  }

  lemma PolyOutput(g: Polys, len: nat, puncture: Option<seq<int>>, msg: seq<Bit>, i: nat)
    requires g.Valid() && g.Divider() % 2 == 1 && (puncture.Some? ==> PunctureList(puncture.value)) && i < |g.list|
    ensures var c := PolyCode(g, len, Flush, puncture);
            OutputStream(c, BlockMoves(c, msg), i) == Gf2.Product(Taps(Sel(g, i), g.k), Entered(c, DataMoves(msg)))
  {
    PolyShifts(g, len, Flush, puncture);
    PolyFlushShifts(g, len, Flush, puncture);
    PolyGenerates(g, len, Flush, puncture, i);
    FlushedStream(PolyCode(g, len, Flush, puncture), msg, Sel(g, i), i);
  }

  lemma {:induction false} MessageFront(c: Code, msg: seq<Bit>, sel: nat)
    requires Shifts(c) && Divides(c, sel)
    ensures Gf2.Bools(msg) == Gf2.Product(Taps(sel, c.K), Entered(c, DataMoves(msg)))[..|msg|]
  {
    MessageIsFiltered(c, msg, sel);
    FilterIsProduct(c, DataMoves(msg), sel);
  }

  /** Every flushed block of every polynomial code, recursive or not: output `i` is the product of its polynomial and
      the bits that enter, and the message is the product of the divider and these bits, cut to its length. */
  lemma {:induction false} BlockIsProduct(g: Polys, len: nat, puncture: Option<seq<int>>, msg: seq<Bit>, i: nat)
    requires g.Valid() && g.Divider() % 2 == 1 && (puncture.Some? ==> PunctureList(puncture.value)) && i < |g.list|
    ensures var c := PolyCode(g, len, Flush, puncture);
            var a := Entered(c, DataMoves(msg));
            && OutputStream(c, BlockMoves(c, msg), i) == Gf2.Product(Taps(Sel(g, i), g.k), a)
            && Gf2.Bools(msg) == Gf2.Product(Taps(g.Divider(), g.k), a)[..|msg|]
  {
    PolyOutput(g, len, puncture, msg, i);
    PolyShifts(g, len, Flush, puncture);
    PolyDivides(g, len, Flush, puncture);
    MessageFront(PolyCode(g, len, Flush, puncture), msg, g.Divider());
  }

  /** A flushed block of a code without divider: each output is the product of the message and its polynomial. */
  lemma {:induction false} PlainBlockIsProduct(g: Polys, len: nat, puncture: Option<seq<int>>, msg: seq<Bit>, i: nat)
    requires g.Valid() && !g.Recursive() && (puncture.Some? ==> PunctureList(puncture.value)) && i < |g.list|
    ensures var c := PolyCode(g, len, Flush, puncture);
            OutputStream(c, BlockMoves(c, msg), i) == Gf2.Product(Taps(g.Normal(i).num, g.k), Gf2.Bools(msg))
  {
    PolyOutput(g, len, puncture, msg, i);
    PolyDataShifts(g, len, Flush, puncture);
    MessageEnters(PolyCode(g, len, Flush, puncture), msg);
  }
}
