/** Code tables from generator polynomials, as utils/conv_gen.py prints them. */
module ConvPoly {
  import opened Bits
  import opened ConvCode
  import opened ConvEncoder

  /** A generator: numerator over divider, bit i of each being the tap at delay i. */
  datatype Poly = Poly(num: nat, den: nat)

  /** Parity of the bits that `src` and `sel` share among their lowest `nb` ones. */
  function Combine(src: nat, sel: nat, nb: nat): Bit {
    if nb == 0 then 0
    else
      var rest := Combine(src / 2, sel / 2, nb - 1);
      if src % 2 == 1 && sel % 2 == 1 then 1 - rest else rest
  }

  /** The register `s` with the bit that entered it on the way to `t`. */
  function Source(s: nat, t: nat): nat {
    t % 2 + 2 * s
  }

  /** The polynomials of a code; `k` is the constraint length they need. */
  datatype Polys = Polys(k: nat, list: seq<Poly>)
  {
    /** A generator equal to its divider is the systematic output, written (1, 1). */
    function Normal(i: nat): Poly
      requires i < |list|
    {
      if list[i].num == list[i].den then Poly(1, 1) else list[i]
    }

    function DividerFrom(i: nat): nat
      requires i <= |list|
      decreases |list| - i
    {
      if i == |list| then 1
      else if Normal(i).den != 1 then Normal(i).den
      else DividerFrom(i + 1)
    }

    function Divider(): nat {
      DividerFrom(0)
    }

    predicate Recursive() {
      Divider() != 1
    }

    /** What the generator accepts: up to eight outputs, polynomials of degree below k, one divider at
        most, and no undivided generator but the systematic one beside a divided one. */
    predicate Valid() {
      && 1 <= |list| <= 8
      && 2 <= k <= 9
      && 1 <= Divider() < Pow2(k)
      && (forall i :: 0 <= i < |list| ==> list[i].num < Pow2(k) && list[i].den < Pow2(k))
      && (forall i :: 0 <= i < |list| ==> Normal(i).den == 1 || Normal(i).den == Divider())
      && (Recursive() ==> forall i :: 0 <= i < |list| && list[i].den == 1 ==> list[i].num == 1)
    }

    /** Output `i` follows the data bit itself. */
    predicate Systematic(i: nat)
      requires i < |list|
    {
      Recursive() && Normal(i).den == 1
    }

    function NextState(s: nat, b: Bit): nat {
      (2 * s + Combine(2 * s + b, Divider(), k)) % Pow2(if k == 0 then 0 else k - 1)
    }

    function NextTermState(s: nat): nat {
      (2 * s) % Pow2(if k == 0 then 0 else k - 1)
    }

    function NextOutput(s: nat, b: Bit): (bits: seq<Bit>)
      ensures |bits| == |list|
    {
      var src := Source(s, NextState(s, b));
      seq(|list|, i requires 0 <= i < |list| =>
        if Systematic(i) then b else Combine(src, Normal(i).num, k))
    }

    function NextTermOutput(s: nat): (bits: seq<Bit>)
      ensures |bits| == |list|
    {
      var src := Source(s, NextTermState(s));
      seq(|list|, i requires 0 <= i < |list| =>
        if Systematic(i) then Combine(src, Divider(), k) else Combine(src, Normal(i).num, k))
    }

    function Tables(len: nat, term: Term, puncture: Option<seq<int>>): (c: CodeTables) {
      var ns := Pow2(if k == 0 then 0 else k - 1);
      CodeTables(|list|, k, len, term,
        seq(ns, s requires 0 <= s < ns => [Pack(NextOutput(s, 0)), Pack(NextOutput(s, 1))]),
        seq(ns, s requires 0 <= s < ns => [NextState(s, 0), NextState(s, 1)]),
        if Recursive()
        then Some(TailTable(seq(ns, s requires 0 <= s < ns => Pack(NextTermOutput(s))),
                            seq(ns, s requires 0 <= s < ns => NextTermState(s))))
        else None,
        puncture)
    }
  }

  /** Output bits packed into a word, first bit most significant. */
  function Pack(bits: seq<Bit>): (v: nat)
    ensures v < Pow2(|bits|)
  {
    Loaded(bits)
  }

  lemma {:induction false} PackBits(bits: seq<Bit>)
    ensures OutBits(|bits|, Pack(bits)) == bits
  {
    if bits == [] {
    } else {
      var n := |bits| - 1;
      var front := bits[..n];
      PackBits(front);
      var p := Pack(front);
      assert Pack(bits) == 2 * p + bits[n] && Pack(bits) / 2 == p && Pack(bits) % 2 == bits[n];
      forall j | 0 <= j < |bits|
        ensures OutBits(|bits|, Pack(bits))[j] == bits[j]
      {
        assert OutBits(|bits|, Pack(bits))[j] == BitAt(Pack(bits), n - j);
        if j < n {
          assert BitAt(Pack(bits), n - j) == BitAt(Pack(front), n - j - 1);
          assert OutBits(n, Pack(front))[j] == front[j];
        }
      }
    }
  }

  /** The code a list of polynomials describes. */
  function PolyCode(g: Polys, len: nat, term: Term, puncture: Option<seq<int>>): (c: Code)
    requires g.Valid() && (puncture.Some? ==> PunctureList(puncture.value))
    ensures c == g.Tables(len, term, puncture)
  {
    g.Tables(len, term, puncture)
  }

  // ---------------------------------------------------------------------------
  // Taps

  /** Flipping the newest bit flips the parity of every polynomial with tap 0. */
  lemma {:induction false} CombineNewest(s: nat, sel: nat, nb: nat)
    requires nb >= 1 && sel % 2 == 1
    ensures Combine(2 * s + 1, sel, nb) == 1 - Combine(2 * s, sel, nb)
  {
    assert (2 * s + 1) / 2 == s == (2 * s) / 2;
  }

  /** Flipping the oldest bit flips the parity of every polynomial with tap nb - 1. */
  lemma {:induction false} CombineOldest(v: nat, sel: nat, nb: nat)
    requires nb >= 1 && v < Pow2(nb - 1) && BitAt(sel, nb - 1) == 1
    ensures Combine(v + Pow2(nb - 1), sel, nb) == 1 - Combine(v, sel, nb)
  {
    if nb == 1 {
      assert Combine(1, sel, 1) == 1 - Combine(0, sel, 1);
    } else {
      CombineOldest(v / 2, sel / 2, nb - 1);
      assert (v + Pow2(nb - 1)) / 2 == v / 2 + Pow2(nb - 2);
      assert (v + Pow2(nb - 1)) % 2 == v % 2;
    }
  }

  // ---------------------------------------------------------------------------
  // What the tables of a polynomial code satisfy

  /** The next state shifts the register left and takes in one new bit. */
  lemma {:induction false} Shift(g: Polys, s: nat, b: Bit)
    requires g.Valid() && s < Pow2(g.k - 1)
    ensures g.NextState(s, b) == 2 * (s % Pow2(g.k - 2)) + Combine(2 * s + b, g.Divider(), g.k)
    ensures g.NextTermState(s) == 2 * (s % Pow2(g.k - 2))
  {
    HalfMod(s, g.k - 1);
  }

  lemma {:induction false} CombineOne(v: nat, nb: nat)
    requires nb >= 1
    ensures Combine(v, 1, nb) == v % 2
  {
    CombineZero(v / 2, nb - 1);
  }

  lemma {:induction false} CombineZero(v: nat, nb: nat)
    ensures Combine(v, 0, nb) == 0
  {
    if nb == 0 {
    } else {
      CombineZero(v / 2, nb - 1);
    }
  }

  lemma {:induction false} NextDiffer(g: Polys, s: nat)
    requires g.Valid() && g.Divider() % 2 == 1 && s < Pow2(g.k - 1)
    ensures g.NextState(s, 0) != g.NextState(s, 1)
  {
    Shift(g, s, 0);
    Shift(g, s, 1);
    CombineNewest(s, g.Divider(), g.k);
  }

  /** The two data bits lead to different states if the divider has tap 0. */
  lemma {:induction false} PolySplitsStates(g: Polys, len: nat, term: Term, puncture: Option<seq<int>>)
    requires g.Valid() && (puncture.Some? ==> PunctureList(puncture.value))
    requires g.Divider() % 2 == 1
    ensures SplitsStates(PolyCode(g, len, term, puncture))
  {
    var c := PolyCode(g, len, term, puncture);
    forall s | 0 <= s < c.NumStates()
      ensures c.nextState[s][0] != c.nextState[s][1]
    {
      PolyNext(g, len, term, puncture, s, 0);
      PolyNext(g, len, term, puncture, s, 1);
      NextDiffer(g, s);
    }
  }

  /** A flush step shifts the register left and takes in a 0. */
  ghost predicate FlushShifts(c: Code) {
    c.K >= 2 && forall s :: 0 <= s < c.NumStates() ==> Next(c, s, Tail) == 2 * (s % Pow2(c.K - 2))
  }

  lemma {:induction false} PolyFlushShifts(g: Polys, len: nat, term: Term, puncture: Option<seq<int>>)
    requires g.Valid() && (puncture.Some? ==> PunctureList(puncture.value))
    ensures FlushShifts(PolyCode(g, len, term, puncture))
  {
    var c := PolyCode(g, len, term, puncture);
    forall s | 0 <= s < c.NumStates()
      ensures Next(c, s, Tail) == 2 * (s % Pow2(c.K - 2))
    {
      PolyTail(g, len, term, puncture, s);
    }
  }

  lemma {:induction false} PolyTail(g: Polys, len: nat, term: Term, puncture: Option<seq<int>>, s: nat)
    requires g.Valid() && (puncture.Some? ==> PunctureList(puncture.value)) && s < Pow2(g.k - 1)
    ensures Next(PolyCode(g, len, term, puncture), s, Tail) == 2 * (s % Pow2(g.k - 2))
  {
    if g.Recursive() {
      Shift(g, s, 0);
    } else {
      PlainShift(g, s, 0);
    }
  }

  /** Flushing ends in state 0. */
  lemma {:induction false} ShiftsFlushToZero(c: Code)
    requires FlushShifts(c)
    ensures FlushesToZero(c)
  {
    forall s | 0 <= s < c.NumStates()
      ensures FlushEnd(c, s) == 0
    {
      FlushRun(c, s, c.K - 1);
      SmallMultiple(FlushEnd(c, s), Pow2(c.K - 1));
    }
  }

  lemma SmallMultiple(v: nat, d: nat)
    requires v < d && v % d == 0
    ensures v == 0
  {
  }

  lemma {:induction false} FlushRun(c: Code, s: nat, n: nat)
    requires FlushShifts(c) && s < c.NumStates() && n <= c.K - 1
    ensures Run(c, s, TailMoves(n)) % Pow2(n) == 0
  {
    if n == 0 {
    } else {
      FlushRun(c, s, n - 1);
      assert TailMoves(n)[..n - 1] == TailMoves(n - 1);
      var t := Run(c, s, TailMoves(n - 1));
      assert Run(c, s, TailMoves(n)) == Next(c, t, Tail) == 2 * (t % Pow2(c.K - 2));
      ModOfMod(t, c.K - 2, n - 1);
      HalfMod(t % Pow2(c.K - 2), n);
    }
  }

  // ---------------------------------------------------------------------------
  // Tail-biting

  /** A data step shifts the register left and takes in the data bit itself. */
  ghost predicate DataShifts(c: Code) {
    c.K >= 2 && forall s, b: Bit :: 0 <= s < c.NumStates() ==> Next(c, s, Data(b)) == 2 * (s % Pow2(c.K - 2)) + b
  }

  lemma {:induction false} PolyDataShifts(g: Polys, len: nat, term: Term, puncture: Option<seq<int>>)
    requires g.Valid() && !g.Recursive() && (puncture.Some? ==> PunctureList(puncture.value))
    ensures DataShifts(PolyCode(g, len, term, puncture))
  {
    var c := PolyCode(g, len, term, puncture);
    forall s, b: Bit | 0 <= s < c.NumStates()
      ensures Next(c, s, Data(b)) == 2 * (s % Pow2(c.K - 2)) + b
    {
      PolyNext(g, len, term, puncture, s, b);
      PlainShift(g, s, b);
    }
  }

  lemma {:induction false} PolyNext(g: Polys, len: nat, term: Term, puncture: Option<seq<int>>, s: nat, b: Bit)
    requires g.Valid() && (puncture.Some? ==> PunctureList(puncture.value)) && s < Pow2(g.k - 1)
    ensures Next(PolyCode(g, len, term, puncture), s, Data(b)) == g.NextState(s, b)
  {
    assert b == 0 || b == 1;
  }

  /** Without divider the register takes in the data bit itself. */
  lemma {:induction false} PlainShift(g: Polys, s: nat, b: Bit)
    requires g.Valid() && !g.Recursive() && s < Pow2(g.k - 1)
    ensures g.NextState(s, b) == 2 * (s % Pow2(g.k - 2)) + b
  {
    Shift(g, s, b);
    CombineOne(2 * s + b, g.k);
  }

  /** A register of k + 1 bits that data bits are shifted into. */
  function Register(k: nat, s: nat, msg: seq<Bit>): nat {
    if msg == [] then s else 2 * (Register(k, s, msg[..|msg| - 1]) % Pow2(k)) + msg[|msg| - 1]
  }

  lemma {:induction false} RunIsRegister(c: Code, s: nat, msg: seq<Bit>)
    requires DataShifts(c) && s < c.NumStates()
    ensures Run(c, s, DataMoves(msg)) == Register(c.K - 2, s, msg)
    decreases |msg|
  {
    if msg == [] {
    } else {
      var n := |msg| - 1;
      RunIsRegister(c, s, msg[..n]);
      assert DataMoves(msg)[..n] == DataMoves(msg[..n]);
      assert Run(c, s, DataMoves(msg)) == Next(c, Run(c, s, DataMoves(msg[..n])), Data(msg[n]));
    }
  }

  lemma {:induction false} LoadedMore(msg: seq<Bit>, m: nat)
    requires 1 <= m <= |msg|
    ensures var n := |msg| - 1; Loaded(msg[|msg| - m..]) == 2 * Loaded(msg[..n][n - (m - 1)..]) + msg[n]
  {
    var n, last := |msg| - 1, msg[|msg| - m..];
    assert last[..m - 1] == msg[..n][n - (m - 1)..] && last[m - 1] == msg[n];
  }

  lemma {:induction false} ShiftedLow(t: nat, n: nat, m: nat, b: Bit)
    requires 1 <= m <= n + 1
    ensures (2 * (t % Pow2(n)) + b) % Pow2(m) == 2 * (t % Pow2(m - 1)) + b
  {
    ModOfMod(t, n, m - 1);
    HalfMod(t % Pow2(n), m);
  }

  lemma {:induction false} RegisterStep(t: nat, k: nat, msg: seq<Bit>, m: nat)
    requires 1 <= m <= |msg| && m <= k + 1
    requires var n := |msg| - 1; t % Pow2(m - 1) == Loaded(msg[..n][n - (m - 1)..])
    ensures (2 * (t % Pow2(k)) + msg[|msg| - 1]) % Pow2(m) == Loaded(msg[|msg| - m..])
  {
    ShiftedLow(t, k, m, msg[|msg| - 1]);
    LoadedMore(msg, m);
  }

  /** The low bits of the register are the last data bits, whatever the state before them. */
  lemma {:induction false} RegisterHolds(k: nat, s: nat, msg: seq<Bit>, m: nat)
    requires m <= |msg| && m <= k + 1
    ensures Register(k, s, msg) % Pow2(m) == Loaded(msg[|msg| - m..])
    decreases m
  {
    if m == 0 {
    } else {
      RegisterHolds(k, s, msg[..|msg| - 1], m - 1);
      RegisterStep(Register(k, s, msg[..|msg| - 1]), k, msg, m);
    }
  }

  /** A tail-biting block of a non-recursive code ends in the state it started from. */
  lemma {:induction false} TailBites(c: Code, msg: seq<Bit>)
    requires DataShifts(c) && c.term.TailBiting? && |msg| >= c.K - 1
    ensures Run(c, StartState(c, msg), DataMoves(msg)) == StartState(c, msg)
  {
    RunIsRegister(c, StartState(c, msg), msg);
    RegisterHolds(c.K - 2, StartState(c, msg), msg, c.K - 1);
    SmallMod(Run(c, StartState(c, msg), DataMoves(msg)), Pow2(c.K - 1));
  }

}
