/** What the accelerated decoder of src/core/conv_acc.c needs of a code, its bit-reversed numbering of
    the states, and that polynomial codes with the outermost taps provide it. */
module AccCode {
  import opened Bits
  import opened ConvCode
  import opened ConvPoly

  // ---------------------------------------------------------------------------
  // Bit reversal

  /** `v` with its `n` low bits in the opposite order. */
  function Rev(n: nat, v: nat): (r: nat)
    ensures r < Pow2(n)
  {
    if n == 0 then 0 else (if v % 2 == 1 then Pow2(n - 1) else 0) + Rev(n - 1, v / 2)
  }

  /** `bitswap`: the masks and shifts of bitswap2 to bitswap6, as digits. */
  function Bitswap(v: nat, n: nat): nat {
    if n == 1 then v
    else if n == 2 then BitAt(v, 1) + 2 * BitAt(v, 0)
    else if n == 3 then BitAt(v, 2) + 2 * BitAt(v, 1) + 4 * BitAt(v, 0)
    else if n == 4 then BitAt(v, 3) + 2 * BitAt(v, 2) + 4 * BitAt(v, 1) + 8 * BitAt(v, 0)
    else if n == 5 then
      BitAt(v, 4) + 2 * BitAt(v, 3) + 4 * BitAt(v, 2) + 8 * BitAt(v, 1) + 16 * BitAt(v, 0)
    else if n == 6 then
      BitAt(v, 5) + 2 * BitAt(v, 4) + 4 * BitAt(v, 3) + 8 * BitAt(v, 2) + 16 * BitAt(v, 1) + 32 * BitAt(v, 0)
    else 0
  }

  lemma {:induction false} BitswapIsRev(v: nat, n: nat)
    requires 2 <= n <= 6 && v < Pow2(n)
    ensures Bitswap(v, n) == Rev(n, v)
  {
    RevDigits(v, 0, 1);
    RevDigits(v, 1, 2);
    if n >= 3 { RevDigits(v, 2, 3); }
    if n >= 4 { RevDigits(v, 3, 4); }
    if n >= 5 { RevDigits(v, 4, 5); }
    if n >= 6 { RevDigits(v, 5, 6); }
  }

  /** Reversal from the other end: the highest digit becomes the lowest. */
  lemma {:induction false} RevDigits(v: nat, m: nat, n: nat)
    requires n == m + 1
    ensures Rev(n, v) == 2 * Rev(m, v) + BitAt(v, m)
  {
    if m == 0 {
    } else {
      RevDigits(v / 2, m - 1, m);
    }
  }

  /** Bit `nb` in front of a register of `h` values. */
  function Top(nb: Bit, h: nat): nat {
    if nb == 1 then h else 0
  }

  /** Shifting a bit in at the top of the reversed register shifts it in at the bottom of the plain one. */
  lemma {:induction false} RevShift(n: nat, u: nat, nb: Bit)
    requires n >= 1 && u < Pow2(n - 1)
    ensures Rev(n, u + Top(nb, Pow2(n - 1))) == 2 * Rev(n - 1, u) + nb
  {
    if n == 1 {
      assert Rev(1, nb) == nb;
    } else {
      var w := u + Top(nb, Pow2(n - 1));
      assert w / 2 == u / 2 + Top(nb, Pow2(n - 2)) && w % 2 == u % 2;
      RevShift(n - 1, u / 2, nb);
    }
  }

  lemma {:induction false} RevTwice(n: nat, v: nat)
    requires v < Pow2(n)
    ensures Rev(n, Rev(n, v)) == v
  {
    if n == 0 {
    } else {
      RevTwice(n - 1, v / 2);
      RevShift(n, Rev(n - 1, v / 2), v % 2);
    }
  }

  lemma {:induction false} RevZero(n: nat)
    ensures Rev(n, 0) == 0
  {
    if n == 0 {
    } else {
      RevZero(n - 1);
    }
  }

  // ---------------------------------------------------------------------------
  // The tables

  /** Bit by bit opposite output words. */
  ghost predicate Opposite(n: nat, o: nat, o': nat) {
    forall j :: 0 <= j < n ==> OutBits(n, o)[j] == 1 - OutBits(n, o')[j]
  }

  /** The data bit that shifts `nb` into the register of state `s`. */
  function InBit(c: Code, s: nat, nb: Bit): Bit
    requires s < c.NumStates()
  {
    if c.nextState[s][0] % 2 == nb then 0 else 1
  }

  /** The output of the edge that shifts `nb` into the register of state `s`. */
  function EdgeOut(c: Code, s: nat, nb: Bit): nat
    requires s < c.NumStates()
  {
    c.nextOutput[s][InBit(c, s, nb)]
  }

  /** The next state is the shifted register, and both new bits occur with opposite outputs. */
  ghost predicate ShiftsAt(c: Code, s: nat)
    requires c.K >= 2 && s < c.NumStates()
  {
    && c.nextState[s][0] / 2 == s % Pow2(c.K - 2)
    && c.nextState[s][1] / 2 == s % Pow2(c.K - 2)
    && c.nextState[s][0] % 2 != c.nextState[s][1] % 2
    && Opposite(c.N, c.nextOutput[s][0], c.nextOutput[s][1])
    && Next(c, s, Tail) == 2 * (s % Pow2(c.K - 2))
    && Out(c, s, Tail) == EdgeOut(c, s, 0)
    && (c.tail.None? ==> c.nextState[s][0] % 2 == 0)
  }

  /** Flipping the oldest register bit flips every output bit and, in a recursive code, the feedback. */
  ghost predicate OldestFlips(c: Code, s: nat)
    requires c.K >= 2 && s < Pow2(c.K - 2)
  {
    var s' := s + Pow2(c.K - 2);
    && Opposite(c.N, EdgeOut(c, s, 0), EdgeOut(c, s', 0))
    && (c.tail.Some? ==> c.nextState[s][0] % 2 != c.nextState[s'][0] % 2)
  }

  /** Output bit `i` is 0 for every input 0: how the decoder finds the systematic output. */
  ghost predicate LooksSystematic(c: Code, i: nat) {
    forall s :: 0 <= s < c.NumStates() ==> BitAt(c.nextOutput[s][0], i) == 0
  }

  /** In flush output `i` carries the feedback bit. */
  ghost predicate CarriesFeedback(c: Code, i: nat)
    requires c.tail.Some?
  {
    forall s :: 0 <= s < c.NumStates() ==> BitAt(c.tail.value.output[s], i) == c.nextState[s][0] % 2
  }

  /** A code the butterfly handles. */
  ghost predicate Butterfly(c: Code) {
    && (c.K == 5 || c.K == 7) && 2 <= c.N <= 4
    && (forall s :: 0 <= s < c.NumStates() ==> ShiftsAt(c, s))
    && (forall s :: 0 <= s < Pow2(c.K - 2) ==> OldestFlips(c, s))
    && (c.tail.Some? ==>
          && (exists i :: 0 <= i < c.N && LooksSystematic(c, i))
          && (forall i :: 0 <= i < c.N && LooksSystematic(c, i) ==> CarriesFeedback(c, i)))
  }

  // ---------------------------------------------------------------------------
  // Polynomial codes are butterfly codes

  /** Every generator, and the divider of a recursive code, has taps 0 and k-1; a recursive code has a
      systematic output. */
  ghost predicate OuterTaps(g: Polys) {
    && g.Valid()
    && (g.k == 5 || g.k == 7) && 2 <= |g.list| <= 4
    && g.Divider() % 2 == 1
    && (g.Recursive() ==>
          && BitAt(g.Divider(), g.k - 1) == 1
          && exists i :: 0 <= i < |g.list| && g.Systematic(i))
    && (forall i :: 0 <= i < |g.list| && !g.Systematic(i) ==>
          g.Normal(i).num % 2 == 1 && BitAt(g.Normal(i).num, g.k - 1) == 1)
  }

  /** The feedback bit: what a recursive register adds to the data bit. */
  function Feedback(g: Polys, s: nat): Bit {
    Combine(2 * s, g.Divider(), g.k)
  }

  lemma {:induction false} NewestBit(g: Polys, s: nat, b: Bit)
    requires g.Valid() && g.Divider() % 2 == 1 && s < Pow2(g.k - 1)
    ensures g.NextState(s, b) / 2 == s % Pow2(g.k - 2)
    ensures g.NextState(s, b) % 2 == if b == 0 then Feedback(g, s) else 1 - Feedback(g, s)
    ensures g.NextTermState(s) == 2 * (s % Pow2(g.k - 2))
    ensures !g.Recursive() ==> Feedback(g, s) == 0
  {
    Shift(g, s, b);
    CombineNewest(s, g.Divider(), g.k);
    if !g.Recursive() {
      CombineOne(2 * s, g.k);
    }
  }

  /** Output `i` on the edge that shifts `nb` in: the data bit is nb plus feedback. */
  function EdgeBit(g: Polys, s: nat, nb: Bit, i: nat): Bit
    requires i < |g.list|
  {
    if g.Systematic(i) then (if Feedback(g, s) == nb then 0 else 1)
    else Combine(2 * s + nb, g.Normal(i).num, g.k)
  }

  lemma {:induction false} OutputIsEdgeBit(g: Polys, s: nat, b: Bit, i: nat)
    requires g.Valid() && g.Divider() % 2 == 1 && s < Pow2(g.k - 1) && i < |g.list|
    ensures g.NextOutput(s, b)[i] == EdgeBit(g, s, if b == 0 then Feedback(g, s) else 1 - Feedback(g, s), i)
    ensures g.NextTermOutput(s)[i] == EdgeBit(g, s, 0, i)
  {
    DataOutputBit(g, s, b, i);
    TermOutputBit(g, s, i);
  }

  lemma {:induction false} DataOutputBit(g: Polys, s: nat, b: Bit, i: nat)
    requires g.Valid() && g.Divider() % 2 == 1 && s < Pow2(g.k - 1) && i < |g.list|
    ensures g.NextOutput(s, b)[i] == EdgeBit(g, s, if b == 0 then Feedback(g, s) else 1 - Feedback(g, s), i)
  {
    NewestBit(g, s, b);
    DataOutputAt(g, s, b, i, g.NextState(s, b) % 2);
  }

  lemma DataOutputAt(g: Polys, s: nat, b: Bit, i: nat, nb: Bit)
    requires i < |g.list| && g.NextState(s, b) % 2 == nb == if b == 0 then Feedback(g, s) else 1 - Feedback(g, s)
    ensures g.NextOutput(s, b)[i] == EdgeBit(g, s, nb, i)
  {
  }

  lemma {:induction false} TermOutputBit(g: Polys, s: nat, i: nat)
    requires g.Valid() && g.Divider() % 2 == 1 && s < Pow2(g.k - 1) && i < |g.list|
    ensures g.NextTermOutput(s)[i] == EdgeBit(g, s, 0, i)
  {
    NewestBit(g, s, 0);
    TermOutputAt(g, s, i);
  }

  lemma TermOutputAt(g: Polys, s: nat, i: nat)
    requires i < |g.list| && g.NextTermState(s) % 2 == 0
    ensures g.NextTermOutput(s)[i] == EdgeBit(g, s, 0, i)
  {
  }

  lemma {:induction false} EdgeBitFlips(g: Polys, s: nat, i: nat)
    requires OuterTaps(g) && s < Pow2(g.k - 1) && i < |g.list|
    ensures EdgeBit(g, s, 1, i) == 1 - EdgeBit(g, s, 0, i)
  {
    if !g.Systematic(i) {
      CombineNewest(s, g.Normal(i).num, g.k);
    }
  }

  lemma {:induction false} FeedbackFlips(g: Polys, s: nat)
    requires OuterTaps(g) && g.Recursive() && s < Pow2(g.k - 2)
    ensures Feedback(g, s + Pow2(g.k - 2)) == 1 - Feedback(g, s)
  {
    CombineOldest(2 * s, g.Divider(), g.k);
  }

  lemma {:induction false} OldestFlipsBit(g: Polys, s: nat, nb: Bit, i: nat)
    requires OuterTaps(g) && s < Pow2(g.k - 2) && i < |g.list|
    ensures EdgeBit(g, s + Pow2(g.k - 2), nb, i) == 1 - EdgeBit(g, s, nb, i)
  {
    if g.Systematic(i) {
      FeedbackFlips(g, s);
    } else {
      CombineOldest(2 * s + nb, g.Normal(i).num, g.k);
    }
  }

  /** Row `s` of the tables, as bits. */
  ghost predicate RendersRow(g: Polys, c: Code, s: nat)
    requires s < c.NumStates() && c.N == |g.list|
  {
    && c.nextState[s][0] == g.NextState(s, 0) && c.nextState[s][1] == g.NextState(s, 1)
    && OutBits(c.N, c.nextOutput[s][0]) == g.NextOutput(s, 0) && OutBits(c.N, c.nextOutput[s][1]) == g.NextOutput(s, 1)
    && (c.tail.Some? ==>
          && OutBits(c.N, c.tail.value.output[s]) == g.NextTermOutput(s)
          && c.tail.value.state[s] == g.NextTermState(s))
  }

  /** The tables are those of the polynomials. */
  ghost predicate Renders(g: Polys, c: Code) {
    && c.N == |g.list| && c.K == g.k && (g.Recursive() <==> c.tail.Some?)
    && forall s :: 0 <= s < c.NumStates() ==> RendersRow(g, c, s)
  }

  lemma {:induction false} PolyRenders(g: Polys, len: nat, term: Term, puncture: Option<seq<int>>)
    requires g.Valid() && (puncture.Some? ==> PunctureList(puncture.value))
    ensures Renders(g, PolyCode(g, len, term, puncture))
  {
    var c := PolyCode(g, len, term, puncture);
    forall s | 0 <= s < c.NumStates()
      ensures RendersRow(g, c, s)
    {
      PackBits(g.NextOutput(s, 0));
      PackBits(g.NextOutput(s, 1));
      PackBits(g.NextTermOutput(s));
    }
  }

  lemma {:induction false} PolyEdgeBit(g: Polys, c: Code, s: nat, nb: Bit, i: nat)
    requires g.Valid() && g.Divider() % 2 == 1 && Renders(g, c) && s < c.NumStates() && i < c.N
    ensures OutBits(c.N, EdgeOut(c, s, nb))[i] == EdgeBit(g, s, nb, i)
  {
    var b := InBit(c, s, nb);
    assert RendersRow(g, c, s);
    NewestBit(g, s, 0);
    OutputIsEdgeBit(g, s, b, i);
  }

  lemma {:induction false} PolyOpposite(g: Polys, c: Code, s: nat)
    requires OuterTaps(g) && Renders(g, c) && s < c.NumStates()
    ensures Opposite(c.N, c.nextOutput[s][0], c.nextOutput[s][1])
  {
    assert RendersRow(g, c, s);
    forall i | 0 <= i < c.N
      ensures g.NextOutput(s, 0)[i] == 1 - g.NextOutput(s, 1)[i]
    {
      OutputIsEdgeBit(g, s, 0, i);
      OutputIsEdgeBit(g, s, 1, i);
      EdgeBitFlips(g, s, i);
    }
  }

  lemma {:induction false} PolyShiftsAt(g: Polys, c: Code, s: nat)
    requires OuterTaps(g) && Renders(g, c) && s < c.NumStates()
    ensures ShiftsAt(c, s)
  {
    assert RendersRow(g, c, s);
    NewestBit(g, s, 0);
    NewestBit(g, s, 1);
    PolyOpposite(g, c, s);
    PolyTailOut(g, c, s);
  }

  /** A flush step sends what the edge with new bit 0 sends. */
  lemma {:induction false} PolyTailOut(g: Polys, c: Code, s: nat)
    requires OuterTaps(g) && Renders(g, c) && s < c.NumStates()
    ensures Out(c, s, Tail) == EdgeOut(c, s, 0)
  {
    assert RendersRow(g, c, s);
    NewestBit(g, s, 0);
    var b := InBit(c, s, 0);
    forall i | 0 <= i < c.N
      ensures g.NextTermOutput(s)[i] == g.NextOutput(s, b)[i]
    {
      OutputIsEdgeBit(g, s, b, i);
    }
    assert g.NextTermOutput(s) == g.NextOutput(s, b);
    OutBitsInjective(c.N, Out(c, s, Tail), EdgeOut(c, s, 0));
  }

  lemma {:induction false} PolyOldestFlips(g: Polys, c: Code, s: nat)
    requires OuterTaps(g) && Renders(g, c) && s < Pow2(c.K - 2)
    ensures OldestFlips(c, s)
  {
    var s' := s + Pow2(c.K - 2);
    assert RendersRow(g, c, s) && RendersRow(g, c, s');
    NewestBit(g, s, 0);
    NewestBit(g, s', 0);
    forall j | 0 <= j < c.N
      ensures OutBits(c.N, EdgeOut(c, s, 0))[j] == 1 - OutBits(c.N, EdgeOut(c, s', 0))[j]
    {
      PolyEdgeBit(g, c, s, 0, j);
      PolyEdgeBit(g, c, s', 0, j);
      OldestFlipsBit(g, s, 0, j);
    }
    if g.Recursive() {
      FeedbackFlips(g, s);
    }
  }

  /** A power of two selects a single tap. */
  lemma {:induction false} CombineTap(t: nat, sel: nat, nb: nat)
    requires t < nb
    ensures Combine(Pow2(t), sel, nb) == BitAt(sel, t)
  {
    if t == 0 {
      CombineNone(sel / 2, nb - 1);
    } else {
      CombineTap(t - 1, sel / 2, nb - 1);
    }
  }

  lemma {:induction false} CombineNone(sel: nat, nb: nat)
    ensures Combine(0, sel, nb) == 0
  {
    if nb == 0 {
    } else {
      CombineNone(sel / 2, nb - 1);
    }
  }

  /** Two different odd polynomials differ at some tap above 0. */
  lemma {:induction false} DifferentTap(k: nat, v: nat, w: nat) returns (t: nat)
    requires v < Pow2(k) && w < Pow2(k) && v != w && v % 2 == w % 2
    ensures 1 <= t < k && BitAt(v, t) != BitAt(w, t)
  {
    if forall t :: 0 <= t < k ==> BitAt(v, t) == BitAt(w, t) {
      SameBitsSameValue(k, v, w);
    }
    t :| 0 <= t < k && BitAt(v, t) != BitAt(w, t);
  }

  /** An output that is not systematic is 1 for some input 0. */
  lemma {:induction false} NotSystematic(g: Polys, i: nat) returns (s: nat)
    requires OuterTaps(g) && g.Recursive() && i < |g.list| && !g.Systematic(i)
    ensures s < Pow2(g.k - 1) && g.NextOutput(s, 0)[i] == 1
  {
    var num, div := g.Normal(i).num, g.Divider();
    assert g.Normal(i).den == div && num != div;
    var t := DifferentTap(g.k, num, div);
    s := Pow2(t - 1);
    Pow2Less(t - 1, g.k - 1);
    OutputIsEdgeBit(g, s, 0, i);
    CombineTap(t, num, g.k);
    CombineTap(t, div, g.k);
    CombineNewest(s, num, g.k);
  }

  lemma {:induction false} Pow2Less(a: nat, b: nat)
    requires a < b
    ensures Pow2(a) < Pow2(b)
  {
    if b > a + 1 {
      Pow2Less(a, b - 1);
    }
  }

  /** Output bit `j` of a table that renders the polynomials. */
  lemma {:induction false} RenderedBit(g: Polys, c: Code, s: nat, j: nat)
    requires g.Valid() && Renders(g, c) && j < c.N && s < c.NumStates()
    ensures |g.list| == c.N && BitAt(c.nextOutput[s][0], j) == g.NextOutput(s, 0)[c.N - 1 - j]
  {
    assert RendersRow(g, c, s);
    assert OutBits(c.N, c.nextOutput[s][0])[c.N - 1 - j] == BitAt(c.nextOutput[s][0], j);
  }

  lemma {:induction false} RenderedTailBit(g: Polys, c: Code, s: nat, j: nat)
    requires g.Valid() && Renders(g, c) && j < c.N && s < c.NumStates() && c.tail.Some?
    ensures |g.list| == c.N && BitAt(c.tail.value.output[s], j) == g.NextTermOutput(s)[c.N - 1 - j]
    ensures c.nextState[s][0] == g.NextState(s, 0)
  {
    assert RendersRow(g, c, s);
    assert OutBits(c.N, c.tail.value.output[s])[c.N - 1 - j] == BitAt(c.tail.value.output[s], j);
  }

  lemma {:induction false} SystematicBits(g: Polys, c: Code, s: nat, j: nat)
    requires OuterTaps(g) && g.Recursive() && Renders(g, c) && j < c.N && s < c.NumStates()
    requires g.Systematic(c.N - 1 - j)
    ensures BitAt(c.nextOutput[s][0], j) == 0 && BitAt(c.tail.value.output[s], j) == c.nextState[s][0] % 2
  {
    RenderedBit(g, c, s, j);
    RenderedTailBit(g, c, s, j);
    NewestBit(g, s, 0);
    SystematicTail(g, s, c.N - 1 - j);
  }

  lemma {:induction false} SystematicTail(g: Polys, s: nat, i: nat)
    requires OuterTaps(g) && g.Recursive() && s < Pow2(g.k - 1) && i < |g.list| && g.Systematic(i)
    ensures g.NextTermOutput(s)[i] == Feedback(g, s)
  {
    TermOutputBit(g, s, i);
  }

  lemma {:induction false} PlainBits(g: Polys, c: Code, j: nat)
    requires OuterTaps(g) && g.Recursive() && Renders(g, c) && j < c.N && !g.Systematic(c.N - 1 - j)
    ensures !LooksSystematic(c, j)
  {
    var s := NotSystematic(g, c.N - 1 - j);
    RenderedBit(g, c, s, j);
  }

  /** The decoder's search finds systematic outputs only, and there is one. */
  lemma {:induction false} PolySystematic(g: Polys, c: Code, j: nat)
    requires OuterTaps(g) && g.Recursive() && Renders(g, c) && j < c.N
    ensures LooksSystematic(c, j) <==> g.Systematic(c.N - 1 - j)
    ensures LooksSystematic(c, j) ==> CarriesFeedback(c, j)
  {
    if g.Systematic(c.N - 1 - j) {
      forall s | 0 <= s < c.NumStates()
        ensures BitAt(c.nextOutput[s][0], j) == 0 && BitAt(c.tail.value.output[s], j) == c.nextState[s][0] % 2
      {
        SystematicBits(g, c, s, j);
      }
    } else {
      PlainBits(g, c, j);
    }
  }

  /** Polynomial codes with the outermost taps are butterfly codes that lose no information. */
  lemma {:induction false} PolyButterfly(g: Polys, len: nat, term: Term, puncture: Option<seq<int>>)
    requires OuterTaps(g) && (puncture.Some? ==> PunctureList(puncture.value))
    ensures var c := PolyCode(g, len, term, puncture);
            Butterfly(c) && SplitsStates(c) && SplitsOutputs(c) && FlushesToZero(c)
  {
    var c := PolyCode(g, len, term, puncture);
    PolyRenders(g, len, term, puncture);
    PolyFlushShifts(g, len, term, puncture);
    ShiftsFlushToZero(c);
    forall s | 0 <= s < c.NumStates()
      ensures ShiftsAt(c, s) && c.nextState[s][0] != c.nextState[s][1] && c.nextOutput[s][0] != c.nextOutput[s][1]
    {
      PolyShiftsAt(g, c, s);
      assert OutBits(c.N, c.nextOutput[s][0])[0] == 1 - OutBits(c.N, c.nextOutput[s][1])[0];
    }
    forall s | 0 <= s < Pow2(c.K - 2)
      ensures OldestFlips(c, s)
    {
      PolyOldestFlips(g, c, s);
    }
    if g.Recursive() {
      var i :| 0 <= i < |g.list| && g.Systematic(i);
      PolySystematic(g, c, c.N - 1 - i);
      forall j | 0 <= j < c.N && LooksSystematic(c, j)
        ensures CarriesFeedback(c, j)
      {
        PolySystematic(g, c, j);
      }
    }
  }
}
