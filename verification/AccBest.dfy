/** What the accelerated decoder maximises: the paths behind the exact sums, and when the start bonus makes the best
    start state 0. */
module AccBest {
  import opened Bits
  import opened SoftBits
  import opened ConvCode
  import opened ConvPoly
  import opened ConvDecode
  import opened AccCode
  import opened AccSums
  import opened AccTrellis
  import opened AccDecoder

  /** Start bonus of a state in the code's own numbering. */
  function StartBonus(c: Code, s: nat): int {
    if s == 0 then Bonus(c) else 0
  }

  /** What the decoder maximises: start bonus plus correlation of the received block with the sent block. */
  function Score(c: Code, x: seq<SBit>, s: nat, msg: seq<Bit>): int
    requires s < c.NumStates() && |msg| == c.len && |x| == Times(c.N, c.Steps())
  {
    StartBonus(c, s) + Corr(x, Coded(c, s, BlockMoves(c, msg)))
  }

  /** No start state and message scores higher. */
  ghost predicate Best(c: Code, x: seq<SBit>, s: nat, msg: seq<Bit>)
    requires s < c.NumStates() && |msg| == c.len && |x| == Times(c.N, c.Steps())
  {
    forall s', other: seq<Bit> :: 0 <= s' < c.NumStates() && |other| == c.len ==>
      Score(c, x, s', other) <= Score(c, x, s, msg)
  }

  /** `msg` is a best message, from some start state. */
  ghost predicate FoundBest(c: Code, x: seq<SBit>, msg: seq<Bit>)
    requires |x| == Times(c.N, c.Steps())
  {
    |msg| == c.len && exists s :: 0 <= s < c.NumStates() && Best(c, x, s, msg)
  }

  // ---------------------------------------------------------------------------
  // Flush steps are data steps

  /** In a butterfly code a flush step is the data step that shifts in a 0. */
  lemma TailIsData(c: Code, s: nat)
    requires c.K >= 2 && s < c.NumStates() && ShiftsAt(c, s)
    ensures Next(c, s, Tail) == Next(c, s, Data(InBit(c, s, 0)))
    ensures Out(c, s, Tail) == Out(c, s, Data(InBit(c, s, 0)))
  {
  }

  ghost predicate AllShift(c: Code) {
    c.K >= 2 && forall s :: 0 <= s < c.NumStates() ==> ShiftsAt(c, s)
  }

  lemma {:induction false} TailToData(c: Code, s: nat, n: nat) returns (bits: seq<Bit>)
    requires AllShift(c) && s < c.NumStates()
    ensures |bits| == n
    ensures Run(c, s, DataMoves(bits)) == Run(c, s, TailMoves(n))
    ensures Coded(c, s, DataMoves(bits)) == Coded(c, s, TailMoves(n))
  {
    if n == 0 {
      bits := [];
    } else {
      var front := TailToData(c, s, n - 1);
      var t := Run(c, s, TailMoves(n - 1));
      assert ShiftsAt(c, t);
      TailIsData(c, t);
      bits := front + [InBit(c, t, 0)];
      assert DataMoves(bits)[..n - 1] == DataMoves(front);
      assert TailMoves(n)[..n - 1] == TailMoves(n - 1);
    }
  }

  /** A data path that ends in a multiple of 2^n took n steps that shifted in zeros at the end. */
  lemma {:induction false} DataToTail(c: Code, s: nat, msg: seq<Bit>, n: nat)
    requires AllShift(c) && s < c.NumStates() && n <= |msg| && n <= c.K - 1
    requires Run(c, s, DataMoves(msg)) % Pow2(n) == 0
    ensures Coded(c, s, DataMoves(msg)) == Coded(c, s, DataMoves(msg[..|msg| - n]) + TailMoves(n))
    ensures Run(c, s, DataMoves(msg)) == Run(c, s, DataMoves(msg[..|msg| - n]) + TailMoves(n))
    decreases n
  {
    if n == 0 {
      assert msg[..|msg|] == msg && DataMoves(msg) + TailMoves(0) == DataMoves(msg);
    } else {
      var m := |msg| - 1;
      var front, head := msg[..m], msg[..|msg| - n];
      var t := LastBitShifts(c, s, msg, n);
      DataToTail(c, s, front, n - 1);
      assert front[..m - (n - 1)] == head;
      LastMove(c, s, msg, DataMoves(head) + TailMoves(n - 1), t);
      OneTailMore(DataMoves(head), n);
    }
  }

  lemma {:induction false} LastBitShifts(c: Code, s: nat, msg: seq<Bit>, n: nat) returns (t: nat)
    requires AllShift(c) && s < c.NumStates() && msg != [] && 1 <= n <= c.K - 1
    requires Run(c, s, DataMoves(msg)) % Pow2(n) == 0
    ensures t == Run(c, s, DataMoves(msg[..|msg| - 1])) < c.NumStates() && ShiftsAt(c, t)
    ensures t % Pow2(n - 1) == 0 && msg[|msg| - 1] == InBit(c, t, 0)
  {
    var m := |msg| - 1;
    assert DataMoves(msg)[..m] == DataMoves(msg[..m]);
    t := Run(c, s, DataMoves(msg[..m]));
    ZeroShifted(c, t, msg[m], n);
  }

  lemma {:induction false} OneTailMore(moves: seq<Move>, n: nat)
    requires n > 0
    ensures moves + TailMoves(n) == moves + TailMoves(n - 1) + [Tail]
  {
    assert TailMoves(n) == TailMoves(n - 1) + [Tail];
  }

  /** The last data bit of a message as a flush step. */
  lemma {:induction false} LastMove(c: Code, s: nat, msg: seq<Bit>, moves: seq<Move>, t: nat)
    requires c.K >= 2 && s < c.NumStates() && msg != [] && t < c.NumStates() && ShiftsAt(c, t)
    requires Run(c, s, DataMoves(msg[..|msg| - 1])) == t == Run(c, s, moves)
    requires Coded(c, s, DataMoves(msg[..|msg| - 1])) == Coded(c, s, moves) && msg[|msg| - 1] == InBit(c, t, 0)
    ensures Run(c, s, DataMoves(msg)) == Run(c, s, moves + [Tail])
    ensures Coded(c, s, DataMoves(msg)) == Coded(c, s, moves + [Tail])
  {
    var m := |msg| - 1;
    assert DataMoves(msg)[..m] == DataMoves(msg[..m]);
    assert (moves + [Tail])[..|moves|] == moves;
    TailIsData(c, t);
  }

  lemma {:induction false} ZeroShifted(c: Code, t: nat, b: Bit, n: nat)
    requires c.K >= 2 && t < c.NumStates() && ShiftsAt(c, t) && 1 <= n <= c.K - 1
    requires c.nextState[t][b] % Pow2(n) == 0
    ensures b == InBit(c, t, 0) && t % Pow2(n - 1) == 0
  {
    var v, nb: Bit := t % Pow2(c.K - 2), c.nextState[t][b] % 2;
    assert c.nextState[t][b] == 2 * v + nb;
    HalfMod(v, n);
    ModOfMod(t, c.K - 2, n - 1);
  }

  // ---------------------------------------------------------------------------
  // The best message

  lemma {:induction false} StartSumsAre(c: Code, s: nat)
    requires !c.term.TailBiting? && c.K >= 2 && s < c.NumStates()
    ensures StartSums(c)[Rev(c.K - 1, s)] == StartBonus(c, s)
    ensures Within(StartSums(c), 0, Bonus(c))
  {
    RevTwice(c.K - 1, s);
    RevZero(c.K - 1);
  }

  /** A message's score is bounded by the exact sum of the state its path ends in. */
  lemma {:induction false} ScoreBelow(c: Code, x: seq<SBit>, s: nat, msg: seq<Bit>)
    requires Butterfly(c) && !c.term.TailBiting? && s < c.NumStates() && |msg| == c.len && |x| == Times(c.N, c.Steps())
    ensures Score(c, x, s, msg) <= ExactSums(H(c), MetricRows(c, x, c.Steps()), StartSums(c), c.Steps())
                                     [Rev(c.K - 1, Run(c, s, BlockMoves(c, msg)))]
  {
    var bits := BlockAsData(c, s, msg);
    WalkBelow(c, x, c.Steps(), StartSums(c), s, msg + bits);
    assert x[..Times(c.N, c.Steps())] == x;
    StartSumsAre(c, s);
  }

  /** The flush of a block as data bits. */
  lemma {:induction false} BlockAsData(c: Code, s: nat, msg: seq<Bit>) returns (bits: seq<Bit>)
    requires AllShift(c) && s < c.NumStates() && |msg| == c.len
    ensures |msg + bits| == c.Steps()
    ensures Run(c, s, DataMoves(msg + bits)) == Run(c, s, BlockMoves(c, msg))
    ensures Coded(c, s, DataMoves(msg + bits)) == Coded(c, s, BlockMoves(c, msg))
  {
    var n := if c.term.Flush? then c.K - 1 else 0;
    bits := TailToData(c, Run(c, s, DataMoves(msg)), n);
    assert DataMoves(msg + bits) == DataMoves(msg) + DataMoves(bits);
    assert BlockMoves(c, msg) == DataMoves(msg) + TailMoves(n);
    RunAppend(c, s, DataMoves(msg), DataMoves(bits));
    RunAppend(c, s, DataMoves(msg), TailMoves(n));
    CodedAppend(c, s, DataMoves(msg), DataMoves(bits));
    CodedAppend(c, s, DataMoves(msg), TailMoves(n));
  }

  /** All path selections of a run are those the exact sums would make. */
  ghost predicate ExactPaths(c: Code, x: seq<SBit>, paths: seq<seq<int>>)
    requires c.K >= 2 && |x| == Times(c.N, c.Steps())
  {
    && |paths| == c.Steps()
    && forall i :: 0 <= i < |paths| ==>
         paths[i] == Paths(H(c), ExactSums(H(c), MetricRows(c, x, c.Steps()), StartSums(c), i),
                           MetricRows(c, x, c.Steps())[i])
  }

  /** The traceback from state 0 after a flush, or from the end of a truncated block, scores the exact sum. */
  lemma {:induction false} TraceScores(c: Code, x: seq<SBit>, paths: seq<seq<int>>, end: nat) returns (s: nat)
    requires Butterfly(c) && !c.term.TailBiting? && |x| == Times(c.N, c.Steps()) && end < c.NumStates()
    requires ExactPaths(c, x, paths) && Selections(H(c), paths) && (c.term.Flush? ==> end == 0)
    ensures s < c.NumStates()
    ensures var msg := TraceMsg(c, TraceStates(H(c), paths, end))[..c.len];
            Score(c, x, s, msg) == ExactSums(H(c), MetricRows(c, x, c.Steps()), StartSums(c), c.Steps())[end]
  {
    var states := TraceStates(H(c), paths, end);
    s := TraceScored(c, x, paths, states);
    WholePath(c, s, TraceMsg(c, states), end);
  }

  /** The whole traceback as a data path. */
  lemma {:induction false} TraceScored(c: Code, x: seq<SBit>, paths: seq<seq<int>>, states: seq<nat>) returns (s: nat)
    requires Butterfly(c) && !c.term.TailBiting? && |x| == Times(c.N, c.Steps())
    requires ExactPaths(c, x, paths) && Traced(H(c), paths, states)
    ensures s < c.NumStates() && |TraceMsg(c, states)| == c.Steps()
    ensures Run(c, s, DataMoves(TraceMsg(c, states))) == Rev(c.K - 1, states[c.Steps()])
    ensures StartBonus(c, s) + Corr(x, Coded(c, s, DataMoves(TraceMsg(c, states))))
         == ExactSums(H(c), MetricRows(c, x, c.Steps()), StartSums(c), c.Steps())[states[c.Steps()]]
  {
    s := Rev(c.K - 1, states[0]);
    TraceAttains(c, x, c.Steps(), StartSums(c), paths, states);
    assert x[..Times(c.N, c.Steps())] == x;
    RevTwice(c.K - 1, states[0]);
    StartSumsAre(c, s);
  }

  /** A data path of full length is the block of its first bits. */
  lemma {:induction false} WholePath(c: Code, s: nat, all: seq<Bit>, end: nat)
    requires Butterfly(c) && s < c.NumStates() && |all| == c.Steps() && end < c.NumStates()
    requires Run(c, s, DataMoves(all)) == Rev(c.K - 1, end) && (c.term.Flush? ==> end == 0)
    ensures Coded(c, s, BlockMoves(c, all[..c.len])) == Coded(c, s, DataMoves(all))
  {
    if c.term.Flush? {
      RevZero(c.K - 1);
      FlushedBlock(c, s, all);
    } else {
      TruncatedBlock(c, s, all);
    }
  }

  /** A data path to state 0 is a flushed block. */
  lemma {:induction false} FlushedBlock(c: Code, s: nat, all: seq<Bit>)
    requires AllShift(c) && c.term.Flush? && s < c.NumStates() && |all| == c.Steps() && Run(c, s, DataMoves(all)) == 0
    ensures Coded(c, s, BlockMoves(c, all[..c.len])) == Coded(c, s, DataMoves(all))
  {
    SmallMod(0, Pow2(c.K - 1));
    DataToTail(c, s, all, c.K - 1);
    assert all[..|all| - (c.K - 1)] == all[..c.len];
    assert BlockMoves(c, all[..c.len]) == DataMoves(all[..c.len]) + TailMoves(c.K - 1);
  }

  lemma {:induction false} TruncatedBlock(c: Code, s: nat, all: seq<Bit>)
    requires !c.term.Flush? && s < c.NumStates() && |all| == c.Steps()
    ensures Coded(c, s, BlockMoves(c, all[..c.len])) == Coded(c, s, DataMoves(all))
  {
    assert all[..c.len] == all;
    assert BlockMoves(c, all) == DataMoves(all);
  }

  lemma {:induction false} BestFound(c: Code, x: seq<SBit>, paths: seq<seq<int>>, end: nat) returns (s: nat)
    requires Butterfly(c) && !c.term.TailBiting? && |x| == Times(c.N, c.Steps()) && end < c.NumStates()
    requires ExactPaths(c, x, paths) && Selections(H(c), paths)
    requires if c.term.Flush? then end == 0
             else forall r :: 0 <= r < c.NumStates() ==>
               ExactSums(H(c), MetricRows(c, x, c.Steps()), StartSums(c), c.Steps())[r]
               <= ExactSums(H(c), MetricRows(c, x, c.Steps()), StartSums(c), c.Steps())[end]
    ensures s < c.NumStates() && Best(c, x, s, TraceMsg(c, TraceStates(H(c), paths, end))[..c.len])
  {
    s := TraceScores(c, x, paths, end);
    var msg := TraceMsg(c, TraceStates(H(c), paths, end))[..c.len];
    forall s', other: seq<Bit> | 0 <= s' < c.NumStates() && |other| == c.len
      ensures Score(c, x, s', other) <= Score(c, x, s, msg)
    {
      NoneBetter(c, x, end, s', other);
    }
  }

  lemma {:induction false} NoneBetter(c: Code, x: seq<SBit>, end: nat, s: nat, other: seq<Bit>)
    requires Butterfly(c) && !c.term.TailBiting? && |x| == Times(c.N, c.Steps()) && end < c.NumStates()
    requires if c.term.Flush? then end == 0
             else forall r :: 0 <= r < c.NumStates() ==>
               ExactSums(H(c), MetricRows(c, x, c.Steps()), StartSums(c), c.Steps())[r]
               <= ExactSums(H(c), MetricRows(c, x, c.Steps()), StartSums(c), c.Steps())[end]
    requires s < c.NumStates() && |other| == c.len
    ensures Score(c, x, s, other) <= ExactSums(H(c), MetricRows(c, x, c.Steps()), StartSums(c), c.Steps())[end]
  {
    ScoreBelow(c, x, s, other);
    if c.term.Flush? {
      BlockEndsInZero(c, s, other);
    }
  }

  lemma {:induction false} BlockEndsInZero(c: Code, s: nat, msg: seq<Bit>)
    requires Butterfly(c) && c.term.Flush? && s < c.NumStates()
    ensures Rev(c.K - 1, Run(c, s, BlockMoves(c, msg))) == 0
  {
    ButterflyFlushes(c);
    RunAppend(c, s, DataMoves(msg), TailMoves(c.K - 1));
    assert FlushEnd(c, Run(c, s, DataMoves(msg))) == 0;
    RevZero(c.K - 1);
  }

  lemma {:induction false} ButterflyFlushes(c: Code)
    requires Butterfly(c)
    ensures FlushesToZero(c)
  {
    forall s | 0 <= s < c.NumStates()
      ensures Next(c, s, Tail) == 2 * (s % Pow2(c.K - 2))
    {
      assert ShiftsAt(c, s);
    }
    ShiftsFlushToZero(c);
  }

  // ---------------------------------------------------------------------------
  // The start state

  /** The data bits that shift into `s'` what `bits` shift into `s`. */
  function Follow(c: Code, s: nat, s': nat, bits: seq<Bit>): (f: seq<Bit>)
    requires s < c.NumStates() && s' < c.NumStates()
    ensures |f| == |bits|
  {
    if bits == [] then []
    else
      var n := |bits| - 1;
      var f := Follow(c, s, s', bits[..n]);
      f + [InBit(c, Run(c, s', DataMoves(f)), Run(c, s, DataMoves(bits)) % 2)]
  }

  /** One more bit on both sides. */
  lemma {:induction false} FollowMore(c: Code, s: nat, s': nat, bits: seq<Bit>) returns (q: nat, q': nat, b': Bit)
    requires AllShift(c) && s < c.NumStates() && s' < c.NumStates() && bits != []
    ensures var n, f := |bits| - 1, Follow(c, s, s', bits);
            && f[..n] == Follow(c, s, s', bits[..n]) && f[n] == b'
            && q == Run(c, s, DataMoves(bits[..n])) < c.NumStates()
            && q' == Run(c, s', DataMoves(f[..n])) < c.NumStates()
            && Run(c, s, DataMoves(bits)) == c.nextState[q][bits[n]] && Run(c, s', DataMoves(f)) == c.nextState[q'][b']
    ensures c.nextState[q][bits[|bits| - 1]] % 2 == c.nextState[q'][b'] % 2
    ensures q == q' ==> b' == bits[|bits| - 1]
  {
    var n, f := |bits| - 1, Follow(c, s, s', bits);
    assert f[..n] == Follow(c, s, s', bits[..n]);
    assert DataMoves(bits)[..n] == DataMoves(bits[..n]) && DataMoves(f)[..n] == DataMoves(f[..n]);
    q, q', b' := Run(c, s, DataMoves(bits[..n])), Run(c, s', DataMoves(f[..n])), f[n];
    assert ShiftsAt(c, q) && ShiftsAt(c, q');
  }

  /** The two paths have the same low register bits, as many as entered. */
  lemma {:induction false} FollowMeets(c: Code, s: nat, s': nat, bits: seq<Bit>, m: nat)
    requires AllShift(c) && s < c.NumStates() && s' < c.NumStates() && m <= |bits| && m <= c.K - 1
    ensures Run(c, s, DataMoves(bits)) % Pow2(m) == Run(c, s', DataMoves(Follow(c, s, s', bits))) % Pow2(m)
    decreases |bits|
  {
    if m == 0 {
    } else {
      var n := |bits| - 1;
      FollowMeets(c, s, s', bits[..n], m - 1);
      var q, q', b' := FollowMore(c, s, s', bits);
      BothShift(c, q, bits[n], q', b', m);
    }
  }

  lemma {:induction false} BothShift(c: Code, q: nat, b: Bit, q': nat, b': Bit, m: nat)
    requires AllShift(c) && q < c.NumStates() && q' < c.NumStates() && 1 <= m <= c.K - 1
    requires q % Pow2(m - 1) == q' % Pow2(m - 1) && c.nextState[q][b] % 2 == c.nextState[q'][b'] % 2
    ensures c.nextState[q][b] % Pow2(m) == c.nextState[q'][b'] % Pow2(m)
  {
    ShiftedIn(c, q, b, m);
    ShiftedIn(c, q', b', m);
  }

  lemma {:induction false} ShiftedIn(c: Code, q: nat, b: Bit, m: nat)
    requires AllShift(c) && q < c.NumStates() && 1 <= m <= c.K - 1
    ensures c.nextState[q][b] % Pow2(m) == 2 * (q % Pow2(m - 1)) + c.nextState[q][b] % 2
  {
    assert ShiftsAt(c, q);
    var t := c.nextState[q][b];
    assert t == 2 * (q % Pow2(c.K - 2)) + t % 2;
    ShiftedLow(q, c.K - 2, m, t % 2);
  }

  /** After K - 1 steps they have met. */
  lemma {:induction false} FollowMet(c: Code, s: nat, s': nat, bits: seq<Bit>)
    requires AllShift(c) && s < c.NumStates() && s' < c.NumStates() && |bits| >= c.K - 1
    ensures Run(c, s, DataMoves(bits)) == Run(c, s', DataMoves(Follow(c, s, s', bits)))
  {
    FollowMeets(c, s, s', bits, c.K - 1);
    SmallMod(Run(c, s, DataMoves(bits)), Pow2(c.K - 1));
    SmallMod(Run(c, s', DataMoves(Follow(c, s, s', bits))), Pow2(c.K - 1));
  }

  /** What two paths can differ by on the way: twice the largest correlation of a step, for at most K - 1 steps. */
  function Detour(d: nat, k: nat, n: nat): nat {
    Times(2 * d, if n < k then n else k)
  }

  lemma DetourMore(d: nat, k: nat, n: nat)
    ensures Detour(d, k, n + 1) == Detour(d, k, n) + if n < k then 2 * d else 0
  {
  }

  /** One step of it: the same output once the paths have met. */
  lemma {:induction false} FollowStep(c: Code, x: seq<SBit>, t: nat, s: nat, s': nat, bits: seq<Bit>, a: nat)
    requires AllShift(c) && s < c.NumStates() && s' < c.NumStates() && bits != [] && |bits| <= t
    requires |x| == Times(c.N, t) && Amplitude(x, a)
    ensures var n, f := |bits| - 1, Follow(c, s, s', bits);
            var q, q' := Run(c, s, DataMoves(bits[..n])), Run(c, s', DataMoves(f[..n]));
            var sym, d := Sym(c.N, x, t, n), Times(a, c.N);
            Corr(sym, OutBits(c.N, c.nextOutput[q'][f[n]])) >=
            Corr(sym, OutBits(c.N, c.nextOutput[q][bits[n]])) - if n < c.K - 1 then 2 * d else 0
  {
    var n := |bits| - 1;
    var q, q', b' := FollowMore(c, s, s', bits);
    if n >= c.K - 1 {
      FollowMet(c, s, s', bits[..n]);
    } else {
      SymCorr(c, x, t, n, OutBits(c.N, c.nextOutput[q][bits[n]]), a);
      SymCorr(c, x, t, n, OutBits(c.N, c.nextOutput[q'][b']), a);
    }
  }

  lemma {:induction false} FollowCorr(c: Code, x: seq<SBit>, t: nat, s: nat, s': nat, bits: seq<Bit>, a: nat)
    requires AllShift(c) && s < c.NumStates() && s' < c.NumStates() && |bits| <= t
    requires |x| == Times(c.N, t) && Amplitude(x, a)
    ensures Times(c.N, |bits|) <= |x|
    ensures Corr(x[..Times(c.N, |bits|)], Coded(c, s', DataMoves(Follow(c, s, s', bits)))) >=
            Corr(x[..Times(c.N, |bits|)], Coded(c, s, DataMoves(bits))) - Detour(Times(a, c.N), c.K - 1, |bits|)
    decreases |bits|
  {
    TimesMono(c.N, |bits|, t);
    if bits == [] {
    } else {
      var n := |bits| - 1;
      var f := Follow(c, s, s', bits);
      FollowCorr(c, x, t, s, s', bits[..n], a);
      var q, q', b' := FollowMore(c, s, s', bits);
      CorrStep(c, x, t, n, s, bits);
      CorrStep(c, x, t, n, s', f);
      FollowStep(c, x, t, s, s', bits, a);
      DetourMore(Times(a, c.N), c.K - 1, n);
    }
  }

  lemma {:induction false} SymCorr(c: Code, x: seq<SBit>, t: nat, i: nat, bits: seq<Bit>, a: nat)
    requires |x| == Times(c.N, t) && i < t && Amplitude(x, a) && |bits| == c.N
    ensures Small(Corr(Sym(c.N, x, t, i), bits), Times(a, c.N))
  {
    var sym := Sym(c.N, x, t, i);
    TimesMono(c.N, i + 1, t);
    forall k | 0 <= k < |sym|
      ensures Small(sym[k], a)
    {
      assert sym[k] == x[Times(c.N, i) + k];
    }
    CorrBound(sym, bits, a);
  }

  /** From every start state and message there is a message from state 0 that correlates nearly as well. */
  lemma {:induction false} FromZero(c: Code, x: seq<SBit>, s: nat, msg: seq<Bit>, a: nat) returns (other: seq<Bit>)
    requires Butterfly(c) && s < c.NumStates() && |msg| == c.len
    requires |x| == Times(c.N, c.Steps()) && Amplitude(x, a)
    ensures |other| == c.len
    ensures Corr(x, Word(c, other)) >=
            Corr(x, Coded(c, s, BlockMoves(c, msg))) - Times(2 * Times(a, c.N), c.K - 1)
  {
    var tail := BlockAsData(c, s, msg);
    var all := msg + tail;
    var f := Follow(c, s, 0, all);
    FollowCorr(c, x, c.Steps(), s, 0, all, a);
    assert x[..|x|] == x;
    TimesMono(2 * Times(a, c.N), if |all| < c.K - 1 then |all| else c.K - 1, c.K - 1);
    other := f[..c.len];
    if c.term.Flush? {
      FollowMet(c, s, 0, all);
      BlockEnd(c, s, msg);
      FlushedBlock(c, 0, f);
    } else {
      TruncatedBlock(c, 0, f);
    }
  }

  lemma {:induction false} BlockEnd(c: Code, s: nat, msg: seq<Bit>)
    requires Butterfly(c) && c.term.Flush? && s < c.NumStates()
    ensures Run(c, s, BlockMoves(c, msg)) == 0
  {
    ButterflyFlushes(c);
    RunAppend(c, s, DataMoves(msg), TailMoves(c.K - 1));
    assert FlushEnd(c, Run(c, s, DataMoves(msg))) == 0;
  }

  /** The start bonus outweighs every detour. */
  ghost predicate BonusDecides(c: Code, a: nat)
    requires c.K >= 1
  {
    Times(2 * Times(a, c.N), c.K - 1) < Bonus(c)
  }

  /** No message correlates better with the block than `msg`, all of them sent from state 0. */
  ghost predicate BestMessage(c: Code, x: seq<SBit>, msg: seq<Bit>)
    requires |x| == Times(c.N, c.Steps()) && |msg| == c.len
  {
    forall other: seq<Bit> :: |other| == c.len ==> Corr(x, Word(c, other)) <= Corr(x, Word(c, msg))
  }

  /** Then the best start state is 0, noise or not, and the best message is the one that correlates best. */
  lemma {:induction false} StartsAtZero(c: Code, x: seq<SBit>, s: nat, msg: seq<Bit>, a: nat)
    requires Butterfly(c) && s < c.NumStates() && |msg| == c.len && |x| == Times(c.N, c.Steps())
    requires Amplitude(x, a) && BonusDecides(c, a) && Best(c, x, s, msg)
    ensures s == 0 && BestMessage(c, x, msg)
  {
    var zero := FromZero(c, x, s, msg, a);
    assert Score(c, x, 0, zero) <= Score(c, x, s, msg);
    forall other: seq<Bit> | |other| == c.len
      ensures Corr(x, Word(c, other)) <= Corr(x, Word(c, msg))
    {
      assert Score(c, x, 0, other) <= Score(c, x, s, msg);
    }
  }

  /** It does for soft bits up to 79 with K = 5 and up to 74 with K = 7, and for no larger amplitude. */
  lemma {:induction false} BonusDecidesExactly(c: Code, a: nat)
    requires Butterfly(c)
    ensures BonusDecides(c, a) <==> a <= if c.K == 5 then 79 else 74
  {
    BonusIsProduct(c);
    TimesIsProduct(a, c.N);
    TimesIsProduct(2 * Times(a, c.N), c.K - 1);
  }

  /** The two decoders on the same block: the accelerated one's message correlates at least as well as the generic
      one's, and better by no more than the rounding of the generic one's errors. */
  lemma {:induction false} DecodersAgree(c: Code, input: seq<SBit>, acc: seq<Bit>, generic: seq<Bit>)
    requires |input| >= Need(c.Punctured(), 0, Times(c.N, c.Steps())) && |acc| == |generic| == c.len
    requires BestMessage(c, Received(c, input), acc) && Nearest(c, input, generic)
    ensures var x := Received(c, input);
            0 <= Corr(x, Word(c, acc)) - Corr(x, Word(c, generic)) <= 2 * Differ(x, Word(c, acc), Word(c, generic))
  {
    NearestMeans(c, input, generic);
  }
}
