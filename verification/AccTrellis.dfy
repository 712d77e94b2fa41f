/** The butterfly graph against the code: its walks are the code's paths under the bit-reversed
    numbering, its metrics the paths' correlation with the received block. */
module AccTrellis {
  import opened Bits
  import opened SoftBits
  import opened ConvCode
  import opened AccCode
  import opened AccSums

  ghost predicate Amplitude(x: seq<SBit>, a: nat) {
    forall i :: 0 <= i < |x| ==> Small(x[i], a)
  }

  lemma {:induction false} CorrBound(x: seq<SBit>, bits: seq<Bit>, a: nat)
    requires |x| == |bits| && Amplitude(x, a)
    ensures Small(Corr(x, bits), Times(a, |x|))
    decreases |x|
  {
    if x == [] {
    } else {
      CorrBound(x[..|x| - 1], bits[..|x| - 1], a);
      assert Small(x[|x| - 1], a);
    }
  }

  /** The N soft bits of step `i`. */
  function Sym(n: nat, x: seq<SBit>, t: nat, i: nat): (s: seq<SBit>)
    requires |x| == Times(n, t) && i < t
    ensures |s| == n
  {
    TimesMono(n, i + 1, t);
    x[Times(n, i)..Times(n, i + 1)]
  }

  /** Half the number of states. */
  function H(c: Code): (h: nat)
    requires c.K >= 2
    ensures h > 0 && 2 * h == c.NumStates()
  {
    Pow2(c.K - 2)
  }

  /** One metric per butterfly: correlation with the output on the edge from state 2i to state i. */
  function Metrics(c: Code, sym: seq<SBit>): (m: seq<int>)
    requires c.K >= 2 && |sym| == c.N
    ensures |m| == H(c)
  {
    seq(H(c), i requires 0 <= i < H(c) => Corr(sym, OutBits(c.N, EdgeOut(c, Rev(c.K - 1, 2 * i), 0))))
  }

  function MetricRows(c: Code, x: seq<SBit>, t: nat): (ms: seq<seq<int>>)
    requires c.K >= 2 && |x| == Times(c.N, t)
    ensures |ms| == t && Rows(H(c), ms)
  {
    seq(t, i requires 0 <= i < t => Metrics(c, Sym(c.N, x, t, i)))
  }

  lemma {:induction false} MetricsBound(c: Code, x: seq<SBit>, t: nat, a: nat)
    requires c.K >= 2 && |x| == Times(c.N, t) && Amplitude(x, a)
    ensures Bounded(MetricRows(c, x, t), Times(a, c.N))
  {
    var ms := MetricRows(c, x, t);
    forall i, j | 0 <= i < |ms| && 0 <= j < |ms[i]|
      ensures Small(ms[i][j], Times(a, c.N))
    {
      var sym := Sym(c.N, x, t, i);
      TimesMono(c.N, i + 1, t);
      forall k | 0 <= k < |sym|
        ensures Small(sym[k], a)
      {
        assert sym[k] == x[Times(c.N, i) + k];
      }
      CorrBound(sym, OutBits(c.N, EdgeOut(c, Rev(c.K - 1, 2 * j), 0)), a);
    }
  }

  // ---------------------------------------------------------------------------
  // Edges

  /** The even and the odd predecessor of a butterfly differ in the oldest bit. */
  lemma {:induction false} RevPair(n: nat, i: nat)
    requires n >= 1 && i < Pow2(n - 1)
    ensures Rev(n, 2 * i) < Pow2(n - 1) && Rev(n, 2 * i + 1) == Rev(n, 2 * i) + Pow2(n - 1)
  {
    assert (2 * i) / 2 == i == (2 * i + 1) / 2;
  }

  /** The outputs on the four edges of a butterfly: one of them or its opposite. */
  lemma {:induction false} FourEdges(c: Code, s: nat)
    requires Butterfly(c) && s < H(c)
    ensures Opposite(c.N, EdgeOut(c, s, 1), EdgeOut(c, s, 0)) &&
            Opposite(c.N, EdgeOut(c, s, 0), EdgeOut(c, s + H(c), 0))
    ensures Opposite(c.N, EdgeOut(c, s + H(c), 1), EdgeOut(c, s + H(c), 0))
  {
    assert ShiftsAt(c, s) && ShiftsAt(c, s + H(c)) && OldestFlips(c, s);
    OppositeEdges(c, s);
    OppositeEdges(c, s + H(c));
  }

  lemma {:induction false} OppositeEdges(c: Code, s: nat)
    requires c.K >= 2 && s < c.NumStates() && ShiftsAt(c, s)
    ensures Opposite(c.N, EdgeOut(c, s, 1), EdgeOut(c, s, 0))
  {
    var a, b := OutBits(c.N, c.nextOutput[s][0]), OutBits(c.N, c.nextOutput[s][1]);
    assert forall j :: 0 <= j < c.N ==> a[j] == 1 - b[j];
  }

  lemma {:induction false} OppositeCorr(n: nat, sym: seq<SBit>, o: nat, o': nat)
    requires |sym| == n && Opposite(n, o, o')
    ensures Corr(sym, OutBits(n, o)) == -Corr(sym, OutBits(n, o'))
  {
    CorrOpposite(sym, OutBits(n, o), OutBits(n, o'));
  }

  /** All four edges of a butterfly: the branch metric or its negation is the correlation with the output. */
  lemma {:induction false} EdgeMetric(c: Code, sym: seq<SBit>, p: nat, nb: Bit)
    requires Butterfly(c) && |sym| == c.N && p < c.NumStates()
    ensures var m := Metrics(c, sym)[p / 2];
            (if p % 2 == nb then m else -m) == Corr(sym, OutBits(c.N, EdgeOut(c, Rev(c.K - 1, p), nb)))
  {
    RevOdd(c.K - 1, p);
    ButterflyCorr(c, sym, Rev(c.K - 1, 2 * (p / 2)), p % 2, nb);
  }

  lemma {:induction false} RevOdd(n: nat, p: nat)
    requires n >= 1 && p < Pow2(n)
    ensures Rev(n, 2 * (p / 2)) < Pow2(n - 1) && Rev(n, p) == Rev(n, 2 * (p / 2)) + Top(p % 2, Pow2(n - 1))
  {
    RevPair(n, p / 2);
    assert p == 2 * (p / 2) + p % 2;
  }

  /** Correlation on the edge from the even (odd) predecessor with new bit `nb`. */
  lemma {:induction false} ButterflyCorr(c: Code, sym: seq<SBit>, s: nat, odd: Bit, nb: Bit)
    requires Butterfly(c) && |sym| == c.N && s < H(c)
    ensures var m := Corr(sym, OutBits(c.N, EdgeOut(c, s, 0)));
            (if odd == nb then m else -m) == Corr(sym, OutBits(c.N, EdgeOut(c, s + Top(odd, H(c)), nb)))
  {
    FourEdges(c, s);
    OppositeCorr(c.N, sym, EdgeOut(c, s, 1), EdgeOut(c, s, 0));
    OppositeCorr(c.N, sym, EdgeOut(c, s, 0), EdgeOut(c, s + H(c), 0));
    OppositeCorr(c.N, sym, EdgeOut(c, s + H(c), 1), EdgeOut(c, s + H(c), 0));
  }

  /** Shifting a register left is shifting the reversed register right. */
  lemma {:induction false} RevNext(n: nat, s: nat, t: nat)
    requires n >= 1 && s < Pow2(n) && t < Pow2(n) && t / 2 == s % Pow2(n - 1)
    ensures Rev(n, s) / 2 < Pow2(n - 1) && Rev(n, t) == Rev(n, s) / 2 + Top(t % 2, Pow2(n - 1))
  {
    var h, p, nb: Bit := Pow2(n - 1), Rev(n, s), t % 2;
    var u := p / 2;
    var w := u + Top(nb, h);
    RevTwice(n, s);
    assert s == Top(p % 2, h) + Rev(n - 1, u);
    LowBits(s, h, Rev(n - 1, u));
    assert Rev(n, w) == t by {
      RevShift(n, u, nb);
    }
    RevTwice(n, w);
  }

  /** The successor of a state, in the reversed numbering. */
  lemma {:induction false} NextRev(c: Code, s: nat, b: Bit)
    requires c.K >= 2 && s < c.NumStates() && ShiftsAt(c, s)
    ensures var nb: Bit := c.nextState[s][b] % 2;
            && InBit(c, s, nb) == b
            && Rev(c.K - 1, s) / 2 < H(c)
            && Rev(c.K - 1, c.nextState[s][b]) == Rev(c.K - 1, s) / 2 + Top(nb, H(c))
  {
    RevNext(c.K - 1, s, c.nextState[s][b]);
  }

  lemma {:induction false} LowBits(s: nat, h: nat, v: nat)
    requires v < h && (s == v || s == h + v)
    ensures s % h == v
  {
    if s == v {
      SmallMod(s, h);
    } else {
      ModUnique(s, h, 1, v);
    }
  }

  // ---------------------------------------------------------------------------
  // Walks

  /** The received block of the first `i` steps. */
  lemma {:induction false} CorrStep(c: Code, x: seq<SBit>, t: nat, i: nat, s: nat, msg: seq<Bit>)
    requires |x| == Times(c.N, t) && i < t && s < c.NumStates() && |msg| == i + 1
    ensures Times(c.N, i) <= Times(c.N, i + 1) <= |x|
    ensures var q := Run(c, s, DataMoves(msg[..i]));
            && Run(c, s, DataMoves(msg)) == c.nextState[q][msg[i]]
            && Corr(x[..Times(c.N, i + 1)], Coded(c, s, DataMoves(msg)))
            == Corr(x[..Times(c.N, i)], Coded(c, s, DataMoves(msg[..i])))
               + Corr(Sym(c.N, x, t, i), OutBits(c.N, c.nextOutput[q][msg[i]]))
  {
    TimesMono(c.N, i + 1, t);
    assert DataMoves(msg)[..i] == DataMoves(msg[..i]);
    var q := Run(c, s, DataMoves(msg[..i]));
    assert x[..Times(c.N, i + 1)] == x[..Times(c.N, i)] + Sym(c.N, x, t, i);
    CorrAppend(x[..Times(c.N, i)], Sym(c.N, x, t, i), Coded(c, s, DataMoves(msg[..i])),
        OutBits(c.N, c.nextOutput[q][msg[i]]));
  }

  /** Every code path is a walk: the exact sum of its end state is at least its start sum plus its correlation. */
  lemma {:induction false} WalkBelow(c: Code, x: seq<SBit>, t: nat, init: seq<int>, s: nat, msg: seq<Bit>)
    requires Butterfly(c) && |x| == Times(c.N, t) && |init| == c.NumStates() && s < c.NumStates() && |msg| <= t
    ensures Times(c.N, |msg|) <= |x|
    ensures ExactSums(H(c), MetricRows(c, x, t), init, |msg|)[Rev(c.K - 1, Run(c, s, DataMoves(msg)))]
         >= init[Rev(c.K - 1, s)] + Corr(x[..Times(c.N, |msg|)], Coded(c, s, DataMoves(msg)))
    decreases |msg|
  {
    TimesMono(c.N, |msg|, t);
    if msg == [] {
    } else {
      var i := |msg| - 1;
      WalkBelow(c, x, t, init, s, msg[..i]);
      CorrStep(c, x, t, i, s, msg);
      WalkEdge(c, x, t, init, i, Run(c, s, DataMoves(msg[..i])), msg[i]);
    }
  }

  /** One edge of a walk: its candidate is the sum of its start plus its correlation. */
  lemma {:induction false} WalkEdge(c: Code, x: seq<SBit>, t: nat, init: seq<int>, i: nat, q: nat, b: Bit)
    requires Butterfly(c) && |x| == Times(c.N, t) && |init| == c.NumStates() && q < c.NumStates() && i < t
    ensures var sums, m := ExactSums(H(c), MetricRows(c, x, t), init, i), MetricRows(c, x, t)[i];
            var p, r := Rev(c.K - 1, q), Rev(c.K - 1, c.nextState[q][b]);
            && Cand(H(c), sums, m, r, p % 2)
            == sums[p] + Corr(Sym(c.N, x, t, i), OutBits(c.N, c.nextOutput[q][b]))
            && ExactSums(H(c), MetricRows(c, x, t), init, i + 1)[r] >= Cand(H(c), sums, m, r, p % 2)
  {
    EdgeCand(c, Sym(c.N, x, t, i), ExactSums(H(c), MetricRows(c, x, t), init, i), q, b);
    CandBelow(H(c), MetricRows(c, x, t), init, i, Rev(c.K - 1, c.nextState[q][b]), Rev(c.K - 1, q) % 2);
  }

  lemma {:induction false} EdgeCand(c: Code, sym: seq<SBit>, sums: seq<int>, q: nat, b: Bit)
    requires Butterfly(c) && |sym| == c.N && |sums| == 2 * H(c) && q < c.NumStates()
    ensures var p, r := Rev(c.K - 1, q), Rev(c.K - 1, c.nextState[q][b]);
            Cand(H(c), sums, Metrics(c, sym), r, p % 2) == sums[p] + Corr(sym, OutBits(c.N, c.nextOutput[q][b]))
  {
    EdgeOf(c, q, b);
    RevTwice(c.K - 1, q);
    CandCorr(c, sym, sums, Rev(c.K - 1, q), c.nextState[q][b] % 2);
  }

  /** The edge of data bit `b`, in the reversed numbering. */
  lemma {:induction false} EdgeOf(c: Code, q: nat, b: Bit)
    requires Butterfly(c) && q < c.NumStates()
    ensures var nb: Bit := c.nextState[q][b] % 2;
            && EdgeOut(c, q, nb) == c.nextOutput[q][b] && Rev(c.K - 1, q) / 2 < H(c)
            && Rev(c.K - 1, c.nextState[q][b]) == Rev(c.K - 1, q) / 2 + Top(nb, H(c))
  {
    assert ShiftsAt(c, q);
    NextRev(c, q, b);
  }

  lemma {:induction false} CandCorr(c: Code, sym: seq<SBit>, sums: seq<int>, p: nat, nb: Bit)
    requires Butterfly(c) && |sym| == c.N && |sums| == 2 * H(c) && p < c.NumStates()
    ensures Cand(H(c), sums, Metrics(c, sym), p / 2 + Top(nb, H(c)), p % 2)
         == sums[p] + Corr(sym, OutBits(c.N, EdgeOut(c, Rev(c.K - 1, p), nb)))
  {
    EdgeMetric(c, sym, p, nb);
    CandAt(H(c), sums, Metrics(c, sym), p, nb);
  }

  lemma CandAt(h: nat, sums: seq<int>, metrics: seq<int>, p: nat, nb: Bit)
    requires h > 0 && |sums| == 2 * h && |metrics| == h && p < 2 * h
    ensures Cand(h, sums, metrics, p / 2 + Top(nb, h), p % 2)
         == sums[p] + (if p % 2 == nb then metrics[p / 2] else -metrics[p / 2])
  {
  }

  /** `states` are the states the traceback from the last one visits. */
  ghost predicate Traced(h: nat, paths: seq<seq<int>>, states: seq<nat>) {
    && h > 0
    && |states| == |paths| + 1
    && (forall i :: 0 <= i < |states| ==> states[i] < 2 * h)
    && (forall i :: 0 <= i < |paths| ==> TraceStep(h, paths[i], states[i], states[i + 1]))
  }

  ghost predicate TraceStep(h: nat, row: seq<int>, p: nat, r: nat) {
    && |row| == 2 * h && r < 2 * h && (row[r] == -1 || row[r] == 0)
    && p == 2 * (if r < h then r else r - h) + (row[r] + 1)
  }

  ghost predicate Selections(h: nat, paths: seq<seq<int>>) {
    forall i :: 0 <= i < |paths| ==> Selection(h, paths[i])
  }

  ghost predicate Selection(h: nat, row: seq<int>) {
    |row| == 2 * h && forall r :: 0 <= r < 2 * h ==> row[r] == -1 || row[r] == 0
  }

  /** The states visited when tracing back from `r`. */
  ghost function TraceStates(h: nat, paths: seq<seq<int>>, r: nat): (states: seq<nat>)
    requires h > 0 && Selections(h, paths) && r < 2 * h
    ensures Traced(h, paths, states) && states[|paths|] == r
    decreases |paths|
  {
    if paths == [] then [r]
    else
      var n := |paths| - 1;
      assert Selection(h, paths[n]);
      var p := 2 * (if r < h then r else r - h) + (paths[n][r] + 1);
      var front := TraceStates(h, paths[..n], p);
      TraceExtend(h, paths, front, p, r);
      front + [r]
  }

  lemma {:induction false} TraceExtend(h: nat, paths: seq<seq<int>>, front: seq<nat>, p: nat, r: nat)
    requires |paths| > 0 && Traced(h, paths[..|paths| - 1], front) && front[|paths| - 1] == p
    requires TraceStep(h, paths[|paths| - 1], p, r)
    ensures Traced(h, paths, front + [r])
  {
    var n, states := |paths| - 1, front + [r];
    forall i | 0 <= i < |paths|
      ensures TraceStep(h, paths[i], states[i], states[i + 1])
    {
      assert i < n ==> TraceStep(h, paths[..n][i], front[i], front[i + 1]);
    }
  }

  /** The message bit the code reads off a traceback step. */
  function TraceBit(c: Code, p: nat, r: nat): Bit
    requires c.K >= 2
  {
    InBit(c, Rev(c.K - 1, p), if r < H(c) then 0 else 1)
  }

  function TraceMsg(c: Code, states: seq<nat>): (msg: seq<Bit>)
    requires c.K >= 2 && |states| > 0
    ensures |msg| == |states| - 1
  {
    seq(|states| - 1, i requires 0 <= i < |states| - 1 => TraceBit(c, states[i], states[i + 1]))
  }

  /** Every traceback is a code path, and attains the exact sum it started from. */
  lemma {:induction false} TraceAttains(c: Code, x: seq<SBit>, t: nat, init: seq<int>, paths: seq<seq<int>>,
                                        states: seq<nat>)
    requires Butterfly(c) && |x| == Times(c.N, t) && |init| == c.NumStates()
    requires |paths| <= t && Traced(H(c), paths, states)
    requires forall i :: 0 <= i < |paths| ==>
               paths[i] == Paths(H(c), ExactSums(H(c), MetricRows(c, x, t), init, i), MetricRows(c, x, t)[i])
    ensures Times(c.N, |paths|) <= |x|
    ensures var s, ms := Rev(c.K - 1, states[0]), DataMoves(TraceMsg(c, states));
            && Run(c, s, ms) == Rev(c.K - 1, states[|paths|])
            && ExactSums(H(c), MetricRows(c, x, t), init, |paths|)[states[|paths|]]
            == init[states[0]] + Corr(x[..Times(c.N, |paths|)], Coded(c, s, ms))
    decreases |paths|
  {
    TimesMono(c.N, |paths|, t);
    if paths == [] {
    } else {
      var i := |paths| - 1;
      TraceFront(H(c), paths, states);
      TraceAttains(c, x, t, init, paths[..i], states[..i + 1]);
      TraceLast(c, x, t, init, i, states);
    }
  }

  lemma {:induction false} TraceFront(h: nat, paths: seq<seq<int>>, states: seq<nat>)
    requires paths != [] && Traced(h, paths, states)
    ensures Traced(h, paths[..|paths| - 1], states[..|paths|])
  {
    assert forall k :: 0 <= k < |paths| - 1 ==> TraceStep(h, paths[k], states[k], states[k + 1]);
  }

  lemma TraceMsgEnd(c: Code, states: seq<nat>, i: nat)
    requires c.K >= 2 && |states| == i + 2
    ensures TraceMsg(c, states)[..i] == TraceMsg(c, states[..i + 1])
    ensures TraceMsg(c, states)[i] == TraceBit(c, states[i], states[i + 1])
  {
  }

  /** The last step of a traceback. */
  lemma {:induction false} TraceLast(c: Code, x: seq<SBit>, t: nat, init: seq<int>, i: nat, states: seq<nat>)
    requires Butterfly(c) && |x| == Times(c.N, t) && |init| == c.NumStates() && i < t && |states| == i + 2
    requires forall k :: 0 <= k < |states| ==> states[k] < 2 * H(c)
    requires TraceStep(H(c), Paths(H(c), ExactSums(H(c), MetricRows(c, x, t), init, i), MetricRows(c, x, t)[i]),
             states[i], states[i + 1])
    requires Times(c.N, i) <= |x|
    requires var s, ms := Rev(c.K - 1, states[0]), DataMoves(TraceMsg(c, states[..i + 1]));
             && Run(c, s, ms) == Rev(c.K - 1, states[i])
             && ExactSums(H(c), MetricRows(c, x, t), init, i)[states[i]] == init[states[0]] +
                Corr(x[..Times(c.N, i)], Coded(c, s, ms))
    ensures Times(c.N, i + 1) <= |x|
    ensures var s, ms := Rev(c.K - 1, states[0]), DataMoves(TraceMsg(c, states));
            && Run(c, s, ms) == Rev(c.K - 1, states[i + 1])
            && ExactSums(H(c), MetricRows(c, x, t), init, i + 1)[states[i + 1]] == init[states[0]] +
               Corr(x[..Times(c.N, i + 1)], Coded(c, s, ms))
  {
    TraceMsgEnd(c, states, i);
    CorrStep(c, x, t, i, Rev(c.K - 1, states[0]), TraceMsg(c, states));
    TraceEdge(c, x, t, init, i, states[i], states[i + 1]);
  }

  lemma {:induction false} TraceEdge(c: Code, x: seq<SBit>, t: nat, init: seq<int>, i: nat, p: nat, r: nat)
    requires Butterfly(c) && |x| == Times(c.N, t) && |init| == c.NumStates() && i < t
    requires p < c.NumStates() && r < c.NumStates()
    requires TraceStep(H(c), Paths(H(c), ExactSums(H(c), MetricRows(c, x, t), init, i), MetricRows(c, x, t)[i]), p, r)
    ensures var q, b := Rev(c.K - 1, p), TraceBit(c, p, r);
            && c.nextState[q][b] == Rev(c.K - 1, r)
            && ExactSums(H(c), MetricRows(c, x, t), init, i + 1)[r]
            == ExactSums(H(c), MetricRows(c, x, t), init, i)[p] +
                Corr(Sym(c.N, x, t, i), OutBits(c.N, c.nextOutput[q][b]))
  {
    var q, b := Rev(c.K - 1, p), TraceBit(c, p, r);
    var sums, m := ExactSums(H(c), MetricRows(c, x, t), init, i), MetricRows(c, x, t)[i];
    PathChooses(H(c), sums, m, p, r);
    TraceNext(c, p, r);
    RevTwice(c.K - 1, p);
    EdgeCand(c, Sym(c.N, x, t, i), sums, q, b);
  }

  /** The stored selection is the predecessor whose candidate became the sum. */
  lemma {:induction false} PathChooses(h: nat, sums: seq<int>, m: seq<int>, p: nat, r: nat)
    requires h > 0 && |sums| == 2 * h && |m| == h && TraceStep(h, Paths(h, sums, m), p, r)
    ensures p / 2 == (if r < h then r else r - h) && Exact(h, sums, m)[r] == Cand(h, sums, m, r, p % 2)
  {
    assert Paths(h, sums, m)[r] == AcsPath(h, sums, m, r);
  }

  /** A traceback step is an edge of the code. */
  lemma {:induction false} TraceNext(c: Code, p: nat, r: nat)
    requires Butterfly(c) && p < c.NumStates() && r < c.NumStates() && p / 2 == (if r < H(c) then r else r - H(c))
    ensures var q, b := Rev(c.K - 1, p), TraceBit(c, p, r);
            c.nextState[q][b] == Rev(c.K - 1, r) && Rev(c.K - 1, c.nextState[q][b]) == r
  {
    var q, b := Rev(c.K - 1, p), TraceBit(c, p, r);
    RevTwice(c.K - 1, p);
    assert ShiftsAt(c, q);
    NextRev(c, q, b);
    var nb: Bit := if r < H(c) then 0 else 1;
    assert c.nextState[q][b] % 2 == nb;
    RevTwice(c.K - 1, c.nextState[q][b]);
  }
}
