/** The mathematics of the generic Viterbi decoder of src/core/conv.c: the error of a path, one
    relaxation of all trellis edges, and why a chain of relaxations finds least-error paths. */
module Viterbi {
  import opened Bits
  import opened SoftBits
  import opened ConvCode

  /** Larger than the error of any path the decoder is meant for. */
  const MAX_AE := 0x00ffffff

  /** One column of the trellis: is it a flush step, and which N soft bits were received. */
  datatype Step = Step(tail: bool, sym: seq<SBit>)

  /** Every step carries one soft bit per output bit. */
  ghost predicate Fit(c: Code, steps: seq<Step>) {
    forall i :: 0 <= i < |steps| ==> |steps[i].sym| == c.N
  }

  /** `ms` moves through the columns: flush moves exactly in the flush columns. */
  ghost predicate Through(steps: seq<Step>, ms: seq<Move>) {
    && |ms| == |steps|
    && forall i :: 0 <= i < |ms| ==> ms[i].Tail? == steps[i].tail
  }

  /** All soft bits of the columns in a row. */
  function Flat(steps: seq<Step>): seq<SBit> {
    if steps == [] then [] else Flat(steps[..|steps| - 1]) + steps[|steps| - 1].sym
  }

  lemma {:induction false} FlatLength(c: Code, steps: seq<Step>)
    requires Fit(c, steps)
    ensures |Flat(steps)| == Times(c.N, |steps|)
    decreases |steps|
  {
    if steps == [] {
    } else {
      FlatLength(c, steps[..|steps| - 1]);
    }
  }

  lemma {:induction false} FlatAppend(a: seq<Step>, b: seq<Step>)
    ensures Flat(a + b) == Flat(a) + Flat(b)
    decreases |b|
  {
    if b == [] {
      assert a + b == a;
    } else {
      assert (a + b)[..|a + b| - 1] == a + b[..|b| - 1];
      FlatAppend(a, b[..|b| - 1]);
    }
  }

  /** Error of the edge that leaves `s` by `m`. */
  function EdgeErr(c: Code, st: Step, s: nat, m: Move): nat
    requires s < c.NumStates() && |st.sym| == c.N
  {
    BlockErr(st.sym, OutBits(c.N, Out(c, s, m)))
  }

  /** Error of a path through the columns. */
  ghost function PathErr(c: Code, s: nat, steps: seq<Step>, ms: seq<Move>): nat
    requires s < c.NumStates() && Fit(c, steps) && |ms| == |steps|
    decreases |ms|
  {
    if ms == [] then 0
    else
      var n := |ms| - 1;
      PathErr(c, s, steps[..n], ms[..n]) + EdgeErr(c, steps[n], Run(c, s, ms[..n]), ms[n])
  }

  lemma {:induction false} PathErrAppend(c: Code, s: nat, u: seq<Step>, a: seq<Move>, v: seq<Step>, b: seq<Move>)
    requires s < c.NumStates() && Fit(c, u) && Fit(c, v) && |a| == |u| && |b| == |v|
    ensures Fit(c, u + v)
    ensures PathErr(c, s, u + v, a + b) == PathErr(c, s, u, a) + PathErr(c, Run(c, s, a), v, b)
    decreases |b|
  {
    if b == [] {
      assert a + b == a && u + v == u;
    } else {
      var n := |b| - 1;
      assert (a + b)[..|a + b| - 1] == a + b[..n];
      assert (u + v)[..|u + v| - 1] == u + v[..n];
      PathErrAppend(c, s, u, a, v[..n], b[..n]);
      RunAppend(c, s, a, b[..n]);
    }
  }

  /** The error of a path is the distance between the received block and the path's coded block. */
  lemma {:induction false} PathErrIsBlockErr(c: Code, s: nat, steps: seq<Step>, ms: seq<Move>)
    requires s < c.NumStates() && Fit(c, steps) && |ms| == |steps|
    ensures |Flat(steps)| == |Coded(c, s, ms)|
    ensures PathErr(c, s, steps, ms) == BlockErr(Flat(steps), Coded(c, s, ms))
    decreases |ms|
  {
    FlatLength(c, steps);
    if ms == [] {
    } else {
      var n := |ms| - 1;
      PathErrIsBlockErr(c, s, steps[..n], ms[..n]);
      BlockErrAppend(Flat(steps[..n]), steps[n].sym, Coded(c, s, ms[..n]),
                     OutBits(c.N, Out(c, Run(c, s, ms[..n]), ms[n])));
    }
  }

  // ---------------------------------------------------------------------------
  // Relaxing the edges of one column

  function NumEdges(c: Code, tail: bool): nat {
    if tail then c.NumStates() else 2 * c.NumStates()
  }

  /** Edges in the order the decoder scans them. */
  function EdgeFrom(tail: bool, e: nat): nat {
    if tail then e else e / 2
  }

  function EdgeMove(tail: bool, e: nat): Move {
    if tail then Tail else Data(e % 2)
  }

  /** Accumulated errors after relaxing the first `k` edges, and the survivors' previous states. */
  function Survive(c: Code, st: Step, ae: seq<nat>, prev0: seq<nat>, k: nat): (r: (seq<nat>, seq<nat>))
    requires |st.sym| == c.N && |ae| == |prev0| == c.NumStates() && k <= NumEdges(c, st.tail)
    ensures |r.0| == |r.1| == c.NumStates()
  {
    if k == 0 then (seq(c.NumStates(), i => MAX_AE), prev0)
    else
      var (next, prev) := Survive(c, st, ae, prev0, k - 1);
      var s, m := EdgeFrom(st.tail, k - 1), EdgeMove(st.tail, k - 1);
      Relax(next, prev, Next(c, s, m), s, ae[s] + EdgeErr(c, st, s, m))
  }

  /** One add-compare-select. */
  function Relax(next: seq<nat>, prev: seq<nat>, t: nat, s: nat, nae: nat): (r: (seq<nat>, seq<nat>))
    requires t < |next| == |prev|
    ensures |r.0| == |r.1| == |next|
  {
    if next[t] > nae then (next[t := nae], prev[t := s]) else (next, prev)
  }

  ghost predicate EdgeBounded(c: Code, st: Step, ae: seq<nat>, next: seq<nat>, e: nat)
    requires |st.sym| == c.N && |ae| == |next| == c.NumStates() && e < NumEdges(c, st.tail)
  {
    var s, m := EdgeFrom(st.tail, e), EdgeMove(st.tail, e);
    next[Next(c, s, m)] <= ae[s] + EdgeErr(c, st, s, m)
  }

  /** The recorded previous state of `t` and some move account for its accumulated error. */
  ghost predicate EdgeUsed(c: Code, st: Step, ae: seq<nat>, next: seq<nat>, prev: seq<nat>, t: nat, m: Move)
    requires |st.sym| == c.N && |ae| == |next| == |prev| == c.NumStates() && t < c.NumStates()
  {
    && prev[t] < c.NumStates()
    && m.Tail? == st.tail
    && Next(c, prev[t], m) == t
    && next[t] == ae[prev[t]] + EdgeErr(c, st, prev[t], m)
  }

  /** `next` and `prev` are what scanning a column must produce, whatever the order of the scan. */
  ghost predicate Relaxed(c: Code, st: Step, ae: seq<nat>, next: seq<nat>, prev: seq<nat>, k: nat) {
    && |st.sym| == c.N && |ae| == |next| == |prev| == c.NumStates() && k <= NumEdges(c, st.tail)
    && (forall t :: 0 <= t < |next| ==> next[t] <= MAX_AE)
    && (forall e :: 0 <= e < k ==> EdgeBounded(c, st, ae, next, e))
    && (forall t :: 0 <= t < |next| && next[t] < MAX_AE ==> exists m :: EdgeUsed(c, st, ae, next, prev, t, m))
  }

  lemma {:induction false} SurviveRelaxed(c: Code, st: Step, ae: seq<nat>, prev0: seq<nat>, k: nat)
    requires |st.sym| == c.N && |ae| == |prev0| == c.NumStates() && k <= NumEdges(c, st.tail)
    ensures var r := Survive(c, st, ae, prev0, k); Relaxed(c, st, ae, r.0, r.1, k)
  {
    if k == 0 {
    } else {
      SurviveRelaxed(c, st, ae, prev0, k - 1);
      SurviveOne(c, st, ae, prev0, k - 1);
    }
  }

  lemma {:induction false} SurviveOne(c: Code, st: Step, ae: seq<nat>, prev0: seq<nat>, k: nat)
    requires |st.sym| == c.N && |ae| == |prev0| == c.NumStates() && k < NumEdges(c, st.tail)
    requires var r := Survive(c, st, ae, prev0, k); Relaxed(c, st, ae, r.0, r.1, k)
    ensures var r := Survive(c, st, ae, prev0, k + 1); Relaxed(c, st, ae, r.0, r.1, k + 1)
  {
    var r := Survive(c, st, ae, prev0, k);
    RelaxOne(c, st, ae, r.0, r.1, k);
  }

  lemma {:induction false} RelaxOne(c: Code, st: Step, ae: seq<nat>, next: seq<nat>, prev: seq<nat>, e: nat)
    requires Relaxed(c, st, ae, next, prev, e) && e < NumEdges(c, st.tail)
    ensures var s, m := EdgeFrom(st.tail, e), EdgeMove(st.tail, e);
            var r := Relax(next, prev, Next(c, s, m), s, ae[s] + EdgeErr(c, st, s, m));
            Relaxed(c, st, ae, r.0, r.1, e + 1)
  {
    var s, m := EdgeFrom(st.tail, e), EdgeMove(st.tail, e);
    var t0, nae := Next(c, s, m), ae[s] + EdgeErr(c, st, s, m);
    var (next', prev') := Relax(next, prev, t0, s, nae);
    forall e' | 0 <= e' < e + 1
      ensures EdgeBounded(c, st, ae, next', e')
    {
      assert e' < e ==> EdgeBounded(c, st, ae, next, e');
    }
    forall t | 0 <= t < |next'| && next'[t] < MAX_AE
      ensures exists m' :: EdgeUsed(c, st, ae, next', prev', t, m')
    {
      if t == t0 && next[t0] > nae {
        assert EdgeUsed(c, st, ae, next', prev', t, m);
      } else {
        var m' :| EdgeUsed(c, st, ae, next, prev, t, m');
        assert EdgeUsed(c, st, ae, next', prev', t, m');
      }
    }
  }

  // ---------------------------------------------------------------------------
  // A run of the decoder

  /** Accumulated errors before the first and after every column, with the survivors' previous states. */
  ghost predicate Chain(c: Code, steps: seq<Step>, aes: seq<seq<nat>>, hist: seq<seq<nat>>) {
    && |aes| == |steps| + 1
    && |hist| == |steps|
    && |aes[0]| == c.NumStates()
    && (forall t :: 0 <= t < |aes[0]| ==> aes[0][t] <= MAX_AE)
    && (forall i :: 0 <= i < |steps| ==>
          Relaxed(c, steps[i], aes[i], aes[i + 1], hist[i], NumEdges(c, steps[i].tail)))
  }

  lemma {:induction false} ChainExtend(c: Code, steps: seq<Step>, aes: seq<seq<nat>>, hist: seq<seq<nat>>,
                    st: Step, next: seq<nat>, prev: seq<nat>)
    requires Chain(c, steps, aes, hist)
    requires Relaxed(c, st, aes[|steps|], next, prev, NumEdges(c, st.tail))
    ensures Chain(c, steps + [st], aes + [next], hist + [prev])
  {
    var steps', aes', hist' := steps + [st], aes + [next], hist + [prev];
    forall i | 0 <= i < |steps'|
      ensures Relaxed(c, steps'[i], aes'[i], aes'[i + 1], hist'[i], NumEdges(c, steps'[i].tail))
    {
      if i < |steps| {
        assert Relaxed(c, steps[i], aes[i], aes[i + 1], hist[i], NumEdges(c, steps[i].tail));
      }
    }
  }

  lemma {:induction false} ChainFit(c: Code, steps: seq<Step>, aes: seq<seq<nat>>, hist: seq<seq<nat>>)
    requires Chain(c, steps, aes, hist)
    ensures Fit(c, steps)
    ensures |aes[|steps|]| == c.NumStates()
    ensures forall t :: 0 <= t < c.NumStates() ==> aes[|steps|][t] <= MAX_AE
  {
    forall i | 0 <= i < |steps|
      ensures |steps[i].sym| == c.N
    {
      assert Relaxed(c, steps[i], aes[i], aes[i + 1], hist[i], NumEdges(c, steps[i].tail));
    }
    if steps != [] {
      var n := |steps| - 1;
      assert Relaxed(c, steps[n], aes[n], aes[n + 1], hist[n], NumEdges(c, steps[n].tail));
    }
  }

  /** No path to a state has a smaller error than the state's accumulated error. */
  lemma {:induction false} ChainLeast(c: Code, steps: seq<Step>, aes: seq<seq<nat>>, hist: seq<seq<nat>>,
                                      s: nat, ms: seq<Move>)
    requires Chain(c, steps, aes, hist) && s < c.NumStates() && Through(steps, ms)
    ensures Fit(c, steps) && |aes[|steps|]| == c.NumStates()
    ensures aes[|steps|][Run(c, s, ms)] <= aes[0][s] + PathErr(c, s, steps, ms)
    decreases |ms|
  {
    ChainFit(c, steps, aes, hist);
    if ms == [] {
    } else {
      var n := |ms| - 1;
      var st, m := steps[n], ms[n];
      ChainLeast(c, steps[..n], aes[..n + 1], hist[..n], s, ms[..n]);
      var q := Run(c, s, ms[..n]);
      assert Relaxed(c, st, aes[n], aes[n + 1], hist[n], NumEdges(c, st.tail));
      var e := if st.tail then q else 2 * q + m.bit;
      assert EdgeFrom(st.tail, e) == q && EdgeMove(st.tail, e) == m;
      assert EdgeBounded(c, st, aes[n], aes[n + 1], e);
    }
  }

  /** The states and moves that a walk back through the history visits. */
  ghost predicate Survivor(c: Code, steps: seq<Step>, hist: seq<seq<nat>>, states: seq<nat>, ms: seq<Move>) {
    && |states| == |steps| + 1 && |ms| == |hist| == |steps|
    && (forall i :: 0 <= i < |states| ==> states[i] < c.NumStates())
    && (forall i :: 0 <= i < |ms| ==> Backward(c, steps[i], hist[i], states[i], states[i + 1], ms[i]))
  }

  /** The history of a column names `q` as the predecessor of `t`, and `m` leads there. */
  ghost predicate Backward(c: Code, st: Step, row: seq<nat>, q: nat, t: nat, m: Move)
    requires q < c.NumStates()
  {
    t < |row| && row[t] == q && m.Tail? == st.tail && Next(c, q, m) == t
  }

  /** The traceback from a reached state follows a path that accounts for its accumulated error. */
  lemma {:induction false} SurvivorPath(c: Code, steps: seq<Step>, aes: seq<seq<nat>>, hist: seq<seq<nat>>, t: nat)
    returns (states: seq<nat>, ms: seq<Move>)
    requires Chain(c, steps, aes, hist) && t < c.NumStates()
    requires |aes[|steps|]| == c.NumStates() && aes[|steps|][t] < MAX_AE
    ensures Fit(c, steps) && Survivor(c, steps, hist, states, ms)
    ensures states[|steps|] == t == Run(c, states[0], ms)
    ensures aes[|steps|][t] == aes[0][states[0]] + PathErr(c, states[0], steps, ms)
    decreases |steps|
  {
    ChainFit(c, steps, aes, hist);
    if steps == [] {
      states, ms := [t], [];
    } else {
      var n := |steps| - 1;
      var q, m := LastEdge(c, steps, aes, hist, t);
      var front, mfront;
      front, mfront := SurvivorPath(c, steps[..n], aes[..n + 1], hist[..n], q);
      states, ms := front + [t], mfront + [m];
      SurvivorExtend(c, steps, hist, front, mfront, t, m);
      PathErrLast(c, front[0], steps, mfront, m);
    }
  }

  /** The edge that the last column recorded for a reached state. */
  lemma {:induction false} LastEdge(c: Code, steps: seq<Step>, aes: seq<seq<nat>>, hist: seq<seq<nat>>, t: nat)
    returns (q: nat, m: Move)
    requires Chain(c, steps, aes, hist) && t < c.NumStates() && steps != [] && Fit(c, steps)
    requires |aes[|steps|]| == c.NumStates() && aes[|steps|][t] < MAX_AE
    ensures var n := |steps| - 1;
            && Chain(c, steps[..n], aes[..n + 1], hist[..n]) && |aes[n]| == c.NumStates() && q < c.NumStates()
            && Backward(c, steps[n], hist[n], q, t, m)
            && aes[n + 1][t] == aes[n][q] + EdgeErr(c, steps[n], q, m)
  {
    var n := |steps| - 1;
    assert Relaxed(c, steps[n], aes[n], aes[n + 1], hist[n], NumEdges(c, steps[n].tail));
    m :| EdgeUsed(c, steps[n], aes[n], aes[n + 1], hist[n], t, m);
    q := hist[n][t];
  }

  lemma {:induction false} PathErrLast(c: Code, s: nat, steps: seq<Step>, ms: seq<Move>, m: Move)
    requires s < c.NumStates() && Fit(c, steps) && |ms| + 1 == |steps| && Fit(c, steps[..|ms|])
    ensures Run(c, s, ms + [m]) == Next(c, Run(c, s, ms), m)
    ensures PathErr(c, s, steps, ms + [m]) ==
            PathErr(c, s, steps[..|ms|], ms) + EdgeErr(c, steps[|ms|], Run(c, s, ms), m)
  {
    assert (ms + [m])[..|ms|] == ms;
  }

  /** One more column on a survivor. */
  lemma {:induction false} SurvivorExtend(c: Code, steps: seq<Step>, hist: seq<seq<nat>>, front: seq<nat>,
                                          mfront: seq<Move>, t: nat, m: Move)
    requires |steps| == |hist| > 0 && t < c.NumStates()
    requires Survivor(c, steps[..|steps| - 1], hist[..|steps| - 1], front, mfront)
    requires Backward(c, steps[|steps| - 1], hist[|steps| - 1], front[|steps| - 1], t, m)
    ensures Survivor(c, steps, hist, front + [t], mfront + [m])
  {
    var n, states, ms := |steps| - 1, front + [t], mfront + [m];
    forall i | 0 <= i < |ms|
      ensures Backward(c, steps[i], hist[i], states[i], states[i + 1], ms[i])
    {
      assert i < n ==> Backward(c, steps[..n][i], hist[..n][i], front[i], front[i + 1], mfront[i]);
    }
  }

  /** Accumulated errors before the first column. */
  function InitialErr(c: Code, startState: int): (ae: seq<nat>)
    ensures |ae| == c.NumStates()
  {
    seq(c.NumStates(), i => if startState < 0 || i == startState then 0 else MAX_AE)
  }

  /** `ms` is a path from `s` to `t` through the columns. */
  ghost predicate Path(c: Code, steps: seq<Step>, s: nat, ms: seq<Move>, t: nat)
    requires s < c.NumStates()
  {
    Through(steps, ms) && Run(c, s, ms) == t
  }

  /** Optimality of the dynamic program, for any mix of data and flush columns scanned from a fixed start
      state: no path is better than the accumulated error, a reached state's error is attained, and as
      long as the block is too short to saturate, MAX_AE marks exactly the unreachable states. */
  lemma {:induction false} LeastError(c: Code, steps: seq<Step>, aes: seq<seq<nat>>, hist: seq<seq<nat>>, s: nat,
                                      t: nat)
    requires Chain(c, steps, aes, hist) && s < c.NumStates() && t < c.NumStates()
    requires aes[0] == InitialErr(c, s)
    ensures Fit(c, steps) && |aes[|steps|]| == c.NumStates()
    ensures forall ms :: Path(c, steps, s, ms, t) ==> aes[|steps|][t] <= PathErr(c, s, steps, ms)
    ensures aes[|steps|][t] < MAX_AE ==>
              exists ms :: Path(c, steps, s, ms, t) && aes[|steps|][t] == PathErr(c, s, steps, ms)
    ensures 127 * Times(c.N, |steps|) < MAX_AE ==>
              (aes[|steps|][t] == MAX_AE <==> !exists ms :: Path(c, steps, s, ms, t))
  {
    ChainFit(c, steps, aes, hist);
    forall ms | Path(c, steps, s, ms, t)
      ensures aes[|steps|][t] <= PathErr(c, s, steps, ms) <= 127 * Times(c.N, |steps|)
    {
      ChainLeast(c, steps, aes, hist, s, ms);
      PathErrIsBlockErr(c, s, steps, ms);
      BlockErrBound(Flat(steps), Coded(c, s, ms));
    }
    if aes[|steps|][t] < MAX_AE {
      var states, ms := SurvivorPath(c, steps, aes, hist, t);
      assert states[0] == s;
      assert Through(steps, ms) by {
        SurvivorThrough(c, steps, hist, states, ms);
      }
      assert Path(c, steps, s, ms, t);
    }
  }

  lemma {:induction false} SurvivorThrough(c: Code, steps: seq<Step>, hist: seq<seq<nat>>, states: seq<nat>,
                                           ms: seq<Move>)
    requires Survivor(c, steps, hist, states, ms)
    ensures Through(steps, ms)
  {
    forall i | 0 <= i < |ms|
      ensures ms[i].Tail? == steps[i].tail
    {
      assert Backward(c, steps[i], hist[i], states[i], states[i + 1], ms[i]);
    }
  }
}
