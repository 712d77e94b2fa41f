/** The generic convolutional decoder of src/core/conv.c. */
module ConvDecoder {
  import opened Bits
  import opened SoftBits
  import opened ConvCode
  import opened Viterbi

  /** `struct osmo_conv_decoder`. The ghost fields record the columns scanned since the last reset and
      the accumulated errors around each of them; `Valid` ties the arrays to that record. */
  class Decoder {
    const code: Code
    const nStates: nat
    const len: nat
    var oIdx: nat
    var pIdx: nat
    const ae: array<nat>
    const aeNext: array<nat>
    const stateHistory: array<seq<nat>>

    ghost var steps: seq<Step>
    ghost var aes: seq<seq<nat>>

    ghost predicate Shape()
      reads this
    {
      && nStates == code.NumStates()
      && ae != aeNext
      && ae.Length == aeNext.Length == nStates
      && stateHistory.Length == len + code.K - 1
    }

    ghost predicate Rows()
      reads this, stateHistory
    {
      forall i :: 0 <= i < stateHistory.Length ==> |stateHistory[i]| == nStates
    }

    ghost predicate Valid()
      reads this, ae, stateHistory
    {
      && Shape()
      && Rows()
      && oIdx <= len + code.K - 1
      && |steps| == oIdx
      && At(code.Punctured(), pIdx, Times(code.N, oIdx))
      && Chain(code, steps, aes, stateHistory[..oIdx])
      && ae[..] == aes[oIdx]
    }

    /** `osmo_conv_decode_init`. */
    constructor (code: Code, len: int, startState: int)
      requires startState < code.NumStates()
      ensures Valid() && fresh(ae) && fresh(aeNext) && fresh(stateHistory)
      ensures this.code == code && this.len == (if len <= 0 then code.len else len)
      ensures oIdx == 0 && steps == [] && aes == [InitialErr(code, startState)]
    {
      var n := Pow2(code.K - 1);
      var l := if len <= 0 then code.len else len;
      this.code := code;
      this.nStates := n;
      this.len := l;
      this.ae := new nat[n];
      this.aeNext := new nat[n];
      this.stateHistory := new seq<nat>[l + code.K - 1](i => seq(n, t => 0));
      this.oIdx := 0;
      this.pIdx := 0;
      this.steps := [];
      this.aes := [];
      new;
      Reset(startState);
    }

    /** `osmo_conv_decode_reset`: one start state, or any if `startState` is negative. */
    method Reset(startState: int)
      requires Shape() && Rows() && startState < nStates
      modifies this, ae
      ensures Valid() && oIdx == 0 && steps == [] && aes == [InitialErr(code, startState)]
    {
      if startState < 0 {
        for i := 0 to nStates
          invariant forall k :: 0 <= k < i ==> ae[k] == 0
        {
          ae[i] := 0;
        }
      } else {
        for i := 0 to nStates
          invariant forall k :: 0 <= k < i ==> ae[k] == if k == startState then 0 else MAX_AE
        {
          ae[i] := if i == startState then 0 else MAX_AE;
        }
      }
      assert ae[..] == InitialErr(code, startState);
      oIdx, pIdx := 0, 0;
      steps, aes := [], [ae[..]];
      assert stateHistory[..0] == [];
    }

    /** Reads the N soft bits of the next column from input[iIdx..], 0 where the code is punctured. */
    method GetInput(input: seq<SBit>, iIdx: nat, col: nat) returns (sym: seq<SBit>, i: nat)
      requires At(code.Punctured(), pIdx, Times(code.N, col))
      requires iIdx + Need(code.Punctured(), Times(code.N, col), code.N) <= |input|
      modifies this`pIdx
      ensures At(code.Punctured(), pIdx, Times(code.N, col + 1))
      ensures sym == Fill(code.Punctured(), Times(code.N, col), code.N, input[iIdx..])
      ensures i == iIdx + Need(code.Punctured(), Times(code.N, col), code.N)
    {
      ghost var p, base, rest := code.Punctured(), Times(code.N, col), input[iIdx..];
      TimesIsProduct(code.N, col);
      var first := col * code.N;
      i := iIdx;
      sym := [];
      for j := 0 to code.N
        invariant At(p, pIdx, base + j)
        invariant i == iIdx + Need(p, base, j) && Need(p, base, j) <= |rest|
        invariant sym == Fill(p, base, j, rest)
      {
        FillOne(p, base, j, code.N, rest);
        var x;
        x, i := GetBit(input, i, first + j);
        sym := sym + [x];
      }
    }

    /** The soft bit of one position: 0 and nothing read if it is punctured. */
    method GetBit(input: seq<SBit>, i: nat, r: nat) returns (x: SBit, i': nat)
      requires At(code.Punctured(), pIdx, r) && (r !in code.Punctured() ==> i < |input|)
      modifies this`pIdx
      ensures At(code.Punctured(), pIdx, r + 1)
      ensures x == (if r in code.Punctured() then 0 else input[i]) && i' == (if r in code.Punctured() then i else i + 1)
    {
      AtDecides(code.Punctured(), pIdx, r);
      if code.puncture.Some? && r == code.puncture.value[pIdx] {
        x, i' := 0, i;
        pIdx := pIdx + 1;
      } else {
        x, i' := input[i], i + 1;
      }
    }

    /** Adds the error of an output word to a path's accumulated error. */
    method PathMetric(start: nat, sym: seq<SBit>, out: nat) returns (nae: nat)
      requires |sym| == code.N
      ensures nae == start + BlockErr(sym, OutBits(code.N, out))
    {
      ghost var bits := OutBits(code.N, out);
      nae := start;
      for j := 0 to code.N
        invariant nae == start + BlockErr(sym[..j], bits[..j])
      {
        var x := sym[j];
        assert sym[..j + 1][..j] == sym[..j] && bits[..j + 1][..j] == bits[..j];
        if x != 0 {
          var ov: int := if BitAt(out, code.N - 1 - j) == 1 then -127 else 127;
          var e: int := x - ov;
          SquareBound(e);
          nae := nae + (e * e) / 512;
        }
      }
      assert sym[..code.N] == sym && bits[..code.N] == bits;
    }

    /** Survivor test of one edge into `t`, in column `i`. */
    method Select(t: nat, s: nat, nae: nat, i: nat)
      requires Shape() && t < nStates && i < stateHistory.Length && |stateHistory[i]| == nStates
      modifies aeNext, stateHistory
      ensures (aeNext[..], stateHistory[i]) == Relax(old(aeNext[..]), old(stateHistory[i]), t, s, nae)
      ensures stateHistory[..] == old(stateHistory[..])[i := stateHistory[i]]
    {
      if aeNext[t] > nae {
        aeNext[t] := nae;
        stateHistory[i] := stateHistory[i][t := s];
      }
    }

    method ClearNext()
      requires Shape()
      modifies aeNext
      ensures aeNext[..] == seq(nStates, k => MAX_AE)
    {
      for s := 0 to nStates
        invariant forall k :: 0 <= k < s ==> aeNext[k] == MAX_AE
      {
        aeNext[s] := MAX_AE;
      }
    }

    /** Adds, compares and selects edge `k` of column `i`, from `s` to `t` with output `out`. */
    method RelaxEdge(sym: seq<SBit>, s: nat, out: nat, t: nat, i: nat, ghost tail: bool, ghost row: seq<nat>,
                     ghost k: nat)
      requires Shape() && |sym| == code.N && i < stateHistory.Length && |row| == nStates
      requires k < NumEdges(code, tail) && s == EdgeFrom(tail, k)
      requires out == Out(code, s, EdgeMove(tail, k)) && t == Next(code, s, EdgeMove(tail, k))
      requires (aeNext[..], stateHistory[i]) == Survive(code, Step(tail, sym), ae[..], row, k)
      modifies aeNext, stateHistory
      ensures (aeNext[..], stateHistory[i]) == Survive(code, Step(tail, sym), ae[..], row, k + 1)
      ensures stateHistory[..] == old(stateHistory[..])[i := stateHistory[i]]
    {
      var nae := PathMetric(ae[s], sym, out);
      Select(t, s, nae, i);
    }

    /** Relaxes the two data edges that leave state `s`. */
    method ScanState(sym: seq<SBit>, s: nat, i: nat, ghost row: seq<nat>)
      requires Shape() && |sym| == code.N && s < nStates && i < stateHistory.Length && |row| == nStates
      requires (aeNext[..], stateHistory[i]) == Survive(code, Step(false, sym), ae[..], row, 2 * s)
      modifies aeNext, stateHistory
      ensures (aeNext[..], stateHistory[i]) == Survive(code, Step(false, sym), ae[..], row, 2 * s + 2)
      ensures stateHistory[..] == old(stateHistory[..])[i := stateHistory[i]]
    {
      for b := 0 to 2
        invariant (aeNext[..], stateHistory[i]) == Survive(code, Step(false, sym), ae[..], row, 2 * s + b)
        invariant stateHistory[..] == old(stateHistory[..])[i := stateHistory[i]]
      {
        ScanEdge(sym, s, b, i, row);
      }
    }

    method ScanEdge(sym: seq<SBit>, s: nat, b: Bit, i: nat, ghost row: seq<nat>)
      requires Shape() && |sym| == code.N && s < nStates && i < stateHistory.Length && |row| == nStates
      requires (aeNext[..], stateHistory[i]) == Survive(code, Step(false, sym), ae[..], row, 2 * s + b)
      modifies aeNext, stateHistory
      ensures (aeNext[..], stateHistory[i]) == Survive(code, Step(false, sym), ae[..], row, 2 * s + b + 1)
      ensures stateHistory[..] == old(stateHistory[..])[i := stateHistory[i]]
    {
      DataEdge(code, s, b);
      RelaxEdge(sym, s, code.nextOutput[s][b], code.nextState[s][b], i, false, row, 2 * s + b);
    }

    /** Relaxes every edge of data column `i`. */
    method ScanColumn(sym: seq<SBit>, i: nat)
      requires Shape() && |sym| == code.N && i < stateHistory.Length && |stateHistory[i]| == nStates
      modifies aeNext, stateHistory
      ensures (aeNext[..], stateHistory[i])
           == Survive(code, Step(false, sym), ae[..], old(stateHistory[i]), 2 * nStates)
      ensures stateHistory[..] == old(stateHistory[..])[i := stateHistory[i]]
    {
      ghost var row := stateHistory[i];
      ClearNext();
      for s := 0 to nStates
        invariant (aeNext[..], stateHistory[i]) == Survive(code, Step(false, sym), ae[..], row, 2 * s)
        invariant stateHistory[..] == old(stateHistory[..])[i := stateHistory[i]]
      {
        ScanState(sym, s, i, row);
      }
    }

    /** Relaxes every edge of flush column `i`. */
    method FlushColumn(sym: seq<SBit>, i: nat)
      requires Shape() && |sym| == code.N && i < stateHistory.Length && |stateHistory[i]| == nStates
      modifies aeNext, stateHistory
      ensures (aeNext[..], stateHistory[i])
           == Survive(code, Step(true, sym), ae[..], old(stateHistory[i]), nStates)
      ensures stateHistory[..] == old(stateHistory[..])[i := stateHistory[i]]
    {
      ghost var row := stateHistory[i];
      ClearNext();
      for s := 0 to nStates
        invariant (aeNext[..], stateHistory[i]) == Survive(code, Step(true, sym), ae[..], row, s)
        invariant stateHistory[..] == old(stateHistory[..])[i := stateHistory[i]]
      {
        if code.tail.Some? {
          RelaxEdge(sym, s, code.tail.value.output[s], code.tail.value.state[s], i, true, row, s);
        } else {
          RelaxEdge(sym, s, code.nextOutput[s][0], code.nextState[s][0], i, true, row, s);
        }
      }
    }

    /** Makes the errors of the column just scanned the current ones. */
    method CommitColumn(ghost st: Step, ghost row: seq<nat>)
      requires Shape() && Rows() && oIdx < stateHistory.Length && |steps| == oIdx
      requires |st.sym| == code.N && |row| == nStates
      requires Chain(code, steps, aes, stateHistory[..oIdx]) && ae[..] == aes[oIdx]
      requires (aeNext[..], stateHistory[oIdx]) == Survive(code, st, ae[..], row, NumEdges(code, st.tail))
      requires At(code.Punctured(), pIdx, Times(code.N, oIdx + 1))
      modifies this`oIdx, this`steps, this`aes, ae
      ensures Valid() && oIdx == old(oIdx) + 1
      ensures steps == old(steps) + [st] && aes[..old(oIdx) + 1] == old(aes)
    {
      SurviveRelaxed(code, st, ae[..], row, NumEdges(code, st.tail));
      ChainExtend(code, steps, aes, stateHistory[..oIdx], st, aeNext[..], stateHistory[oIdx]);
      ghost var rows, next := stateHistory[..oIdx] + [stateHistory[oIdx]], aeNext[..];
      forall k | 0 <= k < nStates {
        ae[k] := aeNext[k];
      }
      assert ae[..] == next;
      steps, aes := steps + [st], aes + [next];
      oIdx := oIdx + 1;
      assert stateHistory[..oIdx] == rows;
    }

    /** One data column. */
    method ScanStep(input: seq<SBit>, iIdx: nat) returns (i: nat)
      requires Valid() && oIdx < stateHistory.Length
      requires iIdx + Need(code.Punctured(), Times(code.N, oIdx), code.N) <= |input|
      modifies this, ae, aeNext, stateHistory
      ensures Valid() && oIdx == old(oIdx) + 1
      ensures i == iIdx + Need(code.Punctured(), Times(code.N, old(oIdx)), code.N)
      ensures steps == old(steps) + [Step(false,
              Fill(code.Punctured(), Times(code.N, old(oIdx)), code.N, input[iIdx..]))]
      ensures aes[0] == old(aes[0])
    {
      var sym;
      sym, i := GetInput(input, iIdx, oIdx);
      ghost var row, rows := stateHistory[oIdx], stateHistory[..oIdx];
      ScanColumn(sym, oIdx);
      assert stateHistory[..oIdx] == rows;
      CommitColumn(Step(false, sym), row);
    }

    /** One flush column. */
    method FlushStep(input: seq<SBit>, iIdx: nat) returns (i: nat)
      requires Valid() && oIdx < stateHistory.Length
      requires iIdx + Need(code.Punctured(), Times(code.N, oIdx), code.N) <= |input|
      modifies this, ae, aeNext, stateHistory
      ensures Valid() && oIdx == old(oIdx) + 1
      ensures i == iIdx + Need(code.Punctured(), Times(code.N, old(oIdx)), code.N)
      ensures steps == old(steps) + [Step(true,
              Fill(code.Punctured(), Times(code.N, old(oIdx)), code.N, input[iIdx..]))]
      ensures aes[0] == old(aes[0])
    {
      var sym;
      sym, i := GetInput(input, iIdx, oIdx);
      ghost var row, rows := stateHistory[oIdx], stateHistory[..oIdx];
      FlushColumn(sym, oIdx);
      assert stateHistory[..oIdx] == rows;
      CommitColumn(Step(true, sym), row);
    }

    /** `osmo_conv_decode_scan`: `n` data columns; returns the number of soft bits consumed. */
    method Scan(input: seq<SBit>, n: nat) returns (iIdx: nat)
      requires Valid() && oIdx + n <= len + code.K - 1
      requires Need(code.Punctured(), Times(code.N, oIdx), Times(code.N, n)) <= |input|
      modifies this, ae, aeNext, stateHistory
      ensures Valid() && oIdx == old(oIdx) + n
      ensures iIdx == Need(code.Punctured(), Times(code.N, old(oIdx)), Times(code.N, n))
      ensures Scanned(code, old(oIdx), old(steps), steps, false, n, input)
      ensures aes[0] == old(aes[0])
    {
      ghost var o, before := oIdx, steps;
      iIdx := 0;
      for i := 0 to n
        invariant Valid() && oIdx == o + i
        invariant iIdx == Need(code.Punctured(), Times(code.N, o), Times(code.N, i))
        invariant Scanned(code, o, before, steps, false, i, input)
        invariant aes[0] == old(aes[0])
      {
        iIdx := NextColumn(input, iIdx, false, o, before, i, n);
      }
    }

    /** One more of `n` columns of one kind that started at column `o`. */
    method NextColumn(input: seq<SBit>, iIdx: nat, tail: bool, ghost o: nat, ghost before: seq<Step>, ghost i: nat,
                      ghost n: nat)
      returns (k: nat)
      requires Valid() && oIdx == o + i && i < n && o + n <= len + code.K - 1
      requires Need(code.Punctured(), Times(code.N, o), Times(code.N, n)) <= |input|
      requires iIdx == Need(code.Punctured(), Times(code.N, o), Times(code.N, i))
      requires Scanned(code, o, before, steps, tail, i, input)
      modifies this, ae, aeNext, stateHistory
      ensures Valid() && oIdx == o + i + 1 && aes[0] == old(aes[0])
      ensures k == Need(code.Punctured(), Times(code.N, o), Times(code.N, i + 1))
      ensures Scanned(code, o, before, steps, tail, i + 1, input)
    {
      ScannedMore(code, o, before, steps, tail, i, n, input);
      if tail {
        k := FlushStep(input, iIdx);
      } else {
        k := ScanStep(input, iIdx);
      }
    }

    /** `osmo_conv_decode_flush`: the K-1 flush columns. */
    method Flush(input: seq<SBit>) returns (iIdx: nat)
      requires Valid() && oIdx <= len
      requires Need(code.Punctured(), Times(code.N, oIdx), Times(code.N, code.K - 1)) <= |input|
      modifies this, ae, aeNext, stateHistory
      ensures Valid() && oIdx == old(oIdx) + code.K - 1
      ensures iIdx == Need(code.Punctured(), Times(code.N, old(oIdx)), Times(code.N, code.K - 1))
      ensures Scanned(code, old(oIdx), old(steps), steps, true, code.K - 1, input)
      ensures aes[0] == old(aes[0])
    {
      ghost var o, before := oIdx, steps;
      iIdx := 0;
      for i := 0 to code.K - 1
        invariant Valid() && oIdx == o + i
        invariant iIdx == Need(code.Punctured(), Times(code.N, o), Times(code.N, i))
        invariant Scanned(code, o, before, steps, true, i, input)
        invariant aes[0] == old(aes[0])
      {
        iIdx := NextColumn(input, iIdx, true, o, before, i, code.K - 1);
      }
    }

    /** `osmo_conv_decode_get_best_end_state`, for codes that are not tail-biting. */
    method GetBestEndState() returns (minState: int)
      requires Valid() && !code.term.TailBiting?
      ensures code.term.Flush? ==> minState == 0
      ensures minState < nStates
      ensures !code.term.Flush? && minState < 0 ==> forall s :: 0 <= s < nStates ==> ae[s] == MAX_AE
      ensures !code.term.Flush? && minState >= 0 ==>
                ae[minState] < MAX_AE && forall s :: 0 <= s < nStates ==> ae[minState] <= ae[s]
    {
      ChainFit(code, steps, aes, stateHistory[..oIdx]);
      assert forall s :: 0 <= s < nStates ==> ae[s] == aes[oIdx][s];
      if code.term == Term.Flush {
        return 0;
      }
      minState := -1;
      var minAe := MAX_AE;
      for s := 0 to nStates
        invariant minState < s
        invariant minState < 0 ==> minAe == MAX_AE
        invariant minState >= 0 ==> minAe == ae[minState] < MAX_AE
        invariant forall k :: 0 <= k < s ==> minAe <= ae[k]
      {
        if ae[s] < minAe {
          minAe := ae[s];
          minState := s;
        }
      }
    }

    /** `osmo_conv_decode_get_output`: traces back from an end state and rebuilds the message. The end
        state must have been reached: the history of other states was never written. */
    method GetOutput(hasFlush: bool, endState: int) returns (minAe: int, output: seq<Bit>, ghost end: nat)
      requires Valid() && SplitsStates(code) && !code.term.TailBiting?
      requires endState < nStates
      requires endState >= 0 ==> ae[endState] < MAX_AE
      requires endState < 0 && code.term.Flush? ==> ae[0] < MAX_AE
      requires hasFlush ==> oIdx >= code.K - 1
      requires forall i :: 0 <= i < oIdx ==> steps[i].tail == (hasFlush && i >= oIdx - (code.K - 1))
      ensures minAe < 0 ==> minAe == -1 && endState < 0 && forall s :: 0 <= s < nStates ==> ae[s] == MAX_AE
      ensures minAe >= 0 ==>
                && end < nStates && minAe == ae[end] < MAX_AE
                && (endState >= 0 ==> end == endState)
                && (endState < 0 && code.term.Flush? ==> end == 0)
                && (endState < 0 && !code.term.Flush? ==> forall s :: 0 <= s < nStates ==> minAe <= ae[s])
                && |output| == oIdx - (if hasFlush then code.K - 1 else 0)
                && Fit(code, steps)
                && exists s :: Explains(code, steps, aes[0], s, output, hasFlush, end, minAe)
    {
      end := 0;
      output := [];
      var e := endState;
      if e < 0 {
        e := GetBestEndState();
      }
      if e < 0 {
        return -1, output, end;
      }
      end := e;
      minAe := ae[e];
      ghost var s;
      output, s := TraceBack(hasFlush, e);
    }

    /** The message on the surviving path into `e`. */
    method TraceBack(hasFlush: bool, e: nat) returns (output: seq<Bit>, ghost s: nat)
      requires Valid() && SplitsStates(code) && e < nStates && ae[e] < MAX_AE
      requires hasFlush ==> oIdx >= code.K - 1
      requires forall i :: 0 <= i < oIdx ==> steps[i].tail == (hasFlush && i >= oIdx - (code.K - 1))
      ensures |output| == oIdx - (if hasFlush then code.K - 1 else 0)
      ensures Fit(code, steps) && Explains(code, steps, aes[0], s, output, hasFlush, e, ae[e])
    {
      ChainFit(code, steps, aes, stateHistory[..oIdx]);
      ghost var states, ms := SurvivorPath(code, steps, aes, stateHistory[..oIdx], e);
      var cur: nat, n: nat := e, oIdx;
      if hasFlush {
        cur := TraceFlush(e, states, ms);
        n := n - (code.K - 1);
      }
      output := TraceData(n, cur, states, ms);
      s := states[0];
      SurvivorMoves(code, steps, stateHistory[..oIdx], states, ms, output, hasFlush);
    }

    /** Walks back over the K-1 flush columns. */
    method TraceFlush(end: nat, ghost states: seq<nat>, ghost ms: seq<Move>) returns (cur: nat)
      requires oIdx <= stateHistory.Length && oIdx >= code.K - 1
      requires Survivor(code, steps, stateHistory[..oIdx], states, ms) && |steps| == oIdx && states[oIdx] == end
      ensures cur == states[oIdx - (code.K - 1)]
    {
      cur := end;
      for i := oIdx downto oIdx - (code.K - 1)
        invariant cur == states[i]
      {
        assert Backward(code, steps[i], stateHistory[..oIdx][i], states[i], states[i + 1], ms[i]);
        cur := stateHistory[i][cur];
      }
    }

    /** Walks back over the first `n` columns, which carry data, and writes their bits. */
    method TraceData(n: nat, end: nat, ghost states: seq<nat>, ghost ms: seq<Move>) returns (output: seq<Bit>)
      requires SplitsStates(code) && n <= oIdx <= stateHistory.Length
      requires Survivor(code, steps, stateHistory[..oIdx], states, ms) && |steps| == oIdx && states[n] == end
      requires forall i :: 0 <= i < n ==> !steps[i].tail
      ensures |output| == n && forall i :: 0 <= i < n ==> ms[i] == Data(output[i])
    {
      var cur := end;
      output := [];
      for i := n downto 0
        invariant cur == states[i]
        invariant |output| == n - i && forall k :: i <= k < n ==> ms[k] == Data(output[k - i])
      {
        assert Backward(code, steps[i], stateHistory[..oIdx][i], states[i], states[i + 1], ms[i]);
        var minState := cur;
        cur := stateHistory[i][cur];
        var bit: Bit := if code.nextState[cur][0] == minState then 0 else 1;
        output := [bit] + output;
      }
    }
  }

  /** Edge 2s + b of a data column leaves state `s` with data bit `b`. */
  lemma DataEdge(c: Code, s: nat, b: Bit)
    requires s < c.NumStates()
    ensures 2 * s + b < NumEdges(c, false) && EdgeFrom(false, 2 * s + b) == s && EdgeMove(false, 2 * s + b) == Data(b)
  {
  }

  /** A message, followed by the K-1 flush moves if the columns end with them. */
  function Moves(c: Code, output: seq<Bit>, flushed: bool): seq<Move> {
    DataMoves(output) + TailMoves(if flushed then c.K - 1 else 0)
  }

  lemma {:induction false} SurvivorMoves(c: Code, steps: seq<Step>, hist: seq<seq<nat>>, states: seq<nat>,
                                         ms: seq<Move>,
                      output: seq<Bit>, flushed: bool)
    requires Survivor(c, steps, hist, states, ms)
    requires |steps| == |Moves(c, output, flushed)|
    requires forall i :: 0 <= i < |steps| ==> steps[i].tail == (i >= |output|)
    requires forall i :: 0 <= i < |output| ==> ms[i] == Data(output[i])
    ensures ms == Moves(c, output, flushed) && Through(steps, ms)
  {
    SurvivorThrough(c, steps, hist, states, ms);
  }

  /** Sending `output` from `s` leads to `end` and has total error `total`. */
  ghost predicate Explains(c: Code, steps: seq<Step>, init: seq<nat>, s: nat, output: seq<Bit>, flushed: bool,
                           end: nat, total: nat)
    requires Fit(c, steps)
  {
    && s < c.NumStates() && s < |init|
    && Through(steps, Moves(c, output, flushed))
    && Run(c, s, Moves(c, output, flushed)) == end
    && init[s] + PathErr(c, s, steps, Moves(c, output, flushed)) == total
  }

  /** `steps` grew from column `o` on by `n` columns of one kind, which carry the depunctured input. */
  ghost predicate Scanned(c: Code, o: nat, before: seq<Step>, steps: seq<Step>, tail: bool, n: nat, input: seq<SBit>) {
    && Need(c.Punctured(), Times(c.N, o), Times(c.N, n)) <= |input|
    && |steps| == |before| + n
    && steps[..|before|] == before
    && (forall i :: |before| <= i < |steps| ==> steps[i].tail == tail)
    && Flat(steps[|before|..]) == Fill(c.Punctured(), Times(c.N, o), Times(c.N, n), input)
  }

  lemma {:induction false} ScannedMore(c: Code, o: nat, before: seq<Step>, steps: seq<Step>, tail: bool, i: nat, n: nat,
                                       input: seq<SBit>)
    requires Scanned(c, o, before, steps, tail, i, input)
    requires i < n && Need(c.Punctured(), Times(c.N, o), Times(c.N, n)) <= |input|
    ensures var p, k := c.Punctured(), Need(c.Punctured(), Times(c.N, o), Times(c.N, i));
            && k + Need(p, Times(c.N, o + i), c.N) == Need(p, Times(c.N, o), Times(c.N, i + 1)) <= |input|
            && Scanned(c, o, before, steps + [Step(tail, Fill(p, Times(c.N, o + i), c.N, input[k..]))], tail, i + 1,
               input)
  {
    ColumnInput(c, o, i, n, input);
    var k := Need(c.Punctured(), Times(c.N, o), Times(c.N, i));
    var st := Step(tail, Fill(c.Punctured(), Times(c.N, o + i), c.N, input[k..]));
    FlatOne(steps, |before|, st);
    assert (steps + [st])[..|before|] == steps[..|before|];
  }

  lemma {:induction false} FlatOne(steps: seq<Step>, n: nat, st: Step)
    requires n <= |steps|
    ensures Flat((steps + [st])[n..]) == Flat(steps[n..]) + st.sym
  {
    assert (steps + [st])[n..] == steps[n..] + [st];
    assert (steps[n..] + [st])[..|steps| - n] == steps[n..];
  }

  /** The soft bits of column i, when n columns from column o on are read from `input`. */
  lemma {:induction false} ColumnInput(c: Code, o: nat, i: nat, n: nat, input: seq<SBit>)
    requires i < n && Need(c.Punctured(), Times(c.N, o), Times(c.N, n)) <= |input|
    ensures var p, k := c.Punctured(), Need(c.Punctured(), Times(c.N, o), Times(c.N, i));
            && k + Need(p, Times(c.N, o + i), c.N) == Need(p, Times(c.N, o), Times(c.N, i + 1)) <= |input|
            && Fill(p, Times(c.N, o), Times(c.N, i + 1), input)
            == Fill(p, Times(c.N, o), Times(c.N, i), input) + Fill(p, Times(c.N, o + i), c.N, input[k..])
  {
    TimesAdd(c.N, o, i);
    TimesAdd(c.N, i + 1, n - i - 1);
    FillTwo(c.Punctured(), Times(c.N, o), Times(c.N, i), c.N, Times(c.N, n - i - 1), input);
  }

  /** The second of three parts of the positions from `base` on. */
  lemma {:induction false} FillTwo(p: seq<int>, base: nat, a: nat, b: nat, rest: nat, input: seq<SBit>)
    requires Need(p, base, a + b + rest) <= |input|
    ensures Need(p, base, a) + Need(p, base + a, b) == Need(p, base, a + b) <= |input|
    ensures Fill(p, base, a + b, input) == Fill(p, base, a, input) + Fill(p, base + a, b, input[Need(p, base, a)..])
  {
    NeedAppend(p, base, a + b, rest);
    NeedAppend(p, base, a, b);
    FillAppend(p, base, a, b, input);
  }
}
