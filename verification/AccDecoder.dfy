/** The accelerated Viterbi decoder: src/core/conv_acc.c with the portable metric unit of
    src/core/conv_acc_generic.c. */
module AccDecoder {
  import opened Bits
  import opened SoftBits
  import opened ConvCode
  import opened AccCode
  import opened AccSums
  import opened AccTrellis

  /** Left shift and mask for finding the previous state. */
  function VstateLshift(reg: nat, k: nat, val: Bit): nat {
    if k == 5 then (2 * reg) % 16 + val
    else if k == 7 then (2 * reg) % 64 + val
    else val
  }

  lemma {:induction false} LshiftIsPrevious(reg: nat, k: nat, val: Bit)
    requires (k == 5 || k == 7) && reg < Pow2(k - 1)
    ensures VstateLshift(reg, k, val) == 2 * (if reg < Pow2(k - 2) then reg else reg - Pow2(k - 2)) + val
  {
    assert Pow2(3) == 8 && Pow2(4) == 16 && Pow2(5) == 32 && Pow2(6) == 64;
  }

  /** The even predecessor of `r`, in the code's own numbering. */
  function Even(c: Code, r: nat): (s: nat)
    requires c.K >= 2 && r < c.NumStates()
    ensures s < c.NumStates()
  {
    Rev(c.K - 1, 2 * (if r < H(c) then r else r - H(c)))
  }

  function NewestOf(c: Code, r: nat): Bit
    requires c.K >= 2
  {
    if r < H(c) then 0 else 1
  }

  /** Input value and NRZ outputs of the edge from the even predecessor. */
  function TrellisVal(c: Code, r: nat): Bit
    requires c.K >= 2 && r < c.NumStates()
  {
    InBit(c, Even(c, r), NewestOf(c, r))
  }

  function Nrz(bits: seq<Bit>): (row: seq<int>)
    ensures |row| == |bits|
  {
    seq(|bits|, j requires 0 <= j < |bits| => if bits[j] == 0 then 1 else -1)
  }

  function TrellisRow(c: Code, r: nat): seq<int>
    requires c.K >= 2 && r < c.NumStates()
  {
    Nrz(OutBits(c.N, EdgeOut(c, Even(c, r), NewestOf(c, r))))
  }

  lemma {:induction false} RevBit(n: nat, v: nat, j: nat)
    requires j < n
    ensures BitAt(Rev(n, v), j) == BitAt(v, n - 1 - j)
  {
    RevDigits(v, n - 1, n);
    if j == 0 {
    } else {
      RevBit(n - 1, v, j - 1);
      assert Rev(n, v) / 2 == Rev(n - 1, v);
    }
  }

  /** Unpacks an output word to NRZ; the swap puts the first output bit first. */
  method Unpack(n: nat, word: nat) returns (row: seq<int>)
    requires 2 <= n <= 4 && word < Pow2(n)
    ensures row == Nrz(OutBits(n, word))
  {
    var out := Bitswap(word, n);
    BitswapIsRev(word, n);
    row := [];
    for i := 0 to n
      invariant |row| == i && forall j :: 0 <= j < i ==> row[j] == Nrz(OutBits(n, word))[j]
    {
      RevBit(n, word, i);
      var bit: int := BitAt(out, i);
      row := row + [(bit * 2 - 1) * -1];
    }
  }

  /** `gen_state_info`: non-recursive codes. */
  method GenStateInfo(c: Code, reg: nat) returns (val: Bit, row: seq<int>)
    requires (c.K == 5 || c.K == 7) && 2 <= c.N <= 4 && reg < c.NumStates()
    ensures ShiftsAt(c, Even(c, reg)) && c.tail.None? ==> val == TrellisVal(c, reg) && row == TrellisRow(c, reg)
  {
    LshiftIsPrevious(reg, c.K, 0);
    TopBit(c, reg);
    val := BitAt(reg, c.K - 2);
    var prev := Bitswap(VstateLshift(reg, c.K, 0), c.K - 1);
    BitswapIsRev(VstateLshift(reg, c.K, 0), c.K - 1);
    row := Unpack(c.N, c.nextOutput[prev][val]);
  }

  lemma {:induction false} TopBit(c: Code, reg: nat)
    requires c.K >= 2 && reg < c.NumStates()
    ensures BitAt(reg, c.K - 2) == NewestOf(c, reg)
  {
    HighBit(c.K - 2, reg);
  }

  lemma {:induction false} HighBit(m: nat, v: nat)
    requires v < 2 * Pow2(m)
    ensures BitAt(v, m) == if v < Pow2(m) then 0 else 1
  {
    if m == 0 {
    } else {
      HighBit(m - 1, v / 2);
    }
  }

  /** The search for the systematic output: the first output that is 0 for every input 0. */
  method FindSystematic(c: Code) returns (pos: int)
    ensures pos < c.N
    ensures pos >= 0 ==> LooksSystematic(c, pos)
    ensures pos < 0 ==> !exists i :: 0 <= i < c.N && LooksSystematic(c, i)
  {
    var ns := c.NumStates();
    for i := 0 to c.N
      invariant forall i' :: 0 <= i' < i ==> !LooksSystematic(c, i')
    {
      var j := 0;
      while j < ns && BitAt(c.nextOutput[j][0], i) == 0
        invariant 0 <= j <= ns
        invariant forall s :: 0 <= s < j ==> BitAt(c.nextOutput[s][0], i) == 0
      {
        j := j + 1;
      }
      if j == ns {
        return i;
      }
    }
    pos := -1;
  }

  const EPROTO := 71
  const EINVAL := 22

  /** `gen_recursive_state_info`: systematic recursive codes; others are refused. */
  method GenRecursiveStateInfo(c: Code, reg: nat) returns (rc: int, val: Bit, row: seq<int>)
    requires (c.K == 5 || c.K == 7) && 2 <= c.N <= 4 && reg < c.NumStates() && c.tail.Some?
    ensures rc == 0 || rc == -EPROTO
    ensures rc == 0 <==> exists i :: 0 <= i < c.N && LooksSystematic(c, i)
    ensures rc == 0 && (forall i :: 0 <= i < c.N && LooksSystematic(c, i) ==> CarriesFeedback(c, i)) ==>
              val == TrellisVal(c, reg) && row == TrellisRow(c, reg)
  {
    var pos := FindSystematic(c);
    if pos < 0 {
      return -EPROTO, 0, [];
    }
    LshiftIsPrevious(reg, c.K, 0);
    TopBit(c, reg);
    BitswapIsRev(VstateLshift(reg, c.K, 0), c.K - 1);
    var prev := Bitswap(VstateLshift(reg, c.K, 0), c.K - 1);
    var val0 := BitAt(reg, c.K - 2);
    var val1 := BitAt(c.tail.value.output[prev], pos);
    val := if val0 == val1 then 0 else 1;
    row := Unpack(c.N, c.nextOutput[prev][val]);
    rc := 0;
  }

  // ---------------------------------------------------------------------------
  // Metric units

  /** The unrolled sums of gen_branch_metrics_n2, _n3 and _n4. */
  function Dot(sym: seq<SBit>, row: seq<int>): int
    requires |sym| == |row| && 2 <= |sym| <= 4
  {
    if |sym| == 2 then sym[0] * row[0] + sym[1] * row[1]
    else if |sym| == 3 then sym[0] * row[0] + sym[1] * row[1] + sym[2] * row[2]
    else sym[0] * row[0] + sym[1] * row[1] + sym[2] * row[2] + sym[3] * row[3]
  }

  lemma {:induction false} DotIsCorr(sym: seq<SBit>, bits: seq<Bit>)
    requires |sym| == |bits| && 2 <= |sym| <= 4
    ensures Dot(sym, Nrz(bits)) == Corr(sym, bits)
  {
    CorrTake(sym, bits, 0);
    CorrTake(sym, bits, 1);
    if |sym| >= 3 { CorrTake(sym, bits, 2); }
    if |sym| >= 4 { CorrTake(sym, bits, 3); }
    assert sym[..|sym|] == sym && bits[..|sym|] == bits;
  }

  lemma {:induction false} CorrTake(sym: seq<SBit>, bits: seq<Bit>, n: nat)
    requires n < |sym| == |bits|
    ensures n == 0 ==> Corr(sym[..n], bits[..n]) == 0
    ensures Corr(sym[..n + 1], bits[..n + 1]) == Corr(sym[..n], bits[..n]) + (sym[n] as int) * Nrz(bits)[n]
  {
    assert sym[..n + 1][..n] == sym[..n] && bits[..n + 1][..n] == bits[..n];
  }

  /** `gen_branch_metrics_n*`. */
  method GenBranchMetrics(c: Code, sym: seq<SBit>, outputs: array<seq<int>>) returns (metrics: seq<int>)
    requires c.K >= 2 && |sym| == c.N && 2 <= c.N <= 4 && outputs.Length == c.NumStates()
    requires forall r :: 0 <= r < c.NumStates() ==> outputs[r] == TrellisRow(c, r)
    ensures metrics == Metrics(c, sym)
  {
    var h := c.NumStates() / 2;
    metrics := [];
    for i := 0 to h
      invariant |metrics| == i && forall j :: 0 <= j < i ==> metrics[j] == Metrics(c, sym)[j]
    {
      DotIsCorr(sym, OutBits(c.N, EdgeOut(c, Even(c, i), 0)));
      metrics := metrics + [Dot(sym, outputs[i])];
    }
  }

  /** `acs_butterfly`: both successors of states 2 * state and 2 * state + 1. */
  method AcsButterfly(state: nat, numStates: nat, metric: int, sum: array<int>, newSum: array<int>, path: array<int>)
    requires 2 * state + 1 < numStates && numStates % 2 == 0
    requires sum.Length == newSum.Length == path.Length == numStates
    requires sum != newSum && sum != path && newSum != path
    modifies newSum, path
    ensures newSum[state] == Wrap16(if sum[2 * state] + metric >= sum[2 * state + 1] - metric
                                    then sum[2 * state] + metric else sum[2 * state + 1] - metric)
    ensures newSum[state + numStates / 2] == Wrap16(if sum[2 * state] - metric >= sum[2 * state + 1] + metric
                                    then sum[2 * state] - metric else sum[2 * state + 1] + metric)
    ensures path[state] == if sum[2 * state] + metric >= sum[2 * state + 1] - metric then -1 else 0
    ensures path[state + numStates / 2] == if sum[2 * state] - metric >= sum[2 * state + 1] + metric then -1 else 0
    ensures forall r :: 0 <= r < numStates && r != state && r != state + numStates / 2 ==>
              newSum[r] == old(newSum[r]) && path[r] == old(path[r])
  {
    var state0, state1 := sum[2 * state], sum[2 * state + 1];
    var sum0, sum1 := state0 + metric, state1 - metric;
    var sum2, sum3 := state0 - metric, state1 + metric;
    if sum0 >= sum1 {
      newSum[state] := Wrap16(sum0);
      path[state] := -1;
    } else {
      newSum[state] := Wrap16(sum1);
      path[state] := 0;
    }
    if sum2 >= sum3 {
      newSum[state + numStates / 2] := Wrap16(sum2);
      path[state + numStates / 2] := -1;
    } else {
      newSum[state + numStates / 2] := Wrap16(sum3);
      path[state + numStates / 2] := 0;
    }
  }

  /** The add-compare-select part of `gen_path_metrics`. */
  method AllButterflies(h: nat, sums: array<int>, metrics: seq<int>, newSums: array<int>, path: array<int>)
    requires h > 0 && |metrics| == h && sums.Length == newSums.Length == path.Length == 2 * h
    requires sums != newSums && sums != path && newSums != path
    modifies newSums, path
    ensures newSums[..] == Stored(h, sums[..], metrics)
    ensures path[..] == Paths(h, sums[..], metrics)
  {
    ghost var s := sums[..];
    for i := 0 to h
      invariant sums[..] == s
      invariant forall r :: 0 <= r < 2 * h && (r < i || h <= r < h + i) ==>
                  newSums[r] == Stored(h, s, metrics)[r] && path[r] == Paths(h, s, metrics)[r]
    {
      AcsButterfly(i, 2 * h, metrics[i], sums, newSums, path);
      assert s[2 * i] == sums[2 * i] && s[2 * i + 1] == sums[2 * i + 1];
      assert newSums[i] == Stored(h, s, metrics)[i] && path[i] == Paths(h, s, metrics)[i];
      assert newSums[i + h] == Stored(h, s, metrics)[i + h] && path[i + h] == Paths(h, s, metrics)[i + h];
    }
  }

  /** The normalisation part of `gen_path_metrics`. */
  method Normalise(newSums: array<int>)
    requires newSums.Length > 0
    modifies newSums
    ensures newSums[..] == Normalised(old(newSums[..]))
  {
    ghost var s := newSums[..];
    var min := newSums[0];
    assert s[..1] == [s[0]];
    for i := 1 to newSums.Length
      invariant newSums[..] == s
      invariant min == Min(s[..i])
    {
      assert s[..i + 1][..i] == s[..i];
      if newSums[i] < min {
        min := newSums[i];
      }
    }
    assert s[..newSums.Length] == s;
    for i := 0 to newSums.Length
      invariant forall r :: 0 <= r < i ==> newSums[r] == Normalised(s)[r]
      invariant forall r :: i <= r < newSums.Length ==> newSums[r] == s[r]
    {
      newSums[i] := Wrap16(newSums[i] - min);
    }
  }

  /** `gen_path_metrics`: updates the sums, returns the path selections. */
  method GenPathMetrics(h: nat, sums: array<int>, metrics: seq<int>, norm: bool) returns (path: seq<int>)
    requires h > 0 && |metrics| == h && sums.Length == 2 * h
    modifies sums
    ensures sums[..] == Kept(h, old(sums[..]), metrics, norm)
    ensures path == Paths(h, old(sums[..]), metrics)
  {
    var newSums, paths := new int[2 * h], new int[2 * h];
    AllButterflies(h, sums, metrics, newSums, paths);
    if norm {
      Normalise(newSums);
    }
    ghost var kept := newSums[..];
    forall r | 0 <= r < 2 * h {
      sums[r] := newSums[r];
    }
    assert sums[..] == kept;
    path := paths[..];
  }

  // ---------------------------------------------------------------------------
  // The decoder object

  /** Sums before the first step: a bonus for state 0, the encoder's start state, unless tail-biting. */
  function StartSums(c: Code): (s: seq<int>)
    ensures |s| == c.NumStates()
  {
    seq(c.NumStates(), i => if i == 0 && !c.term.TailBiting? then Bonus(c) else 0)
  }

  /** 127 * N * K: the largest sum a path can gain in K steps. */
  function Bonus(c: Code): nat {
    Times(Times(127, c.N), c.K)
  }

  lemma {:induction false} BonusIsProduct(c: Code)
    ensures Bonus(c) == 127 * c.N * c.K
  {
    TripleProduct(127, c.N, c.K);
  }

  lemma {:induction false} TripleProduct(a: nat, b: nat, c: nat)
    ensures Times(Times(a, b), c) == a * b * c
  {
    TimesIsProduct(a, b);
    TimesIsProduct(Times(a, b), c);
    assert b * a == a * b;
    assert c * (a * b) == a * b * c;
  }

  /** Steps between normalisations: 32767 / (127 * n) - k. */
  function Interval(n: nat, k: nat): int {
    (if n == 2 then 129 else if n == 3 then 86 else 64) - k
  }

  lemma IntervalIsQuotient(n: nat, k: nat)
    requires 2 <= n <= 4
    ensures Interval(n, k) == 32767 / (n * 127) - k
  {
  }

  /** `struct vdecoder`. */
  class VDecoder {
    const code: Code
    const len: nat
    const intrvl: int
    const sums: array<int>
    const outputs: array<seq<int>>
    const vals: array<int>
    const paths: array<seq<int>>

    ghost predicate Shape()
      reads this
    {
      && (code.K == 5 || code.K == 7) && 2 <= code.N <= 4
      && len == code.Steps()
      && intrvl == Interval(code.N, code.K)
      && sums.Length == outputs.Length == vals.Length == code.NumStates()
      && paths.Length == len
      && outputs != paths && sums != vals
    }

    /** The tables generate_trellis fills in. */
    ghost predicate Trellis()
      requires Shape()
      reads this, outputs, vals
    {
      forall r :: 0 <= r < code.NumStates() ==> outputs[r] == TrellisRow(code, r) && vals[r] == TrellisVal(code, r)
    }

    /** The allocations of `vdec_init`. */
    constructor (code: Code)
      requires (code.K == 5 || code.K == 7) && 2 <= code.N <= 4
      ensures Shape() && this.code == code
      ensures fresh(sums) && fresh(outputs) && fresh(vals) && fresh(paths)
    {
      var ns := Pow2(code.K - 1);
      var l := if code.term == Flush then code.len + code.K - 1 else code.len;
      this.code := code;
      this.len := l;
      IntervalIsQuotient(code.N, code.K);
      this.intrvl := 32767 / (code.N * 127) - code.K;
      this.sums := new int[ns];
      this.outputs := new seq<int>[ns];
      this.vals := new int[ns];
      this.paths := new seq<int>[l];
    }

    /** `generate_trellis`: fails only for a recursive code without systematic output. */
    method GenerateTrellis() returns (rc: int)
      requires Shape()
      modifies sums, outputs, vals
      ensures rc == 0 || rc == -EPROTO
      ensures rc == -EPROTO <==> code.tail.Some? && !exists i :: 0 <= i < code.N && LooksSystematic(code, i)
      ensures rc == 0 ==> sums[..] == StartSums(code)
      ensures rc == 0 && Butterfly(code) ==> Trellis()
    {
      var ns := code.NumStates();
      for i := 0 to ns
        invariant forall r :: 0 <= r < i ==> sums[r] == 0
        invariant i > 0 && code.tail.Some? ==> exists p :: 0 <= p < code.N && LooksSystematic(code, p)
        invariant Butterfly(code) ==>
                    forall r :: 0 <= r < i ==> outputs[r] == TrellisRow(code, r) && vals[r] == TrellisVal(code, r)
      {
        var val, row;
        if code.tail.Some? {
          rc, val, row := GenRecursiveStateInfo(code, i);
          if rc < 0 {
            return;
          }
        } else {
          val, row := GenStateInfo(code, i);
        }
        assert Butterfly(code) ==> ShiftsAt(code, Even(code, i));
        vals[i] := val;
        outputs[i] := row;
        sums[i] := 0;
      }
      if code.term != TailBiting {
        BonusIsProduct(code);
        sums[0] := 127 * code.N * code.K;
      }
      assert sums[..] == StartSums(code);
      rc := 0;
    }

    /** One column: branch metrics, then path metrics, normalised on the interval. */
    method MetricFunc(x: seq<SBit>, i: nat) returns (path: seq<int>)
      requires Shape() && Trellis() && |x| == Times(code.N, len) && i < len && intrvl > 0
      modifies sums
      ensures sums[..] == Kept(H(code), old(sums[..]), Metrics(code, Sym(code.N, x, len, i)), Phase(intrvl, i) == 0)
      ensures path == Paths(H(code), old(sums[..]), Metrics(code, Sym(code.N, x, len, i)))
    {
      var sym := Symbols(x, i);
      PhaseIsMod(intrvl, i);
      var metrics := GenBranchMetrics(code, sym, outputs);
      path := GenPathMetrics(code.NumStates() / 2, sums, metrics, i % intrvl == 0);
    }

    /** The soft bits of a column. */
    method Symbols(x: seq<SBit>, i: nat) returns (sym: seq<SBit>)
      requires |x| == Times(code.N, len) && i < len
      ensures sym == Sym(code.N, x, len, i)
    {
      TimesIsProduct(code.N, i);
      TimesIsProduct(code.N, i + 1);
      TimesMono(code.N, i + 1, len);
      var first := i * code.N;
      assert Times(code.N, i + 1) == first + code.N;
      sym := x[first..first + code.N];
    }

    /** `forward_traverse`. */
    method ForwardTraverse(x: seq<SBit>)
      requires Shape() && Trellis() && |x| == Times(code.N, len)
      modifies sums, paths
      ensures sums[..] == KeptSums(H(code), MetricRows(code, x, len), intrvl, old(sums[..]), len)
      ensures paths[..] == PathRows(H(code), MetricRows(code, x, len), intrvl, old(sums[..]), len)
    {
      ghost var ms, start := MetricRows(code, x, len), sums[..];
      for i := 0 to len
        invariant Trellis()
        invariant sums[..] == KeptSums(H(code), ms, intrvl, start, i)
        invariant paths[..i] == PathRows(H(code), ms, intrvl, start, i)
      {
        Column(x, i, ms, start);
      }
      assert paths[..len] == paths[..];
    }

    /** One column of the traversal. */
    method Column(x: seq<SBit>, i: nat, ghost ms: seq<seq<int>>, ghost start: seq<int>)
      requires Shape() && Trellis() && |x| == Times(code.N, len) && i < len && intrvl > 0 && |start| == 2 * H(code)
      requires ms == MetricRows(code, x, len) && sums[..] == KeptSums(H(code), ms, intrvl, start, i)
      requires paths[..i] == PathRows(H(code), ms, intrvl, start, i)
      modifies sums, paths
      ensures Trellis() && sums[..] == KeptSums(H(code), ms, intrvl, start, i + 1)
      ensures paths[..i + 1] == PathRows(H(code), ms, intrvl, start, i + 1)
    {
      assert ms[i] == Metrics(code, Sym(code.N, x, len, i));
      assert PathRows(H(code), ms, intrvl, start, i + 1)
          == PathRows(H(code), ms, intrvl, start, i) + [PathRow(H(code), ms, intrvl, start, i)];
      ghost var before := paths[..i];
      var path := MetricFunc(x, i);
      StorePath(i, path, before);
    }

    method StorePath(i: nat, path: seq<int>, ghost before: seq<seq<int>>)
      requires i < paths.Length && paths[..i] == before
      modifies paths
      ensures paths[..i + 1] == before + [path]
    {
      paths[i] := path;
    }

    /** Walks back over the columns behind the message. */
    method TraceTail(end: nat, ghost states: seq<nat>) returns (state: nat)
      requires Shape() && code.len <= len && Traced(H(code), paths[..], states) && states[len] == end
      ensures state == states[code.len]
    {
      state := end;
      for i := len downto code.len
        invariant state == states[i]
      {
        assert TraceStep(H(code), paths[..][i], states[i], states[i + 1]);
        LshiftIsPrevious(state, code.K, paths[i][state] + 1);
        state := VstateLshift(state, code.K, paths[i][state] + 1);
      }
    }

    /** `_traceback` and, for recursive codes, `_traceback_rec`. */
    method TraceOutput(end: nat, ghost states: seq<nat>) returns (out: seq<Bit>)
      requires Shape() && Trellis() && Butterfly(code) && code.len <= len
      requires Traced(H(code), paths[..], states) && states[code.len] == end
      ensures out == TraceMsg(code, states)[..code.len]
    {
      AllReadOff(code, paths[..], vals[..], states);
      out := TraceBits(end, states, TraceMsg(code, states));
    }

    method TraceBits(end: nat, ghost states: seq<nat>, ghost msg: seq<Bit>) returns (out: seq<Bit>)
      requires Shape() && code.len <= len && AllReadsOff(code, paths[..], vals[..], states, msg)
      requires states[code.len] == end
      ensures out == msg[..code.len]
    {
      var state := end;
      out := [];
      for i := code.len downto 0
        invariant state == states[i] && out == msg[i..code.len]
      {
        assert ReadsOff(code, paths[..][i], vals[..], states[i + 1], states[i], msg[i]);
        var path: Bit := paths[i][state] + 1;
        LshiftIsPrevious(state, code.K, path);
        var val: Bit := vals[state];
        var bit: Bit := if code.tail.Some? then (if path == val then 0 else 1) else val;
        out := [bit] + out;
        state := VstateLshift(state, code.K, path);
      }
    }

    /** `traceback`, for codes that are not tail-biting: from state 0 after a flush, else from a best state. */
    method Traceback() returns (rc: int, out: seq<Bit>, ghost end: nat)
      requires Shape() && Trellis() && Butterfly(code) && !code.term.TailBiting?
      requires Selections(H(code), paths[..])
      ensures code.term.Flush? ==> rc == 0 && end == 0
      ensures rc == 0 || rc == -EPROTO
      ensures rc == -EPROTO ==> forall r :: 0 <= r < code.NumStates() ==> sums[r] < 0
      ensures rc == 0 ==> end < code.NumStates()
      ensures rc == 0 && !code.term.Flush? ==> forall r :: 0 <= r < code.NumStates() ==> sums[r] <= sums[end]
      ensures rc == 0 ==> out == TraceMsg(code, TraceStates(H(code), paths[..], end))[..code.len]
    {
      var max, state: nat := -1, 0;
      out, end := [], 0;
      if code.term != Flush {
        for i := 0 to sums.Length
          invariant max >= -1 && state < sums.Length
          invariant max >= 0 ==> max == sums[state]
          invariant forall r :: 0 <= r < i ==> sums[r] <= max
        {
          if sums[i] > max {
            max := sums[i];
            state := i;
          }
        }
        if max < 0 {
          return -EPROTO, out, end;
        }
      }
      end := state;
      ghost var states := TraceStates(H(code), paths[..], end);
      state := TraceTail(state, states);
      out := TraceOutput(state, states);
      rc := 0;
    }
  }

  /** What the traceback reads off a column with selections `row` is the state before it and the message bit. */
  ghost predicate ReadsOff(c: Code, row: seq<int>, values: seq<int>, r: nat, p: nat, bit: Bit) {
    && c.K >= 2 && r < |row| && r < |values| && r < c.NumStates()
    && (row[r] == -1 || row[r] == 0) && (values[r] == 0 || values[r] == 1)
    && p == 2 * (if r < H(c) then r else r - H(c)) + row[r] + 1
    && bit == if c.tail.None? then values[r] else if row[r] + 1 == values[r] then 0 else 1
  }

  ghost predicate AllReadsOff(c: Code, paths: seq<seq<int>>, values: seq<int>, states: seq<nat>, msg: seq<Bit>) {
    && |states| == |paths| + 1 && |msg| == |paths|
    && forall i :: 0 <= i < |paths| ==> ReadsOff(c, paths[i], values, states[i + 1], states[i], msg[i])
  }

  lemma {:induction false} AllReadOff(c: Code, paths: seq<seq<int>>, values: seq<int>, states: seq<nat>)
    requires Butterfly(c) && Traced(H(c), paths, states) && |values| == c.NumStates()
    requires forall r :: 0 <= r < c.NumStates() ==> values[r] == TrellisVal(c, r)
    ensures AllReadsOff(c, paths, values, states, TraceMsg(c, states))
  {
    forall i | 0 <= i < |paths|
      ensures ReadsOff(c, paths[i], values, states[i + 1], states[i], TraceMsg(c, states)[i])
    {
      assert TraceStep(H(c), paths[i], states[i], states[i + 1]);
      StepReadOff(c, paths[i], values, states[i], states[i + 1]);
    }
  }

  lemma {:induction false} StepReadOff(c: Code, row: seq<int>, values: seq<int>, p: nat, r: nat)
    requires Butterfly(c) && p < c.NumStates() && TraceStep(H(c), row, p, r)
    requires r < |values| && values[r] == TrellisVal(c, r)
    ensures ReadsOff(c, row, values, r, p, TraceBit(c, p, r))
  {
    OutputBit(c, p, r, row[r] + 1);
  }

  /** The stored input value belongs to the even predecessor; the odd one flips it in a recursive code. */
  lemma {:induction false} OutputBit(c: Code, p: nat, r: nat, path: Bit)
    requires Butterfly(c) && p < c.NumStates() && r < c.NumStates()
    requires p == 2 * (if r < H(c) then r else r - H(c)) + path
    ensures TraceBit(c, p, r) == if c.tail.None? then TrellisVal(c, r)
                                 else if path == TrellisVal(c, r) then 0 else 1
  {
    PredecessorOf(c, p, r, path);
    OutputBitAt(c, Even(c, r), NewestOf(c, r), path);
  }

  /** The odd predecessor differs from the even one in its oldest bit. */
  lemma {:induction false} PredecessorOf(c: Code, p: nat, r: nat, path: Bit)
    requires c.K >= 2 && r < c.NumStates()
    requires p == 2 * (if r < H(c) then r else r - H(c)) + path
    ensures Even(c, r) < H(c) && Rev(c.K - 1, p) == Even(c, r) + Top(path, H(c))
  {
    RevPair(c.K - 1, if r < H(c) then r else r - H(c));
  }

  lemma {:induction false} OutputBitAt(c: Code, s: nat, nb: Bit, path: Bit)
    requires Butterfly(c) && s < H(c)
    ensures var bit := InBit(c, s, nb);
            InBit(c, s + Top(path, H(c)), nb) == if c.tail.None? then bit else if path == bit then 0 else 1
  {
    if path == 1 {
      OddPredecessor(c, s, nb);
    }
  }

  lemma {:induction false} OddPredecessor(c: Code, s: nat, nb: Bit)
    requires Butterfly(c) && s < H(c)
    ensures InBit(c, s + H(c), nb) == if c.tail.None? then InBit(c, s, nb) else 1 - InBit(c, s, nb)
  {
    assert OldestFlips(c, s) && ShiftsAt(c, s) && ShiftsAt(c, s + H(c));
  }
}
