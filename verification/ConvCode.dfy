/** Convolutional codes given by tables, and what a message, a puncture list and a
    block of soft bits mean for such a code (include/osmocom/core/conv.h). */
module ConvCode {
  import opened Bits

  datatype Term = Flush | Truncation | TailBiting

  /** `next_term_output` and `next_term_state`: the table of a recursive code's flush steps. */
  datatype TailTable = TailTable(output: seq<nat>, state: seq<nat>)

  /** `struct osmo_conv_code`. The puncture list ends with -1, as in the source. */
  datatype CodeTables = CodeTables(
    N: nat,
    K: nat,
    len: nat,
    term: Term,
    nextOutput: seq<seq<nat>>,
    nextState: seq<seq<nat>>,
    tail: Option<TailTable>,
    puncture: Option<seq<int>>)
  {
    function NumStates(): (n: nat)
      requires K >= 1
    {
      Pow2(K - 1)
    }

    /** Outputs and states are bytes in the source, hence N <= 8 and K <= 9. */
    predicate Valid() {
      && 1 <= N <= 8
      && 1 <= K <= 9
      && |nextOutput| == NumStates()
      && |nextState| == NumStates()
      && (forall s :: 0 <= s < NumStates() ==>
            |nextOutput[s]| == 2 && nextOutput[s][0] < Pow2(N) && nextOutput[s][1] < Pow2(N))
      && (forall s :: 0 <= s < NumStates() ==>
            |nextState[s]| == 2 && nextState[s][0] < NumStates() && nextState[s][1] < NumStates())
      && (tail.Some? ==>
            && |tail.value.output| == NumStates()
            && |tail.value.state| == NumStates()
            && (forall s :: 0 <= s < NumStates() ==> tail.value.output[s] < Pow2(N))
            && (forall s :: 0 <= s < NumStates() ==> tail.value.state[s] < NumStates()))
      && (puncture.Some? ==> PunctureList(puncture.value))
    }

    /** The puncture list in force; a missing list punctures nothing. */
    function Punctured(): (p: seq<int>)
      requires Valid()
      ensures PunctureList(p)
    {
      if puncture.Some? then puncture.value else [-1]
    }

    /** Trellis steps of a whole block: the data bits, then K-1 flush steps if there are any. */
    function Steps(): nat
      requires K >= 1
    {
      len + (if term.Flush? then K - 1 else 0)
    }
  }

  /** A code whose tables have the right shape. */
  type Code = c: CodeTables | c.Valid()
    witness CodeTables(1, 1, 0, Truncation, [[0, 0]], [[0, 0]], None, None)

  /** Strictly increasing indices, terminated by -1. */
  predicate PunctureList(p: seq<int>) {
    && |p| >= 1
    && p[|p| - 1] == -1
    && (forall i :: 0 <= i < |p| - 1 ==> p[i] >= 0)
    && (forall i, j :: 0 <= i < j < |p| - 1 ==> p[i] < p[j])
  }

  // ---------------------------------------------------------------------------
  // Moves through the trellis

  /** One trellis step: a data bit, or a step of the flush. */
  datatype Move = Data(bit: Bit) | Tail

  function Next(c: Code, s: nat, m: Move): (t: nat)
    requires s < c.NumStates()
    ensures t < c.NumStates()
  {
    match m
    case Data(b) => c.nextState[s][b]
    case Tail => if c.tail.Some? then c.tail.value.state[s] else c.nextState[s][0]
  }

  function Out(c: Code, s: nat, m: Move): (o: nat)
    requires s < c.NumStates()
    ensures o < Pow2(c.N)
  {
    match m
    case Data(b) => c.nextOutput[s][b]
    case Tail => if c.tail.Some? then c.tail.value.output[s] else c.nextOutput[s][0]
  }

  /** The n bits of an output word, most significant first, the order they are sent in. */
  function OutBits(n: nat, o: nat): (bits: seq<Bit>)
    ensures |bits| == n
  {
    seq(n, j requires 0 <= j < n => BitAt(o, n - 1 - j))
  }

  lemma {:induction false} OutBitsInjective(n: nat, o: nat, o': nat)
    requires o < Pow2(n) && o' < Pow2(n)
    requires OutBits(n, o) == OutBits(n, o')
    ensures o == o'
  {
    forall k | 0 <= k < n
      ensures BitAt(o, k) == BitAt(o', k)
    {
      assert OutBits(n, o)[n - 1 - k] == OutBits(n, o')[n - 1 - k];
    }
    SameBitsSameValue(n, o, o');
  }

  /** The state reached from `s`. */
  function Run(c: Code, s: nat, ms: seq<Move>): (t: nat)
    requires s < c.NumStates()
    ensures t < c.NumStates()
  {
    if ms == [] then s else Next(c, Run(c, s, ms[..|ms| - 1]), ms[|ms| - 1])
  }

  /** All coded bits of a sequence of moves, before puncturing. */
  function Coded(c: Code, s: nat, ms: seq<Move>): (bits: seq<Bit>)
    requires s < c.NumStates()
    ensures |bits| == Times(c.N, |ms|)
  {
    if ms == [] then []
    else
      var front := ms[..|ms| - 1];
      Coded(c, s, front) + OutBits(c.N, Out(c, Run(c, s, front), ms[|ms| - 1]))
  }

  lemma {:induction false} RunAppend(c: Code, s: nat, a: seq<Move>, b: seq<Move>)
    requires s < c.NumStates()
    ensures Run(c, s, a + b) == Run(c, Run(c, s, a), b)
    decreases |b|
  {
    if b == [] {
      assert a + b == a;
    } else {
      assert (a + b)[..|a + b| - 1] == a + b[..|b| - 1];
      RunAppend(c, s, a, b[..|b| - 1]);
    }
  }

  lemma {:induction false} CodedAppend(c: Code, s: nat, a: seq<Move>, b: seq<Move>)
    requires s < c.NumStates()
    ensures Coded(c, s, a + b) == Coded(c, s, a) + Coded(c, Run(c, s, a), b)
    decreases |b|
  {
    if b == [] {
      assert a + b == a;
    } else {
      assert (a + b)[..|a + b| - 1] == a + b[..|b| - 1];
      CodedAppend(c, s, a, b[..|b| - 1]);
      RunAppend(c, s, a, b[..|b| - 1]);
    }
  }

  /** The moves of a message. */
  function DataMoves(msg: seq<Bit>): (ms: seq<Move>)
    ensures |ms| == |msg|
    ensures forall i :: 0 <= i < |msg| ==> ms[i] == Data(msg[i])
  {
    seq(|msg|, i requires 0 <= i < |msg| => Data(msg[i]))
  }

  function TailMoves(n: nat): (ms: seq<Move>)
    ensures |ms| == n
    ensures forall i :: 0 <= i < n ==> ms[i] == Tail
  {
    seq(n, i => Tail)
  }

  /** The moves of a whole block: the message, followed by the flush if the code has one. */
  function BlockMoves(c: Code, msg: seq<Bit>): (ms: seq<Move>)
    ensures |ms| == |msg| + (if c.term.Flush? then c.K - 1 else 0)
  {
    DataMoves(msg) + (if c.term.Flush? then TailMoves(c.K - 1) else [])
  }

  function FlushEnd(c: Code, s: nat): nat
    requires s < c.NumStates()
  {
    Run(c, s, TailMoves(c.K - 1))
  }

  /** The K-1 flush steps lead back to state 0 from everywhere. */
  ghost predicate FlushesToZero(c: Code)
  {
    forall s :: 0 <= s < c.NumStates() ==> FlushEnd(c, s) == 0
  }

  /** In every state the two data bits lead to different states. */
  ghost predicate SplitsStates(c: Code)
  {
    forall s :: 0 <= s < c.NumStates() ==> c.nextState[s][0] != c.nextState[s][1]
  }

  /** In every state the two data bits give different outputs. */
  ghost predicate SplitsOutputs(c: Code)
  {
    forall s :: 0 <= s < c.NumStates() ==> c.nextOutput[s][0] != c.nextOutput[s][1]
  }

  lemma {:induction false} SplitEqual<T>(a: seq<T>, b: seq<T>, a': seq<T>, b': seq<T>)
    requires |a| == |a'| && a + b == a' + b'
    ensures a == a' && b == b'
  {
    assert a == (a + b)[..|a|] && a' == (a' + b')[..|a'|];
    assert b == (a + b)[|a|..] && b' == (a' + b')[|a'|..];
  }

  /** The last output word of a data path. */
  lemma {:induction false} CodedLast(c: Code, s: nat, a: seq<Bit>) returns (t: nat)
    requires s < c.NumStates() && a != []
    ensures t == Run(c, s, DataMoves(a[..|a| - 1])) < c.NumStates()
    ensures Coded(c, s, DataMoves(a)) ==
            Coded(c, s, DataMoves(a[..|a| - 1])) + OutBits(c.N, Out(c, t, Data(a[|a| - 1])))
  {
    t := Run(c, s, DataMoves(a[..|a| - 1]));
    assert DataMoves(a)[..|a| - 1] == DataMoves(a[..|a| - 1]);
  }

  /** A code with two different outputs per state never maps two messages to one word. */
  lemma {:induction false} CodedInjective(c: Code, s: nat, a: seq<Bit>, b: seq<Bit>)
    requires s < c.NumStates() && SplitsOutputs(c)
    requires |a| == |b|
    requires Coded(c, s, DataMoves(a)) == Coded(c, s, DataMoves(b))
    ensures a == b
    decreases |a|
  {
    if a == [] {
    } else {
      var n := |a| - 1;
      var ta := CodedLast(c, s, a);
      var tb := CodedLast(c, s, b);
      SplitEqual(Coded(c, s, DataMoves(a[..n])), OutBits(c.N, Out(c, ta, Data(a[n]))),
                 Coded(c, s, DataMoves(b[..n])), OutBits(c.N, Out(c, tb, Data(b[n]))));
      CodedInjective(c, s, a[..n], b[..n]);
      OutBitsInjective(c.N, Out(c, ta, Data(a[n])), Out(c, tb, Data(b[n])));
      SameEnds(a, b);
    }
  }

  lemma {:induction false} SameEnds(a: seq<Bit>, b: seq<Bit>)
    requires |a| == |b| > 0 && a[..|a| - 1] == b[..|b| - 1] && a[|a| - 1] == b[|b| - 1]
    ensures a == b
  {
    assert a == a[..|a| - 1] + [a[|a| - 1]] && b == b[..|b| - 1] + [b[|b| - 1]];
  }

  // ---------------------------------------------------------------------------
  // Puncturing, stated by membership in the list

  /** The bits that survive puncturing when `bits[0]` has index `base`. */
  function Keep<T>(p: seq<int>, base: nat, bits: seq<T>): (kept: seq<T>)
    decreases |bits|
  {
    if bits == [] then []
    else
      var n := |bits| - 1;
      Keep(p, base, bits[..n]) + (if base + n in p then [] else [bits[n]])
  }

  /** How many of the n positions from `base` on are transmitted. */
  function Need(p: seq<int>, base: nat, n: nat): (k: nat)
    ensures k <= n
  {
    if n == 0 then 0 else Need(p, base, n - 1) + (if base + n - 1 in p then 0 else 1)
  }

  /** The receiver's inverse: n soft bits, 0 at every punctured index. */
  function Fill(p: seq<int>, base: nat, n: nat, input: seq<SBit>): (x: seq<SBit>)
    requires |input| >= Need(p, base, n)
    ensures |x| == n
  {
    if n == 0 then []
    else
      var x := if base + n - 1 in p then 0 else input[Need(p, base, n - 1)];
      Fill(p, base, n - 1, input) + [x]
  }

  lemma {:induction false} KeepLength<T>(p: seq<int>, base: nat, bits: seq<T>)
    ensures |Keep(p, base, bits)| == Need(p, base, |bits|)
    decreases |bits|
  {
    if bits == [] {
    } else {
      KeepLength(p, base, bits[..|bits| - 1]);
    }
  }

  lemma {:induction false} KeepAppend<T>(p: seq<int>, base: nat, a: seq<T>, b: seq<T>)
    ensures Keep(p, base, a + b) == Keep(p, base, a) + Keep(p, base + |a|, b)
    decreases |b|
  {
    if b == [] {
      assert a + b == a;
    } else {
      assert (a + b)[..|a + b| - 1] == a + b[..|b| - 1];
      KeepAppend(p, base, a, b[..|b| - 1]);
    }
  }

  lemma {:induction false} NeedAppend(p: seq<int>, base: nat, n: nat, m: nat)
    ensures Need(p, base, n + m) == Need(p, base, n) + Need(p, base + n, m)
    decreases m
  {
    if m == 0 {
    } else {
      NeedAppend(p, base, n, m - 1);
    }
  }

  /** One more of at most `m` positions. */
  lemma {:induction false} FillOne(p: seq<int>, base: nat, n: nat, m: nat, input: seq<SBit>)
    requires n < m && Need(p, base, m) <= |input|
    ensures Need(p, base, n) <= Need(p, base, n + 1) <= |input|
    ensures Need(p, base, n + 1) == Need(p, base, n) + if base + n in p then 0 else 1
    ensures Fill(p, base, n + 1, input) ==
            Fill(p, base, n, input) + [if base + n in p then 0 else input[Need(p, base, n)]]
  {
    NeedAppend(p, base, n + 1, m - n - 1);
  }

  lemma {:induction false} FillAppend(p: seq<int>, base: nat, n: nat, m: nat, input: seq<SBit>)
    requires |input| >= Need(p, base, n + m)
    ensures |input| >= Need(p, base, n) + Need(p, base + n, m)
    ensures Fill(p, base, n + m, input)
         == Fill(p, base, n, input) + Fill(p, base + n, m, input[Need(p, base, n)..])
    decreases m
  {
    NeedAppend(p, base, n, m);
    if m == 0 {
    } else {
      NeedAppend(p, base, n, m - 1);
      FillAppend(p, base, n, m - 1, input);
    }
  }

  /** Depuncturing what puncturing kept restores every kept position and zeroes the others. */
  lemma {:induction false} FillKeep(p: seq<int>, base: nat, x: seq<SBit>, i: nat)
    requires i < |x|
    ensures |Keep(p, base, x)| == Need(p, base, |x|)
    ensures Fill(p, base, |x|, Keep(p, base, x))[i] == if base + i in p then 0 else x[i]
    decreases |x|
  {
    var n := |x| - 1;
    var kept := Keep(p, base, x);
    KeepLength(p, base, x);
    KeepLength(p, base, x[..n]);
    FillPrefix(p, base, n, Keep(p, base, x[..n]), kept);
    if i == n {
    } else {
      FillKeep(p, base, x[..n], i);
    }
  }

  lemma {:induction false} FillPrefix(p: seq<int>, base: nat, n: nat, a: seq<SBit>, b: seq<SBit>)
    requires |a| >= Need(p, base, n) && a <= b
    ensures Fill(p, base, n, a) == Fill(p, base, n, b)
  {
    if n == 0 {
    } else {
      FillPrefix(p, base, n - 1, a, b);
    }
  }

  /** `k` entries of the list lie below `base`: the cursor `p_idx` of coder and decoder. */
  predicate At(p: seq<int>, k: nat, base: nat)
    requires PunctureList(p)
  {
    && k < |p|
    && (forall i :: 0 <= i < k ==> p[i] < base)
    && (forall i :: k <= i < |p| - 1 ==> p[i] >= base)
  }

  /** Comparing with the entry under the cursor decides membership in the whole list. */
  lemma AtDecides(p: seq<int>, k: nat, base: nat)
    requires PunctureList(p) && At(p, k, base)
    ensures p[k] == base <==> base in p
    ensures p[k] == base ==> At(p, k + 1, base + 1)
    ensures p[k] != base ==> At(p, k, base + 1)
  {
  }

  /** Positions passed, minus cursor advance, are the positions transmitted. */
  lemma {:induction false} NeedByCursor(p: seq<int>, base: nat, n: nat, k: nat, k': nat)
    requires PunctureList(p) && At(p, k, base) && At(p, k', base + n)
    ensures k <= k' && Need(p, base, n) + (k' - k) == n
    decreases n
  {
    if n == 0 {
      AtUnique(p, k, k', base);
    } else {
      AtDecides(p, k, base);
      var k1 := if p[k] == base then k + 1 else k;
      NeedByCursor(p, base + 1, n - 1, k1, k');
      NeedAppend(p, base, 1, n - 1);
      assert Need(p, base, 1) == Need(p, base, 0) + (if base in p then 0 else 1);
    }
  }

  lemma {:induction false} AtUnique(p: seq<int>, k: nat, k': nat, base: nat)
    requires PunctureList(p) && At(p, k, base) && At(p, k', base)
    ensures k == k'
  {
    var x, x' := p[k], p[k'];
  }
}
