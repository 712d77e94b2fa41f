/** The all-in-one generic decoder, what its answer means, and why it undoes the encoder. */
module ConvDecode {
  import opened Bits
  import opened SoftBits
  import opened ConvCode
  import opened ConvEncoder
  import opened Viterbi
  import opened ConvDecoder

  /** The received block, with unknown bits at the punctured positions. */
  function Received(c: Code, input: seq<SBit>): (x: seq<SBit>)
    requires |input| >= Need(c.Punctured(), 0, Times(c.N, c.Steps()))
    ensures |x| == Times(c.N, c.Steps())
  {
    Fill(c.Punctured(), 0, Times(c.N, c.Steps()), input)
  }

  /** The coded block of a message sent from state 0, before puncturing. */
  function Word(c: Code, msg: seq<Bit>): (w: seq<Bit>)
    requires |msg| == c.len
    ensures |w| == Times(c.N, c.Steps())
  {
    Coded(c, 0, BlockMoves(c, msg))
  }

  /** Distance between the received block and a message. */
  function Distance(c: Code, input: seq<SBit>, msg: seq<Bit>): nat
    requires |input| >= Need(c.Punctured(), 0, Times(c.N, c.Steps())) && |msg| == c.len
  {
    BlockErr(Received(c, input), Word(c, msg))
  }

  /** `msg` is a nearest message. */
  ghost predicate Nearest(c: Code, input: seq<SBit>, msg: seq<Bit>)
    requires |input| >= Need(c.Punctured(), 0, Times(c.N, c.Steps())) && |msg| == c.len
  {
    forall other: seq<Bit> :: |other| == c.len ==> Distance(c, input, msg) <= Distance(c, input, other)
  }

  /** No message correlates better with the received block than `msg` does, but for the rounding of the errors: two per
      soft bit that tells the two apart. */
  ghost predicate NearlyBest(c: Code, input: seq<SBit>, msg: seq<Bit>)
    requires |input| >= Need(c.Punctured(), 0, Times(c.N, c.Steps())) && |msg| == c.len
  {
    var x := Received(c, input);
    forall other: seq<Bit> :: |other| == c.len ==>
      Corr(x, Word(c, other)) <= Corr(x, Word(c, msg)) + 2 * Differ(x, Word(c, other), Word(c, msg))
  }

  /** No message is closer in squared distance, but for less than the scale per soft bit. */
  ghost predicate NearlyClosest(c: Code, input: seq<SBit>, msg: seq<Bit>)
    requires |input| >= Need(c.Punctured(), 0, Times(c.N, c.Steps())) && |msg| == c.len
  {
    var x := Received(c, input);
    forall other: seq<Bit> :: |other| == c.len ==>
      Squares(x, Word(c, msg)) <= Squares(x, Word(c, other)) + 511 * Known(x)
  }

  /** What a nearest message is, stated without the scaled errors. */
  lemma {:induction false} NearestMeans(c: Code, input: seq<SBit>, msg: seq<Bit>)
    requires |input| >= Need(c.Punctured(), 0, Times(c.N, c.Steps())) && |msg| == c.len && Nearest(c, input, msg)
    ensures NearlyBest(c, input, msg) && NearlyClosest(c, input, msg)
    ensures var x := Received(c, input);
            512 * Distance(c, input, msg) <= Squares(x, Word(c, msg)) <= 512 * Distance(c, input, msg) + 511 * Known(x)
  {
    var x, w := Received(c, input), Word(c, msg);
    ErrorIsRounded(x, w);
    forall other: seq<Bit> | |other| == c.len
      ensures Corr(x, Word(c, other)) <= Corr(x, w) + 2 * Differ(x, Word(c, other), w)
      ensures Squares(x, w) <= Squares(x, Word(c, other)) + 511 * Known(x)
    {
      assert Distance(c, input, msg) <= Distance(c, input, other);
      CorrTracksErr(x, Word(c, other), w);
      ErrorIsRounded(x, Word(c, other));
    }
  }

  /** Every column a block needs, data first, has been scanned from state 0. */
  ghost predicate WholeBlock(c: Code, steps: seq<Step>, aes: seq<seq<nat>>, hist: seq<seq<nat>>, input: seq<SBit>) {
    && |input| >= Need(c.Punctured(), 0, Times(c.N, c.Steps()))
    && Chain(c, steps, aes, hist)
    && |steps| == c.Steps()
    && aes[0] == InitialErr(c, 0)
    && (forall i :: 0 <= i < |steps| ==> steps[i].tail == (i >= c.len))
    && Flat(steps) == Received(c, input)
  }

  /** `osmo_conv_decode` without the dispatch to the accelerated decoder, for flushed and truncated codes:
      a nearest message, and its distance. */
  method DecodeGeneric(c: Code, input: seq<SBit>) returns (rv: int, output: seq<Bit>)
    requires !c.term.TailBiting? && SplitsStates(c) && (c.term.Flush? ==> FlushesToZero(c))
    requires |input| >= Need(c.Punctured(), 0, Times(c.N, c.Steps()))
    requires 127 * Times(c.N, c.Steps()) < MAX_AE
    ensures |output| == c.len
    ensures rv == Distance(c, input, output) && Nearest(c, input, output)
    ensures NearlyBest(c, input, output) && NearlyClosest(c, input, output)
    ensures var x := Received(c, input);
            512 * rv <= Squares(x, Word(c, output)) <= 512 * rv + 511 * Known(x)
  {
    var decoder := new Decoder(c, 0, 0);
    ScanBlock(decoder, input);
    ghost var steps, aes, hist := decoder.steps, decoder.aes, decoder.stateHistory[..decoder.oIdx];
    EndReached(c, steps, aes, hist, input);
    ghost var end;
    rv, output, end := decoder.GetOutput(c.term == Term.Flush, -1);
    NearestFound(c, steps, aes, hist, input, output, rv, end);
    NearestMeans(c, input, output);
  }

  /** Scans all columns of a block. */
  method ScanBlock(decoder: Decoder, input: seq<SBit>)
    requires decoder.Valid() && decoder.oIdx == 0 && decoder.steps == [] && decoder.len == decoder.code.len
    requires decoder.aes == [InitialErr(decoder.code, 0)]
    requires |input| >= Need(decoder.code.Punctured(), 0, Times(decoder.code.N, decoder.code.Steps()))
    modifies decoder, decoder.ae, decoder.aeNext, decoder.stateHistory
    ensures decoder.Valid() && decoder.oIdx == decoder.code.Steps()
    ensures WholeBlock(decoder.code, decoder.steps, decoder.aes, decoder.stateHistory[..decoder.oIdx], input)
  {
    SplitInput(decoder.code, input);
    var l := decoder.Scan(input, decoder.code.len);
    ghost var data := decoder.steps;
    if decoder.code.term == Term.Flush {
      var l' := decoder.Flush(input[l..]);
      JoinSteps(decoder.code, data, decoder.steps, input);
    } else {
      assert data[0..] == data;
    }
  }

  /** The input holds the soft bits of the data columns, then those of the flush columns. */
  lemma {:induction false} SplitInput(c: Code, input: seq<SBit>)
    requires |input| >= Need(c.Punctured(), 0, Times(c.N, c.Steps()))
    ensures var p, l := c.Punctured(), Need(c.Punctured(), 0, Times(c.N, c.len));
            && l <= |input|
            && (c.term.Flush? ==>
                  && Need(p, Times(c.N, c.len), Times(c.N, c.K - 1)) <= |input| - l
                  && Received(c, input) == Fill(p, 0, Times(c.N, c.len), input)
                                         + Fill(p, Times(c.N, c.len), Times(c.N, c.K - 1), input[l..]))
  {
    if c.term.Flush? {
      SplitFill(c.Punctured(), c.N, c.len, c.K - 1, input);
    }
  }

  lemma {:induction false} SplitFill(p: seq<int>, n: nat, m: nat, k: nat, input: seq<SBit>)
    requires |input| >= Need(p, 0, Times(n, m + k))
    ensures Times(n, m + k) == Times(n, m) + Times(n, k)
    ensures Need(p, 0, Times(n, m)) + Need(p, Times(n, m), Times(n, k)) <= |input|
    ensures Fill(p, 0, Times(n, m + k), input)
         == Fill(p, 0, Times(n, m), input) + Fill(p, Times(n, m), Times(n, k), input[Need(p, 0, Times(n, m))..])
  {
    TimesAdd(n, m, k);
    NeedAppend(p, 0, Times(n, m), Times(n, k));
    FillAppend(p, 0, Times(n, m), Times(n, k), input);
  }

  lemma {:induction false} JoinSteps(c: Code, data: seq<Step>, steps: seq<Step>, input: seq<SBit>)
    requires c.term.Flush? && |input| >= Need(c.Punctured(), 0, Times(c.N, c.Steps()))
    requires Scanned(c, 0, [], data, false, c.len, input)
    requires Scanned(c, c.len, data, steps, true, c.K - 1, input[Need(c.Punctured(), 0, Times(c.N, c.len))..])
    ensures Flat(steps) == Received(c, input)
    ensures forall i :: 0 <= i < |steps| ==> steps[i].tail == (i >= c.len)
  {
    SplitInput(c, input);
    assert data[0..] == data;
    assert steps == data + steps[|data|..];
    FlatAppend(data, steps[|data|..]);
    forall i | 0 <= i < |data|
      ensures !steps[i].tail
    {
      assert steps[i] == data[i];
    }
  }

  lemma MessagePath(c: Code, steps: seq<Step>, msg: seq<Bit>)
    requires |steps| == c.Steps() && |msg| == c.len
    requires forall i :: 0 <= i < |steps| ==> steps[i].tail == (i >= c.len)
    ensures Through(steps, BlockMoves(c, msg))
  {
  }

  /** The error of a message's path is its distance, and too small to saturate. */
  lemma {:induction false} MessageErr(c: Code, steps: seq<Step>, aes: seq<seq<nat>>, hist: seq<seq<nat>>,
                                      input: seq<SBit>, msg: seq<Bit>)
    requires WholeBlock(c, steps, aes, hist, input) && |msg| == c.len
    ensures Through(steps, BlockMoves(c, msg)) && Fit(c, steps) && |aes[|steps|]| == c.NumStates()
    ensures PathErr(c, 0, steps, BlockMoves(c, msg)) == Distance(c, input, msg) <= 127 * Times(c.N, c.Steps())
    ensures aes[|steps|][Run(c, 0, BlockMoves(c, msg))] <= Distance(c, input, msg)
  {
    MessagePath(c, steps, msg);
    ChainLeast(c, steps, aes, hist, 0, BlockMoves(c, msg));
    PathErrIsBlockErr(c, 0, steps, BlockMoves(c, msg));
    BlockErrBound(Received(c, input), Word(c, msg));
  }

  /** A flushed message ends in state 0. */
  lemma {:induction false} FlushedEnd(c: Code, msg: seq<Bit>)
    requires c.term.Flush? && FlushesToZero(c)
    ensures Run(c, 0, BlockMoves(c, msg)) == 0
  {
    RunAppend(c, 0, DataMoves(msg), TailMoves(c.K - 1));
    assert FlushEnd(c, Run(c, 0, DataMoves(msg))) == 0;
  }

  /** Some end state, for flushed codes state 0, is reached without saturation. */
  lemma {:induction false} EndReached(c: Code, steps: seq<Step>, aes: seq<seq<nat>>, hist: seq<seq<nat>>,
                                      input: seq<SBit>)
    requires WholeBlock(c, steps, aes, hist, input) && 127 * Times(c.N, c.Steps()) < MAX_AE
    requires c.term.Flush? ==> FlushesToZero(c)
    ensures |aes[|steps|]| == c.NumStates()
    ensures c.term.Flush? ==> aes[|steps|][0] < MAX_AE
    ensures exists s :: 0 <= s < c.NumStates() && aes[|steps|][s] < MAX_AE
  {
    var msg := seq(c.len, i => 0 as Bit);
    MessageErr(c, steps, aes, hist, input, msg);
    if c.term.Flush? {
      FlushedEnd(c, msg);
    }
    var t := Run(c, 0, BlockMoves(c, msg));
    assert aes[|steps|][t] < MAX_AE;
  }

  lemma {:induction false} NearestFound(c: Code, steps: seq<Step>, aes: seq<seq<nat>>, hist: seq<seq<nat>>,
                                        input: seq<SBit>, output: seq<Bit>, rv: int, end: nat)
    requires WholeBlock(c, steps, aes, hist, input) && Fit(c, steps) && !c.term.TailBiting?
    requires |output| == c.len && end < c.NumStates() && |aes[|steps|]| == c.NumStates()
    requires 0 <= rv == aes[|steps|][end] < MAX_AE
    requires exists s :: Explains(c, steps, aes[0], s, output, c.term.Flush?, end, rv)
    requires if c.term.Flush? then end == 0 && FlushesToZero(c)
             else forall s :: 0 <= s < c.NumStates() ==> rv <= aes[|steps|][s]
    ensures rv == Distance(c, input, output) && Nearest(c, input, output)
  {
    var s :| Explains(c, steps, aes[0], s, output, c.term.Flush?, end, rv);
    assert s == 0;
    assert Moves(c, output, c.term.Flush?) == BlockMoves(c, output);
    MessageErr(c, steps, aes, hist, input, output);
    forall other: seq<Bit> | |other| == c.len
      ensures rv <= Distance(c, input, other)
    {
      MessageErr(c, steps, aes, hist, input, other);
      if c.term.Flush? {
        FlushedEnd(c, other);
      }
    }
  }
}
