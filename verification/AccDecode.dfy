/** The all-in-one accelerated decoder and `osmo_conv_decode`: what they return. */
module AccDecode {
  import opened Bits
  import opened SoftBits
  import opened ConvCode
  import opened ConvPoly
  import opened ConvEncoder
  import opened ConvDecode
  import opened NoiseFree
  import opened Viterbi
  import opened AccCode
  import opened AccSums
  import opened AccTrellis
  import opened AccDecoder
  import opened AccBest

  /** `depuncture`. */
  method Depuncture(input: seq<SBit>, punc: seq<int>, len: nat) returns (out: seq<SBit>)
    requires PunctureList(punc) && |input| >= Need(punc, 0, len)
    ensures out == Fill(punc, 0, len, input)
  {
    var n, m := 0, 0;
    out := [];
    for i := 0 to len
      invariant At(punc, n, i)
      invariant m == Need(punc, 0, i) <= Need(punc, 0, len)
      invariant out == Fill(punc, 0, i, input)
    {
      AtDecides(punc, n, i);
      NeedAppend(punc, 0, i + 1, len - i - 1);
      if i == punc[n] {
        out := out + [0];
        n := n + 1;
      } else {
        out := out + [input[m]];
        m := m + 1;
      }
    }
  }

  /** Amplitude `a` leaves room for the 16-bit sums of a whole block. */
  ghost predicate Fits(c: Code, a: nat)
    requires (c.K == 5 || c.K == 7) && 2 <= c.N <= 4
  {
    Room(c.K - 1, Interval(c.N, c.K), Times(a, c.N), Bonus(c), c.Steps())
  }

  // ---------------------------------------------------------------------------
  // The run

  /** From any state, one of the two successors has at least its sum. */
  lemma {:induction false} Climb(h: nat, ms: seq<seq<int>>, sums: seq<int>, j: nat, i: nat, p: nat) returns (r: nat)
    requires h > 0 && |sums| == 2 * h && Rows(h, ms) && j <= i <= |ms| && p < 2 * h
    ensures r < 2 * h && ExactSums(h, ms, sums, i)[r] >= ExactSums(h, ms, sums, j)[p]
    decreases i
  {
    if i == j {
      r := p;
    } else {
      var q := Climb(h, ms, sums, j, i - 1, p);
      r := ClimbOne(h, ms, sums, i, q);
    }
  }

  lemma {:induction false} ClimbOne(h: nat, ms: seq<seq<int>>, sums: seq<int>, i: nat, q: nat) returns (r: nat)
    requires h > 0 && |sums| == 2 * h && Rows(h, ms) && 1 <= i <= |ms| && q < 2 * h
    ensures r < 2 * h && ExactSums(h, ms, sums, i)[r] >= ExactSums(h, ms, sums, i - 1)[q]
  {
    var before := ExactSums(h, ms, sums, i - 1);
    r := ClimbFrom(h, before, ms[i - 1], q / 2, q % 2);
    assert q == 2 * (q / 2) + q % 2;
  }

  lemma {:induction false} ClimbFrom(h: nat, before: seq<int>, m: seq<int>, j: nat, b: Bit) returns (r: nat)
    requires h > 0 && |before| == 2 * h && |m| == h && j < h
    ensures r < 2 * h && Exact(h, before, m)[r] >= before[2 * j + b]
  {
    r := if (m[j] >= 0) == (b == 0) then j else j + h;
    assert Cand(h, before, m, r, b) >= before[2 * j + b];
    assert AcsSum(h, before, m, r) >= Cand(h, before, m, r, b);
  }

  /** The decisions of the 16-bit run are the exact ones, its sums differ from the exact ones by an offset,
      and some sum is not negative. */
  lemma {:induction false} Exactly(c: Code, x: seq<SBit>, a: nat) returns (off: int)
    requires Butterfly(c) && !c.term.TailBiting? && |x| == Times(c.N, c.Steps()) && Amplitude(x, a) && Fits(c, a)
    ensures Interval(c.N, c.K) > 0
    ensures var h, ms, n, t := H(c), MetricRows(c, x, c.Steps()), Interval(c.N, c.K), c.Steps();
            && ExactPaths(c, x, PathRows(h, ms, n, StartSums(c), t))
            && Selections(h, PathRows(h, ms, n, StartSums(c), t))
            && Tracks(KeptSums(h, ms, n, StartSums(c), t), ExactSums(h, ms, StartSums(c), t), off)
            && exists r :: 0 <= r < c.NumStates() && KeptSums(h, ms, n, StartSums(c), t)[r] >= 0
  {
    var h, ms, n, t := H(c), MetricRows(c, x, c.Steps()), Interval(c.N, c.K), c.Steps();
    var d, b := Times(a, c.N), Bonus(c);
    MetricsBound(c, x, t, a);
    StartSumsAre(c, 0);
    var rows := PathRows(h, ms, n, StartSums(c), t);
    forall i | 0 <= i < t
      ensures rows[i] == Paths(h, ExactSums(h, ms, StartSums(c), i), ms[i])
    {
      PathRowsAt(h, ms, n, StartSums(c), t, i);
      var o, j, kk := ExactRun(c.K - 1, h, ms, n, StartSums(c), d, b, i);
      SameDecisions(h, KeptSums(h, ms, n, StartSums(c), i), ExactSums(h, ms, StartSums(c), i), o, ms[i]);
    }
    RowsAreSelections(h, ms, n, StartSums(c), t);
    var j, kk;
    off, j, kk := ExactRun(c.K - 1, h, ms, n, StartSums(c), d, b, t);
    if t > 0 {
      var r := Climb(h, ms, StartSums(c), j, t, kk);
      assert KeptSums(h, ms, n, StartSums(c), t)[r] >= 0;
    } else {
      assert KeptSums(h, ms, n, StartSums(c), t)[0] >= 0;
    }
  }

  /** The block as the metric units see it: depunctured if the code is punctured. */
  method ReceivedBlock(c: Code, input: seq<SBit>) returns (x: seq<SBit>)
    requires |input| >= Need(c.Punctured(), 0, Times(c.N, c.Steps()))
    ensures x == Received(c, input)
  {
    TimesIsProduct(c.N, c.Steps());
    if c.puncture.Some? {
      x := Depuncture(input, c.puncture.value, c.Steps() * c.N);
    } else {
      NothingPunctured(Times(c.N, c.Steps()));
      NoPuncture(Times(c.N, c.Steps()), input);
      x := input[..c.Steps() * c.N];
    }
  }

  /** The end state of the traceback is best among the exact sums too. */
  lemma {:induction false} EndIsBest(c: Code, x: seq<SBit>, kept: seq<int>, off: int, end: nat)
    requires c.K >= 2 && |x| == Times(c.N, c.Steps()) && |kept| == c.NumStates() && end < c.NumStates()
    requires Tracks(kept, ExactSums(H(c), MetricRows(c, x, c.Steps()), StartSums(c), c.Steps()), off)
    requires forall r :: 0 <= r < c.NumStates() ==> kept[r] <= kept[end]
    ensures forall r :: 0 <= r < c.NumStates() ==>
               ExactSums(H(c), MetricRows(c, x, c.Steps()), StartSums(c), c.Steps())[r]
               <= ExactSums(H(c), MetricRows(c, x, c.Steps()), StartSums(c), c.Steps())[end]
  {
    var exact := ExactSums(H(c), MetricRows(c, x, c.Steps()), StartSums(c), c.Steps());
    forall r | 0 <= r < c.NumStates()
      ensures exact[r] <= exact[end]
    {
      assert kept[r] == exact[r] - off && kept[end] == exact[end] - off;
    }
  }

  /** The soft bits are weak enough for the 16-bit sums. */
  ghost predicate Gentle(c: Code, x: seq<SBit>)
    requires (c.K == 5 || c.K == 7) && 2 <= c.N <= 4
  {
    exists a: nat :: Amplitude(x, a) && Fits(c, a)
  }

  /** Rows of path selections are -1 or 0, whatever the sums are. */
  lemma {:induction false} RowsAreSelections(h: nat, ms: seq<seq<int>>, intrvl: nat, sums: seq<int>, t: nat)
    requires h > 0 && intrvl > 0 && |sums| == 2 * h && Rows(h, ms) && t <= |ms|
    ensures Selections(h, PathRows(h, ms, intrvl, sums, t))
  {
    var rows := PathRows(h, ms, intrvl, sums, t);
    forall i | 0 <= i < t
      ensures Selection(h, rows[i])
    {
      PathRowsAt(h, ms, intrvl, sums, t, i);
    }
  }

  /** What a forward recursion and a traceback found, if the soft bits were gentle. */
  lemma {:induction false} Found(c: Code, x: seq<SBit>, kept: seq<int>, paths: seq<seq<int>>, rc: int, end: nat)
    requires Butterfly(c) && !c.term.TailBiting? && |x| == Times(c.N, c.Steps()) && Gentle(c, x)
    requires Interval(c.N, c.K) > 0
    requires kept == KeptSums(H(c), MetricRows(c, x, c.Steps()), Interval(c.N, c.K), StartSums(c), c.Steps())
    requires paths == PathRows(H(c), MetricRows(c, x, c.Steps()), Interval(c.N, c.K), StartSums(c), c.Steps())
    requires rc == -EPROTO ==> forall r :: 0 <= r < |kept| ==> kept[r] < 0
    requires rc == 0 && !c.term.Flush? ==> end < |kept| && forall r :: 0 <= r < |kept| ==> kept[r] <= kept[end]
    requires rc == 0 && c.term.Flush? ==> end == 0
    ensures rc != -EPROTO
    ensures rc == 0 ==>
              && Selections(H(c), paths) && end < c.NumStates()
              && FoundBest(c, x, TraceMsg(c, TraceStates(H(c), paths, end))[..c.len])
  {
    var a: nat :| Amplitude(x, a) && Fits(c, a);
    var off := Exactly(c, x, a);
    if rc == 0 {
      if !c.term.Flush? {
        EndIsBest(c, x, kept, off, end);
      }
      var s := BestFound(c, x, paths, end);
    }
  }

  /** Forward recursion and traceback of an initialised decoder. */
  method Decode(dec: VDecoder, x: seq<SBit>) returns (rc: int, output: seq<Bit>)
    requires dec.Shape() && dec.Trellis() && Butterfly(dec.code) && !dec.code.term.TailBiting?
    requires |x| == Times(dec.code.N, dec.code.Steps())
    requires dec.sums[..] == StartSums(dec.code)
    modifies dec.sums, dec.paths
    ensures rc == 0 || rc == -EPROTO
    ensures dec.code.term.Flush? || Gentle(dec.code, x) ==> rc == 0
    ensures rc == 0 ==> |output| == dec.code.len
    ensures Gentle(dec.code, x) ==> FoundBest(dec.code, x, output)
  {
    ghost var c := dec.code;
    dec.ForwardTraverse(x);
    RowsAreSelections(H(c), MetricRows(c, x, c.Steps()), dec.intrvl, StartSums(c), c.Steps());
    ghost var end;
    rc, output, end := dec.Traceback();
    if Gentle(c, x) {
      Found(c, x, dec.sums[..], dec.paths[..], rc, end);
    }
  }

  /** `osmo_conv_decode_acc` on codes it is made for, flushed or truncated: a best message, as long as the
      soft bits are gentle. */
  method DecodeAcc(c: Code, input: seq<SBit>) returns (rc: int, output: seq<Bit>)
    requires Butterfly(c) && !c.term.TailBiting? && c.len >= 1
    requires |input| >= Need(c.Punctured(), 0, Times(c.N, c.Steps()))
    ensures rc == 0 || rc == -EPROTO
    ensures c.term.Flush? || Gentle(c, Received(c, input)) ==> rc == 0
    ensures rc == 0 ==> |output| == c.len
    ensures Gentle(c, Received(c, input)) ==> FoundBest(c, Received(c, input), output)
    ensures Amplitude(input, 118) ==> rc == 0 && FoundBest(c, Received(c, input), output)
    ensures Amplitude(input, Decisive(c)) ==> BestMessage(c, Received(c, input), output)
  {
    var dec := new VDecoder(c);
    rc := dec.GenerateTrellis();
    var x := ReceivedBlock(c, input);
    rc, output := Decode(dec, x);
    if Amplitude(input, 118) {
      FillAmplitude(c.Punctured(), Times(c.N, c.Steps()), input, 118);
      GentleAt118(c, x);
    }
    if Amplitude(input, Decisive(c)) {
      DecisiveStart(c, input, output);
    }
  }

  /** The largest amplitude at which the start bonus decides. */
  function Decisive(c: Code): nat {
    if c.K == 5 then 79 else 74
  }

  lemma {:induction false} DecisiveStart(c: Code, input: seq<SBit>, output: seq<Bit>)
    requires Butterfly(c) && |input| >= Need(c.Punctured(), 0, Times(c.N, c.Steps())) && Amplitude(input, Decisive(c))
    requires FoundBest(c, Received(c, input), output)
    ensures BestMessage(c, Received(c, input), output)
  {
    var x := Received(c, input);
    var s :| 0 <= s < c.NumStates() && Best(c, x, s, output);
    FillAmplitude(c.Punctured(), Times(c.N, c.Steps()), input, Decisive(c));
    BonusDecidesExactly(c, Decisive(c));
    StartsAtZero(c, x, s, output, Decisive(c));
  }

  lemma {:induction false} NothingPunctured(n: nat)
    ensures Need([-1], 0, n) == n
  {
    if n == 0 {
    } else {
      NothingPunctured(n - 1);
    }
  }

  /** Without puncturing the block is received as it is. */
  lemma {:induction false} NoPuncture(n: nat, input: seq<SBit>)
    requires |input| >= n
    ensures Need([-1], 0, n) == n && Fill([-1], 0, n, input) == input[..n]
  {
    NothingPunctured(n);
    if n == 0 {
    } else {
      NoPuncture(n - 1, input);
      NothingPunctured(n - 1);
    }
  }

  /** `osmo_conv_decode`: the accelerated decoder for N <= 4 and K = 5 or 7, the generic one otherwise. A rate-1
      code with such a K is refused. */
  method DecodeBlock(c: Code, input: seq<SBit>) returns (rc: int, output: seq<Bit>)
    requires !c.term.TailBiting? && |input| >= Need(c.Punctured(), 0, Times(c.N, c.Steps()))
    requires Accelerated(c) && 2 <= c.N && 1 <= c.len ==> Butterfly(c)
    requires !Accelerated(c) ==>
               SplitsStates(c) && (c.term.Flush? ==> FlushesToZero(c)) && 127 * Times(c.N, c.Steps()) < MAX_AE
    ensures Accelerated(c) && (c.N < 2 || c.len < 1) ==> rc == -EINVAL
    ensures Accelerated(c) && 2 <= c.N && 1 <= c.len ==>
              && (rc == 0 || rc == -EPROTO) && (c.term.Flush? ==> rc == 0) && (rc == 0 ==> |output| == c.len)
    ensures Accelerated(c) && 2 <= c.N && 1 <= c.len && Gentle(c, Received(c, input)) ==>
              && rc == 0 && |output| == c.len
              && exists s :: 0 <= s < c.NumStates() && Best(c, Received(c, input), s, output)
    ensures Accelerated(c) && 2 <= c.N && 1 <= c.len && Amplitude(input, Decisive(c)) ==>
              rc == 0 && |output| == c.len && BestMessage(c, Received(c, input), output)
    ensures !Accelerated(c) ==>
              |output| == c.len && rc == Distance(c, input, output) && Nearest(c, input, output)
  {
    if c.N <= 4 && (c.K == 5 || c.K == 7) {
      if c.N < 2 || c.len < 1 {
        return -EINVAL, [];
      }
      rc, output := DecodeAcc(c, input);
    } else {
      rc, output := DecodeGeneric(c, input);
    }
  }

  predicate Accelerated(c: Code) {
    c.N <= 4 && (c.K == 5 || c.K == 7)
  }

  // ---------------------------------------------------------------------------
  // Without noise

  /** The sent block correlates best; a block that correlates as well agrees with it wherever it was sent. */
  lemma {:induction false} SentCorrelatesBest(p: seq<int>, x: seq<SBit>, sent: seq<Bit>, other: seq<Bit>)
    requires AgreesBut(p, x, sent) && |other| == |sent|
    ensures Corr(x, other) <= Corr(x, sent)
    ensures Corr(x, other) == Corr(x, sent) ==>
              forall i :: 0 <= i < |sent| && i !in p ==> other[i] == sent[i]
    decreases |x|
  {
    if x == [] {
    } else {
      var n := |x| - 1;
      SentCorrelatesBest(p, x[..n], sent[..n], other[..n]);
    }
  }

  /** On a noise-free block the accelerated decoder finds the start state, and a message that encodes to what
      was sent. */
  lemma {:induction false} BestReencodes(c: Code, msg: seq<Bit>, input: seq<SBit>, s: nat, out: seq<Bit>)
    requires !c.term.TailBiting? && |msg| == |out| == c.len && s < c.NumStates() && c.K >= 1 && c.N >= 1
    requires AllAgree(input, Encoded(c, msg))
    requires |input| >= Need(c.Punctured(), 0, Times(c.N, c.Steps())) && Best(c, Received(c, input), s, out)
    ensures s == 0 && Encoded(c, out) == Encoded(c, msg)
    ensures forall i :: 0 <= i < |Word(c, msg)| && i !in c.Punctured() ==> Word(c, out)[i] == Word(c, msg)[i]
  {
    var p, x := c.Punctured(), Received(c, input);
    FillAgrees(p, Word(c, msg), input);
    BonusPositive(c);
    assert Score(c, x, 0, msg) <= Score(c, x, s, out);
    SentCorrelatesBest(p, x, Word(c, msg), Coded(c, s, BlockMoves(c, out)));
    assert s == 0;
    KeepSame(p, Word(c, out), Word(c, msg));
  }

  lemma {:induction false} BonusPositive(c: Code)
    ensures Bonus(c) > 0
  {
    assert Times(127, c.N) == Times(127, c.N - 1) + 127;
    assert Bonus(c) == Times(Times(127, c.N), c.K - 1) + Times(127, c.N);
  }

  /** Without puncturing the accelerated decoder returns the message itself. */
  lemma {:induction false} AccInvertsEncode(c: Code, msg: seq<Bit>, input: seq<SBit>, s: nat, out: seq<Bit>)
    requires !c.term.TailBiting? && |msg| == |out| == c.len && s < c.NumStates()
    requires c.Punctured() == [-1] && SplitsOutputs(c)
    requires AllAgree(input, Encoded(c, msg))
    requires |input| >= Need(c.Punctured(), 0, Times(c.N, c.Steps())) && Best(c, Received(c, input), s, out)
    ensures out == msg
  {
    BestReencodes(c, msg, input, s, out);
    assert Word(c, out) == Word(c, msg);
    WordInjective(c, msg, out);
  }

  // ---------------------------------------------------------------------------
  // Amplitudes that fit

  /** Amplitude 118 leaves room for every store of all six supported code shapes, at any length. */
  lemma {:induction false} Amplitude118(n: nat, k: nat)
    requires 2 <= n <= 4 && (k == 5 || k == 7)
    ensures FullRoom(k - 1, Interval(n, k), Times(118, n), Times(Times(127, n), k))
  {
    var d := Times(118, n);
    TimesIsProduct(118, n);
    TimesIsProduct(127, n);
    TimesIsProduct(Times(127, n), k);
    TimesIsProduct(d, Interval(n, k) + 1);
    TimesIsProduct(d, Interval(n, k));
    TimesIsProduct(d, k - 1);
  }

  lemma {:induction false} GentleAt118(c: Code, x: seq<SBit>)
    requires Butterfly(c) && Amplitude(x, 118)
    ensures Gentle(c, x)
  {
    Amplitude118(c.N, c.K);
    FullRoomIsRoom(c.K - 1, Interval(c.N, c.K), Times(118, c.N), Bonus(c), c.Steps());
    assert Fits(c, 118);
  }

  lemma {:induction false} FillAmplitude(p: seq<int>, n: nat, input: seq<SBit>, a: nat)
    requires Need(p, 0, n) <= |input| && Amplitude(input, a)
    ensures Amplitude(Fill(p, 0, n, input), a)
  {
    if n == 0 {
    } else {
      NeedAppend(p, 0, n - 1, 1);
      FillAmplitude(p, n - 1, input, a);
    }
  }

  /** The new sums of a column fit into 16 bits before they are stored. */
  ghost predicate StoresFit(h: nat, sums: seq<int>, metrics: seq<int>)
    requires h > 0 && |sums| == 2 * h && |metrics| == h
  {
    forall r :: 0 <= r < 2 * h ==> 0 <= AcsSum(h, sums, metrics, r) <= 32767
  }

  /** With soft bits up to 118 no store of a decoder's path sums wraps around, in any column of a block of any
      length. */
  lemma {:induction false} DecoderStoresFit(dec: VDecoder, x: seq<SBit>, i: nat)
    requires dec.Shape() && Butterfly(dec.code) && |x| == Times(dec.code.N, dec.len) && i < dec.len && Amplitude(x, 118)
    requires dec.sums[..] ==
             KeptSums(H(dec.code), MetricRows(dec.code, x, dec.len), dec.intrvl, StartSums(dec.code), i)
    ensures StoresFit(H(dec.code), dec.sums[..], MetricRows(dec.code, x, dec.len)[i])
  {
    var c, ms := dec.code, MetricRows(dec.code, x, dec.len);
    Amplitude118(c.N, c.K);
    MetricsBound(c, x, dec.len, 118);
    assert Within(StartSums(c), 0, Bonus(c));
    forall r | 0 <= r < 2 * H(c)
      ensures 0 <= AcsSum(H(c), dec.sums[..], ms[i], r) <= 32767
    {
      NoOverflow(c.K - 1, H(c), ms, dec.intrvl, StartSums(c), Times(118, c.N), Bonus(c), i, r);
    }
  }

  /** Full amplitude 127 keeps all decisions exact for blocks up to this length, and for longer ones the bound
      does not decide. */
  function FullAmplitudeSteps(n: nat, k: nat): int {
    2 * Interval(n, k) - k + 3
  }

  lemma FullAmplitudeLengths()
    ensures FullAmplitudeSteps(2, 5) == 246 && FullAmplitudeSteps(2, 7) == 240
    ensures FullAmplitudeSteps(3, 5) == 160 && FullAmplitudeSteps(3, 7) == 154
    ensures FullAmplitudeSteps(4, 5) == 116 && FullAmplitudeSteps(4, 7) == 110
  {
  }

  /** Full amplitude leaves room exactly up to that length, for each of the six shapes. */
  lemma {:induction false} FullAmplitudeFits(c: Code)
    requires (c.K == 5 || c.K == 7) && 2 <= c.N <= 4
    ensures Fits(c, 127) <==> c.Steps() <= FullAmplitudeSteps(c.N, c.K)
  {
    var t, i := c.Steps(), Interval(c.N, c.K);
    ShapeRoom(c, t);
    if t > i {
      SixShapes(c.N, c.K, Lesser(i - 1, t - 1 - i));
      TimesIsProduct(Times(127, c.N), Lesser(i - 1, t - 1 - i));
    }
  }

  /** The products in the room conditions of full amplitude. */
  lemma {:induction false} ShapeRoom(c: Code, t: nat)
    requires (c.K == 5 || c.K == 7) && 2 <= c.N <= 4
    ensures Times(127, c.N) == 127 * c.N && Times(Times(127, c.N), c.K - 1) == 127 * c.N * (c.K - 1)
    ensures Bonus(c) + Times(Times(127, c.N), Lesser(Interval(c.N, c.K), t)) <= 32767
  {
    var d, i := Times(127, c.N), Interval(c.N, c.K);
    TimesIsProduct(127, c.N);
    TimesIsProduct(d, c.K - 1);
    BonusIsProduct(c);
    TimesMono(d, Lesser(i, t), i);
    TimesIsProduct(d, i);
    SixShapes(c.N, c.K, 0);
  }

  /** The arithmetic of the second room condition. */
  lemma SixShapes(n: nat, k: nat, u: nat)
    requires (k == 5 || k == 7) && 2 <= n <= 4
    ensures 127 * n * (k + Interval(n, k)) <= 32767
    ensures 2 * (127 * n * (k - 1)) + 127 * n * u <= 32767 <==> u <= Interval(n, k) - k + 2
  {
  }
}
