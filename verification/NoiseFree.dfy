/** Soft bits whose signs are right: the receiver's view of a block when there is no noise. */
module NoiseFree {
  import opened Bits
  import opened SoftBits
  import opened ConvCode
  import opened ConvEncoder
  import opened Viterbi
  import opened ConvDecode

  /** The soft bit is on the side of `b`, with any amplitude. */
  predicate Agrees(x: SBit, b: Bit) {
    if b == 0 then x > 0 else x < 0
  }

  /** Every soft bit is right. */
  ghost predicate AllAgree(x: seq<SBit>, bits: seq<Bit>) {
    |x| == |bits| && forall i :: 0 <= i < |x| ==> Agrees(x[i], bits[i])
  }

  /** Right or, exactly at the punctured positions, unknown. */
  ghost predicate AgreesBut(p: seq<int>, x: seq<SBit>, bits: seq<Bit>) {
    |x| == |bits| && forall i :: 0 <= i < |x| ==> if i in p then x[i] == 0 else Agrees(x[i], bits[i])
  }

  /** Depuncturing a right block gives a right block, unknown exactly where it was punctured. */
  lemma {:induction false} FillAgrees(p: seq<int>, bits: seq<Bit>, input: seq<SBit>)
    requires AllAgree(input, Keep(p, 0, bits))
    ensures |input| == Need(p, 0, |bits|)
    ensures AgreesBut(p, Fill(p, 0, |bits|, input), bits)
    decreases |bits|
  {
    KeepLength(p, 0, bits);
    if bits == [] {
    } else {
      var n := |bits| - 1;
      var front := Keep(p, 0, bits[..n]);
      KeepLength(p, 0, bits[..n]);
      FillAgrees(p, bits[..n], input[..|front|]);
      FillPrefix(p, 0, n, input[..|front|], input);
    }
  }

  /** A mismatch costs strictly more than a match, at every amplitude. */
  lemma {:induction false} ErrSign(x: SBit, b: Bit)
    requires Agrees(x, b)
    ensures Err(x, b) < Err(x, 1 - b)
  {
    var y: int := x;
    var a := if y < 0 then -y else y;
    assert (a + 127) * (a + 127) == (a - 127) * (a - 127) + 508 * a;
    var near := (a - 127) * (a - 127);
    assert y < 0 ==> (y + 127) * (y + 127) == near && (y - 127) * (y - 127) == (a + 127) * (a + 127);
    assert a == 1 ==> near == 15876;
  }

  /** The sent block is nearest; a block at the same distance agrees with it wherever it was sent. */
  lemma {:induction false} SentIsNearest(p: seq<int>, x: seq<SBit>, sent: seq<Bit>, other: seq<Bit>)
    requires AgreesBut(p, x, sent) && |other| == |sent|
    ensures BlockErr(x, sent) <= BlockErr(x, other)
    ensures BlockErr(x, sent) == BlockErr(x, other) ==>
              forall i :: 0 <= i < |sent| && i !in p ==> other[i] == sent[i]
    decreases |x|
  {
    if x == [] {
    } else {
      var n := |x| - 1;
      SentIsNearest(p, x[..n], sent[..n], other[..n]);
      if n !in p {
        ErrSign(x[n], sent[n]);
      }
    }
  }

  /** Full-amplitude soft bits are at distance 0 from the block they were made of. */
  lemma {:induction false} FullAmplitude(p: seq<int>, x: seq<SBit>, sent: seq<Bit>)
    requires AgreesBut(p, x, sent)
    requires forall i :: 0 <= i < |x| && x[i] != 0 ==> x[i] == 127 || x[i] == -127
    ensures BlockErr(x, sent) == 0
    decreases |x|
  {
    if x == [] {
    } else {
      FullAmplitude(p, x[..|x| - 1], sent[..|x| - 1]);
    }
  }

  lemma {:induction false} KeepSame(p: seq<int>, a: seq<Bit>, b: seq<Bit>)
    requires |a| == |b| && forall i :: 0 <= i < |a| && i !in p ==> a[i] == b[i]
    ensures Keep(p, 0, a) == Keep(p, 0, b)
    decreases |a|
  {
    if a == [] {
    } else {
      KeepSame(p, a[..|a| - 1], b[..|a| - 1]);
    }
  }

  /** Any nearest message to a noise-free block encodes to the block that was sent. */
  lemma {:induction false} NearestReencodes(c: Code, msg: seq<Bit>, input: seq<SBit>, out: seq<Bit>)
    requires !c.term.TailBiting? && |msg| == |out| == c.len
    requires AllAgree(input, Encoded(c, msg))
    requires |input| >= Need(c.Punctured(), 0, Times(c.N, c.Steps())) && Nearest(c, input, out)
    ensures Encoded(c, out) == Encoded(c, msg)
    ensures forall i :: 0 <= i < |Word(c, msg)| && i !in c.Punctured() ==> Word(c, out)[i] == Word(c, msg)[i]
  {
    var p := c.Punctured();
    FillAgrees(p, Word(c, msg), input);
    assert Distance(c, input, out) <= Distance(c, input, msg);
    SentIsNearest(p, Received(c, input), Word(c, msg), Word(c, out));
    KeepSame(p, Word(c, out), Word(c, msg));
  }

  /** Without puncturing, and with two different outputs per state, the message itself comes back. */
  lemma {:induction false} DecodeInvertsEncode(c: Code, msg: seq<Bit>, input: seq<SBit>, out: seq<Bit>)
    requires !c.term.TailBiting? && |msg| == |out| == c.len
    requires c.Punctured() == [-1] && SplitsOutputs(c)
    requires AllAgree(input, Encoded(c, msg))
    requires |input| >= Need(c.Punctured(), 0, Times(c.N, c.Steps())) && Nearest(c, input, out)
    ensures out == msg
  {
    NearestReencodes(c, msg, input, out);
    assert Word(c, out) == Word(c, msg);
    WordInjective(c, msg, out);
  }

  lemma {:induction false} WordInjective(c: Code, msg: seq<Bit>, out: seq<Bit>)
    requires |msg| == |out| == c.len && SplitsOutputs(c) && Word(c, out) == Word(c, msg)
    ensures out == msg
  {
    var a, b := DataMoves(msg), DataMoves(out);
    var t := if c.term.Flush? then TailMoves(c.K - 1) else [];
    CodedAppend(c, 0, a, t);
    CodedAppend(c, 0, b, t);
    SplitEqual(Coded(c, 0, a), Coded(c, Run(c, 0, a), t), Coded(c, 0, b), Coded(c, Run(c, 0, b), t));
    CodedInjective(c, 0, msg, out);
  }

  /** Full-amplitude input: the generic decoder returns error 0. */
  lemma {:induction false} FullAmplitudeErrorZero(c: Code, msg: seq<Bit>, input: seq<SBit>, out: seq<Bit>)
    requires !c.term.TailBiting? && |msg| == |out| == c.len
    requires AllAgree(input, Encoded(c, msg)) && forall i :: 0 <= i < |input| ==> input[i] == 127 || input[i] == -127
    requires |input| >= Need(c.Punctured(), 0, Times(c.N, c.Steps())) && Nearest(c, input, out)
    ensures Distance(c, input, out) == 0
  {
    var p := c.Punctured();
    FillAgrees(p, Word(c, msg), input);
    FillFull(p, Times(c.N, c.Steps()), input);
    FullAmplitude(p, Received(c, input), Word(c, msg));
    assert Distance(c, input, out) <= Distance(c, input, msg);
  }

  lemma {:induction false} FillFull(p: seq<int>, n: nat, input: seq<SBit>)
    requires |input| >= Need(p, 0, n)
    requires forall i :: 0 <= i < |input| ==> input[i] == 127 || input[i] == -127
    ensures forall i :: 0 <= i < n && Fill(p, 0, n, input)[i] != 0 ==>
              Fill(p, 0, n, input)[i] == 127 || Fill(p, 0, n, input)[i] == -127
  {
    if n == 0 {
    } else {
      FillFull(p, n - 1, input);
    }
  }

  // ---------------------------------------------------------------------------
  // Encoder and generic decoder one after the other

  /** Soft bits of amplitude `a` for a block. */
  function Soft(bits: seq<Bit>, a: int): (x: seq<SBit>)
    requires 1 <= a <= 127
    ensures |x| == |bits| && AllAgree(x, bits) && forall i :: 0 <= i < |x| ==> x[i] == a || x[i] == -a
  {
    seq<SBit>(|bits|, i requires 0 <= i < |bits| => if bits[i] == 0 then a else -a)
  }

  /** Every message of a flushed or truncated code, encoded and decoded at full amplitude by the generic decoder: error
      0 and a message that encodes to the same block; without puncturing, and with two different outputs per state,
      the message itself. */
  method GenericRoundTrip(c: Code, msg: seq<Bit>) returns (rv: int, out: seq<Bit>)
    requires !c.term.TailBiting? && |msg| == c.len && SplitsStates(c) && (c.term.Flush? ==> FlushesToZero(c))
    requires 127 * Times(c.N, c.Steps()) < MAX_AE
    ensures rv == 0 && |out| == c.len && Encoded(c, out) == Encoded(c, msg)
    ensures c.Punctured() == [-1] && SplitsOutputs(c) ==> out == msg
  {
    var sent := Encode(c, msg);
    assert msg[..c.len] == msg;
    var input := Soft(sent, 127);
    KeepLength(c.Punctured(), 0, Word(c, msg));
    rv, out := DecodeGeneric(c, input);
    NearestReencodes(c, msg, input, out);
    FullAmplitudeErrorZero(c, msg, input, out);
    if c.Punctured() == [-1] && SplitsOutputs(c) {
      DecodeInvertsEncode(c, msg, input, out);
    }
  }
}
