/** The streaming convolutional encoder of src/core/conv.c. */
module ConvEncoder {
  import opened Bits
  import opened ConvCode

  /** What the encoder sends for moves `ms` that start at trellis step `base` in state `s`. */
  function Emitted(c: Code, base: nat, s: nat, ms: seq<Move>): (bits: seq<Bit>)
    requires s < c.NumStates()
  {
    Keep(c.Punctured(), Times(c.N, base), Coded(c, s, ms))
  }

  /** The bits of trellis step `base` alone. */
  function Sent(c: Code, base: nat, s: nat, m: Move): seq<Bit>
    requires s < c.NumStates()
  {
    Keep(c.Punctured(), Times(c.N, base), OutBits(c.N, Out(c, s, m)))
  }

  lemma {:induction false} KeepOne(p: seq<int>, base: nat, bits: seq<Bit>, j: nat)
    requires j < |bits|
    ensures Keep(p, base, bits[..j + 1]) == Keep(p, base, bits[..j]) + if base + j in p then [] else [bits[j]]
  {
    assert bits[..j + 1][..j] == bits[..j];
  }

  /** Encoding in two chunks is encoding at once: state, indices and puncture cursor carry over. */
  lemma {:induction false} EmittedAppend(c: Code, base: nat, s: nat, a: seq<Move>, b: seq<Move>)
    requires s < c.NumStates()
    ensures Emitted(c, base, s, a + b)
         == Emitted(c, base, s, a) + Emitted(c, base + |a|, Run(c, s, a), b)
  {
    CodedAppend(c, s, a, b);
    KeepAppend(c.Punctured(), Times(c.N, base), Coded(c, s, a), Coded(c, Run(c, s, a), b));
    TimesAdd(c.N, base, |a|);
  }

  /** The register value `osmo_conv_encode_load_state` builds from K-1 bits. */
  function Loaded(bits: seq<Bit>): (s: nat)
    ensures s < Pow2(|bits|)
  {
    if bits == [] then 0 else 2 * Loaded(bits[..|bits| - 1]) + bits[|bits| - 1]
  }

  /** `struct osmo_conv_encoder` and the operations on it. */
  class Encoder {
    const code: Code
    var iIdx: nat
    var pIdx: nat
    var state: nat

    ghost predicate Valid()
      reads this
    {
      && state < code.NumStates()
      && At(code.Punctured(), pIdx, Times(code.N, iIdx))
    }

    constructor (code: Code)
      ensures Valid() && this.code == code && iIdx == 0 && state == 0
    {
      this.code := code;
      iIdx, pIdx, state := 0, 0, 0;
    }

    method LoadState(input: seq<Bit>)
      requires Valid() && |input| >= code.K - 1
      modifies this`state
      ensures Valid()
      ensures state == Loaded(input[..code.K - 1])
    {
      var s: nat := 0;
      for i := 0 to code.K - 1
        invariant s == Loaded(input[..i])
      {
        assert input[..i + 1][..i] == input[..i];
        s := 2 * s + input[i];
      }
      state := s;
    }

    /** Sends the unpunctured bits of one output word. */
    method DoOutput(out: nat) returns (output: seq<Bit>)
      requires Valid() && out < Pow2(code.N)
      modifies this`pIdx
      ensures At(code.Punctured(), pIdx, Times(code.N, iIdx + 1))
      ensures output == Keep(code.Punctured(), Times(code.N, iIdx), OutBits(code.N, out))
    {
      ghost var p, base, bits := code.Punctured(), Times(code.N, iIdx), OutBits(code.N, out);
      TimesIsProduct(code.N, iIdx);
      output := [];
      var first := iIdx * code.N;
      for j := 0 to code.N
        invariant At(p, pIdx, base + j)
        invariant output == Keep(p, base, bits[..j])
      {
        KeepOne(p, base, bits, j);
        var more := OutputOne(out, j, first + j);
        output := output + more;
      }
      assert bits[..code.N] == bits;
    }

    /** Bit `j` of an output word, unless position `r` is punctured. */
    method OutputOne(out: nat, j: nat, r: nat) returns (more: seq<Bit>)
      requires At(code.Punctured(), pIdx, r) && j < code.N
      modifies this`pIdx
      ensures At(code.Punctured(), pIdx, r + 1)
      ensures more == if r in code.Punctured() then [] else [OutBits(code.N, out)[j]]
    {
      var punctured := NextPunctured(r);
      more := if punctured then [] else [BitAt(out, code.N - j - 1)];
    }

    /** Compares a position with the entry under the cursor, and steps over that entry. */
    method NextPunctured(r: nat) returns (punctured: bool)
      requires At(code.Punctured(), pIdx, r)
      modifies this`pIdx
      ensures At(code.Punctured(), pIdx, r + 1) && punctured == (r in code.Punctured())
    {
      AtDecides(code.Punctured(), pIdx, r);
      punctured := code.puncture.Some? && code.puncture.value[pIdx] == r;
      if punctured {
        pIdx := pIdx + 1;
      }
    }

    /** One trellis step: send the output word, then move on. */
    method Step(ghost m: Move, out: nat, next: nat) returns (sent: seq<Bit>)
      requires Valid() && out == Out(code, state, m) && next == Next(code, state, m)
      modifies this
      ensures Valid() && iIdx == old(iIdx) + 1 && state == Next(code, old(state), m)
      ensures sent == Sent(code, old(iIdx), old(state), m)
    {
      sent := DoOutput(out);
      state := next;
      iIdx := iIdx + 1;
    }

    /** Encodes data bits. */
    method Raw(input: seq<Bit>) returns (output: seq<Bit>)
      requires Valid()
      modifies this
      ensures Valid() && iIdx == old(iIdx) + |input|
      ensures state == Run(code, old(state), DataMoves(input))
      ensures output == Emitted(code, old(iIdx), old(state), DataMoves(input))
    {
      ghost var s0, ms := state, DataMoves(input);
      output := [];
      for i := 0 to |input|
        invariant Valid() && iIdx == old(iIdx) + i
        invariant state == Run(code, s0, ms[..i])
        invariant output == Emitted(code, old(iIdx), s0, ms[..i])
      {
        StepEmitted(code, old(iIdx), s0, ms, i);
        var bit := input[i];
        var sent := Step(Data(bit), code.nextOutput[state][bit], code.nextState[state][bit]);
        output := output + sent;
      }
      assert ms[..|input|] == ms;
    }

    /** Encodes the K-1 flush steps. */
    method Flush() returns (output: seq<Bit>)
      requires Valid()
      modifies this
      ensures Valid() && iIdx == old(iIdx) + code.K - 1
      ensures state == FlushEnd(code, old(state))
      ensures output == Emitted(code, old(iIdx), old(state), TailMoves(code.K - 1))
    {
      var n := code.K - 1;
      ghost var s0, ms := state, TailMoves(n);
      output := [];
      for i := 0 to n
        invariant Valid() && iIdx == old(iIdx) + i
        invariant state == Run(code, s0, ms[..i])
        invariant output == Emitted(code, old(iIdx), s0, ms[..i])
      {
        StepEmitted(code, old(iIdx), s0, ms, i);
        var out, next;
        if code.tail.Some? {
          out, next := code.tail.value.output[state], code.tail.value.state[state];
        } else {
          out, next := code.nextOutput[state][0], code.nextState[state][0];
        }
        var sent := Step(Tail, out, next);
        output := output + sent;
      }
      assert ms[..n] == ms;
    }
  }

  /** `osmo_conv_encode`: the whole block, by termination. A tail-biting code starts in the state
      its last K-1 bits load, so it needs a block of at least that length. */
  method Encode(c: Code, input: seq<Bit>) returns (output: seq<Bit>)
    requires |input| >= c.len
    requires c.term.TailBiting? ==> c.len >= c.K - 1
    ensures output == Encoded(c, input[..c.len])
  {
    var encoder := Started(c, input);
    output := encoder.Raw(input[..c.len]);
    if c.term == Term.Flush {
      var more := encoder.Flush();
      output := output + more;
    }
    WholeBlock(c, StartState(c, input[..c.len]), input[..c.len]);
  }

  /** `osmo_conv_encode_init`, and `osmo_conv_encode_load_state` for a tail-biting code. */
  method Started(c: Code, input: seq<Bit>) returns (encoder: Encoder)
    requires |input| >= c.len
    requires c.term.TailBiting? ==> c.len >= c.K - 1
    ensures fresh(encoder) && encoder.Valid() && encoder.code == c && encoder.iIdx == 0
    ensures encoder.state == StartState(c, input[..c.len])
  {
    encoder := new Encoder(c);
    if c.term == TailBiting {
      var eidx := c.len - c.K + 1;
      encoder.LoadState(input[eidx..]);
      assert input[eidx..][..c.K - 1] == input[..c.len][eidx..];
    }
  }

  /** A block is its data steps and, if there are any, its flush steps. */
  lemma {:induction false} WholeBlock(c: Code, s: nat, msg: seq<Bit>)
    requires s < c.NumStates() && |msg| == c.len
    ensures Emitted(c, 0, s, BlockMoves(c, msg)) == Emitted(c, 0, s, DataMoves(msg))
            + if c.term.Flush? then Emitted(c, c.len, Run(c, s, DataMoves(msg)), TailMoves(c.K - 1)) else []
  {
    if c.term.Flush? {
      EmittedAppend(c, 0, s, DataMoves(msg), TailMoves(c.K - 1));
    } else {
      assert BlockMoves(c, msg) == DataMoves(msg);
    }
  }

  /** The state a block is encoded from. */
  function StartState(c: Code, msg: seq<Bit>): (s: nat)
    requires c.term.TailBiting? ==> |msg| >= c.K - 1
    ensures s < c.NumStates()
  {
    if c.term.TailBiting? then Loaded(msg[|msg| - c.K + 1..]) else 0
  }

  /** The transmitted block of a message. */
  function Encoded(c: Code, msg: seq<Bit>): seq<Bit>
    requires c.term.TailBiting? ==> |msg| >= c.K - 1
  {
    Emitted(c, 0, StartState(c, msg), BlockMoves(c, msg))
  }

  /** `osmo_conv_get_output_length`. */
  method GetOutputLength(c: Code, len: int) returns (n: int)
    ensures n == (if len <= 0 then c.len else len) * c.N
              + (if c.term.Flush? then c.N * (c.K - 1) else 0)
              - (|c.Punctured()| - 1)
  {
    var inLen := if len <= 0 then c.len else len;
    n := inLen * c.N;
    if c.term == Term.Flush {
      n := n + c.N * (c.K - 1);
    }
    if c.puncture.Some? {
      var pbits := 0;
      while c.puncture.value[pbits] >= 0
        invariant 0 <= pbits < |c.puncture.value|
        decreases |c.puncture.value| - pbits
      {
        pbits := pbits + 1;
      }
      n := n - pbits;
    }
  }

  /** Every punctured index lies in the block. */
  ghost predicate PuncturesInBlock(c: Code) {
    var p := c.Punctured();
    forall i :: 0 <= i < |p| - 1 ==> p[i] < Times(c.N, c.Steps())
  }

  /** Where the cursor is at position `base`. */
  lemma {:induction false} Cursor(p: seq<int>, base: nat) returns (k: nat)
    requires PunctureList(p)
    ensures At(p, k, base) && (k == |p| - 1 <==> forall i :: 0 <= i < |p| - 1 ==> p[i] < base)
  {
    k := 0;
    while k < |p| - 1 && p[k] < base
      invariant k < |p| && forall i :: 0 <= i < k ==> p[i] < base
    {
      k := k + 1;
    }
    if k < |p| - 1 {
      assert p[k] >= base;
    }
  }

  /** Accounting: the encoder sends exactly as many bits as `osmo_conv_get_output_length` announces, if and only if
      every punctured index lies in the block. */
  lemma {:induction false} EncodedLength(c: Code, msg: seq<Bit>)
    requires |msg| == c.len && (c.term.TailBiting? ==> |msg| >= c.K - 1)
    ensures |Encoded(c, msg)| == c.len * c.N + (if c.term.Flush? then c.N * (c.K - 1) else 0) - (|c.Punctured()| - 1)
            <==> PuncturesInBlock(c)
  {
    var p, w := c.Punctured(), Coded(c, StartState(c, msg), BlockMoves(c, msg));
    assert |w| == Times(c.N, c.Steps());
    KeepLength(p, 0, w);
    var k := Cursor(p, |w|);
    NeedByCursor(p, 0, |w|, 0, k);
    BlockWidth(c);
  }

  lemma {:induction false} BlockWidth(c: Code)
    ensures Times(c.N, c.Steps()) == c.len * c.N + (if c.term.Flush? then c.N * (c.K - 1) else 0)
  {
    StepsWidth(c.N, c.len, if c.term.Flush? then c.K - 1 else 0);
  }

  lemma {:induction false} StepsWidth(n: nat, m: nat, k: nat)
    ensures Times(n, m + k) == m * n + n * k
  {
    TimesAdd(n, m, k);
    TimesIsProduct(n, m);
    TimesIsProduct(n, k);
    assert k * n == n * k;
  }

  /** The first i + 1 moves send what the first i sent, then the word of move i. */
  lemma {:induction false} StepEmitted(c: Code, base: nat, s: nat, ms: seq<Move>, i: nat)
    requires s < c.NumStates() && i < |ms|
    ensures Run(c, s, ms[..i + 1]) == Next(c, Run(c, s, ms[..i]), ms[i])
    ensures Emitted(c, base, s, ms[..i + 1])
         == Emitted(c, base, s, ms[..i]) + Sent(c, base + i, Run(c, s, ms[..i]), ms[i])
  {
    assert ms[..i + 1] == ms[..i] + [ms[i]];
    EmittedOne(c, base, s, ms[..i], ms[i]);
  }

  lemma {:induction false} EmittedOne(c: Code, base: nat, s: nat, before: seq<Move>, m: Move)
    requires s < c.NumStates()
    ensures Run(c, s, before + [m]) == Next(c, Run(c, s, before), m)
    ensures Emitted(c, base, s, before + [m])
         == Emitted(c, base, s, before) + Sent(c, base + |before|, Run(c, s, before), m)
  {
    EmittedAppend(c, base, s, before, [m]);
    RunAppend(c, s, before, [m]);
    CodedOne(c, Run(c, s, before), m);
  }

  lemma {:induction false} CodedOne(c: Code, s: nat, m: Move)
    requires s < c.NumStates()
    ensures Run(c, s, [m]) == Next(c, s, m)
    ensures Coded(c, s, [m]) == OutBits(c.N, Out(c, s, m))
  {
    assert [m][..0] == [];
  }
}
