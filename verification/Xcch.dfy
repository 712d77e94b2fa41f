/** The xCCH transcoder of src/coding/gsm0503_coding.c: 23-byte blocks, a 40-bit Fire code, the rate-1/2 K=5
    convolutional code, rectangular interleaving and four bursts (3GPP TS 45.003 section 4.1). */
module Xcch {
  import opened Bits
  import opened PackedBits
  import opened ConvCode
  import opened ConvEncoder
  import opened ConvPoly
  import opened ConvProduct
  import opened ConvDecode
  import opened NoiseFree
  import opened AccCode
  import opened AccTrellis
  import opened AccBest
  import opened AccDecode
  import AccSums
  import opened Interleave
  import opened BurstStream
  import opened FireCode
  import Gf2

  // ---------------------------------------------------------------------------
  // The code: G0 = 1 + D3 + D4, G1 = 1 + D + D3 + D4

  const XCCH_POLYS := Polys(5, [Poly(25, 1), Poly(27, 1)])

  lemma {:induction false} XcchTaps()
    ensures OuterTaps(XCCH_POLYS)
  {
    var g := XCCH_POLYS;
    assert g.Normal(0) == Poly(25, 1) && g.Normal(1) == Poly(27, 1);
    assert g.DividerFrom(2) == 1 && g.DividerFrom(1) == 1 && g.Divider() == 1;
    assert Pow2(5) == 32;
    assert BitAt(25, 4) == BitAt(12, 3) == BitAt(6, 2) == BitAt(3, 1) == BitAt(1, 0) == 1;
    assert BitAt(27, 4) == BitAt(13, 3) == BitAt(6, 2);
  }

  function XcchCode(): (c: Code)
    ensures c.N == 2 && c.K == 5 && c.len == 224 && c.term == Flush && c.puncture == None
  {
    XcchTaps();
    PolyCode(XCCH_POLYS, 224, Flush, None)
  }

  // ---------------------------------------------------------------------------
  // Encoder

  /** A block of 23 bytes, as 184 bits with parity. */
  function Protected(l2: seq<Byte>): (u: seq<Bit>)
    requires |l2| == 23
    ensures |u| == 224
  {
    Unpacked(l2, 0, 184, true) + ParityBits(Unpacked(l2, 0, 184, true))
  }

  /** The last 40 of 224 bits are the parity of the others: with it complemented, the word is a multiple of the Fire
      code's polynomial. */
  ghost predicate Checked(u: seq<Bit>) {
    |u| == 224 && Protects(u[..184], u[184..])
  }

  lemma {:induction false} ProtectedChecked(l2: seq<Byte>)
    requires |l2| == 23
    ensures Checked(Protected(l2))
  {
    var bits := Unpacked(l2, 0, 184, true);
    assert Protected(l2)[..184] == bits && Protected(l2)[184..] == ParityBits(bits);
    ParityExactly(bits, ParityBits(bits));
  }

  /** The coded form of 224 bits. */
  function CodedWord(u: seq<Bit>): (cB: seq<Bit>)
    requires |u| == 224
    ensures |cB| == 456
  {
    var c := XcchCode();
    BlockLength(u);
    Encoded(c, u)
  }

  lemma {:induction false} BlockLength(u: seq<Bit>)
    requires |u| == 224
    ensures |Encoded(XcchCode(), u)| == 456
  {
    var c := XcchCode();
    EncodedLength(c, u);
  }

  /** G0 and G1, section 4.1.3 of 3GPP TS 45.003, delay 0 first. */
  const G0: Gf2.Poly := [true, false, false, true, true]
  const G1: Gf2.Poly := [true, true, false, true, true]

  lemma {:induction false} XcchGenerators()
    ensures Taps(25, 5) == G0 && Taps(27, 5) == G1
  {
    assert Taps(1, 1) == [true] && Taps(3, 2) == [true] + Taps(1, 1);
    assert Taps(6, 3) == [false] + Taps(3, 2);
    assert Taps(12, 4) == [false] + Taps(6, 3) && Taps(13, 4) == [true] + Taps(6, 3);
    assert Taps(25, 5) == [true] + Taps(12, 4) && Taps(27, 5) == [true] + Taps(13, 4);
  }

  /** Nothing is punctured. */
  lemma {:induction false} KeepEverything(bits: seq<Bit>)
    ensures Keep([-1], 0, bits) == bits
    decreases |bits|
  {
    if bits == [] {
    } else {
      KeepEverything(bits[..|bits| - 1]);
      assert bits == bits[..|bits| - 1] + [bits[|bits| - 1]];
    }
  }

  /** The coded bits are, in turn, the products of the 224 bits with the two generators. */
  lemma {:induction false} CodedWordIsProduct(u: seq<Bit>, t: nat)
    requires |u| == 224 && t < 228
    ensures (CodedWord(u)[2 * t] == 1) == Gf2.Product(G0, Gf2.Bools(u))[t]
    ensures (CodedWord(u)[2 * t + 1] == 1) == Gf2.Product(G1, Gf2.Bools(u))[t]
  {
    var g, c := XCCH_POLYS, XcchCode();
    var ms := BlockMoves(c, u);
    XcchTaps();
    XcchGenerators();
    assert g.Normal(0).num == 25 && g.Normal(1).num == 27;
    PlainBlockIsProduct(g, 224, None, u, 0);
    PlainBlockIsProduct(g, 224, None, u, 1);
    StreamOfCoded(c, ms, 0, t);
    StreamOfCoded(c, ms, 1, t);
    TimesIsProduct(2, t);
    KeepEverything(Coded(c, 0, ms));
  }

  /** `_xcch_encode_cB`. */
  method EncodeCB(l2: seq<Byte>) returns (cB: seq<Bit>)
    requires |l2| == 23
    ensures cB == CodedWord(Protected(l2)) && Checked(Protected(l2))
  {
    var conv := Pbit2Ubit(l2, 0, 184, true);
    var parity := CrcSet(conv);
    var u := conv + parity;
    cB := Encode(XcchCode(), u);
    assert u[..224] == u;
    ProtectedChecked(l2);
  }

  /** Four bursts that carry 224 bits, with both flags set. */
  ghost predicate Carries(bursts: seq<seq<Bit>>, u: seq<Bit>) {
    && |u| == 224 && |bursts| == 4 && Stream(bursts)
    && Holds(Scheme.Xcch, bursts, 0, CodedWord(u))
    && forall i :: 0 <= i < 4 ==> bursts[i][57] == 1 && bursts[i][58] == 1
  }

  /** Each burst gets its part of the interleaved block. */
  method MapBursts(iB: seq<Bit>) returns (bursts: seq<seq<Bit>>)
    requires |iB| == 456
    ensures |bursts| == 4 && forall b :: 0 <= b < 4 ==> bursts[b] == XcchBurst(Row(iB, b), 1, 1)
  {
    bursts := [];
    for i := 0 to 4
      invariant |bursts| == i
      invariant forall b :: 0 <= b < i ==> bursts[b] == XcchBurst(Row(iB, b), 1, 1)
    {
      bursts := bursts + [XcchBurst(Row(iB, i), 1, 1)];
    }
  }

  lemma {:induction false} MappedBit(iB: seq<Bit>, bursts: seq<seq<Bit>>, k: nat)
    requires |iB| == 456 && |bursts| == 4 && k < BLOCK
    requires forall b :: 0 <= b < 4 ==> bursts[b] == XcchBurst(Row(iB, b), 1, 1)
    ensures Stream(bursts) && CellOf(Scheme.Xcch, k) < 456
    ensures HoldsBit(Scheme.Xcch, bursts, 0, k, iB[CellOf(Scheme.Xcch, k)])
  {
    InRow(Scheme.Xcch, iB, k);
    BurstRoundTrip(Row(iB, BurstOf(Scheme.Xcch, k)), 1, 1);
  }

  /** Interleaving and burst mapping of a coded word. */
  method SendCoded(cB: seq<Bit>, ghost u: seq<Bit>) returns (bursts: seq<seq<Bit>>)
    requires |u| == 224 && cB == CodedWord(u)
    ensures Carries(bursts, u)
  {
    var iB := Interleaved(Scheme.Xcch, cB, seq(456, i => 0));
    bursts := MapBursts(iB);
    forall k | 0 <= k < BLOCK
      ensures HoldsBit(Scheme.Xcch, bursts, 0, k, cB[k])
    {
      MappedBit(iB, bursts, k);
    }
  }

  /** `gsm0503_xcch_encode`. */
  method XcchEncode(l2: seq<Byte>) returns (bursts: seq<seq<Bit>>)
    requires |l2| == 23
    ensures Carries(bursts, Protected(l2)) && Checked(Protected(l2))
  {
    var cB := EncodeCB(l2);
    bursts := SendCoded(cB, Protected(l2));
  }

  // ---------------------------------------------------------------------------
  // Decoder

  /** How many soft bits are not on the side of their bit. */
  function WrongSigns(x: seq<SBit>, bits: seq<Bit>): nat
    requires |x| == |bits|
    decreases |x|
  {
    if x == [] then 0
    else
      var n := |x| - 1;
      WrongSigns(x[..n], bits[..n]) + (if Agrees(x[n], bits[n]) then 0 else 1)
  }

  lemma {:induction false} AllAgreeNoneWrong(x: seq<SBit>, bits: seq<Bit>)
    requires |x| == |bits|
    ensures WrongSigns(x, bits) == 0 <==> AllAgree(x, bits)
    decreases |x|
  {
    if x == [] {
    } else {
      AllAgreeNoneWrong(x[..|x| - 1], bits[..|x| - 1]);
    }
  }

  /** No message correlates better with the soft bits. */
  ghost predicate BestOf(input: seq<SBit>, msg: seq<Bit>)
    requires |input| == 456 && |msg| == 224
  {
    XcchReady(input);
    BestMessage(XcchCode(), Received(XcchCode(), input), msg)
  }

  /** `osmo_conv_decode_ber` for the xCCH code: decode, encode again, and count the received soft bits that do
      not have the sign of the re-encoded bit. */
  method DecodeBer(input: seq<SBit>) returns (output: seq<Bit>, nErrors: nat, nBitsTotal: nat)
    requires |input| == 456
    ensures |output| == 224 && nBitsTotal == 456
    ensures |Encoded(XcchCode(), output)| == 456 && nErrors == WrongSigns(input, Encoded(XcchCode(), output))
    ensures forall u: seq<Bit> :: |u| == 224 && Amplitude(input, 127) && AllAgree(input, Encoded(XcchCode(), u)) ==>
            output == u
    ensures Amplitude(input, 79) ==> BestOf(input, output)
  {
    var c := XcchCode();
    XcchReady(input);
    var rc;
    rc, output := DecodeBlock(c, input);
    forall u: seq<Bit> | |u| == 224 && Amplitude(input, 127) && AllAgree(input, Encoded(c, u))
      ensures output == u
    {
      var s :| 0 <= s < c.NumStates() && Best(c, Received(c, input), s, output);
      AccInvertsEncode(c, u, input, s, output);
    }
    var recoded := Encode(c, output);
    assert output[..224] == output;
    BlockLength(output);
    nErrors := CountErrors(input, recoded);
    nBitsTotal := |recoded|;
  }

  /** Soft bits that do not have the sign of the re-encoded bit. */
  method CountErrors(input: seq<SBit>, recoded: seq<Bit>) returns (nErrors: nat)
    requires |input| == |recoded|
    ensures nErrors == WrongSigns(input, recoded)
  {
    nErrors := 0;
    for i := 0 to |recoded|
      invariant nErrors == WrongSigns(input[..i], recoded[..i])
    {
      assert input[..i + 1][..i] == input[..i] && recoded[..i + 1][..i] == recoded[..i];
      if recoded[i] == 1 && input[i] < 0 {
        continue;
      }
      if recoded[i] == 0 && input[i] > 0 {
        continue;
      }
      nErrors := nErrors + 1;
    }
    assert input[..|recoded|] == input && recoded[..|recoded|] == recoded;
  }

  /** The xCCH code suits the accelerated decoder, and full amplitude leaves room. */
  lemma {:induction false} XcchReady(input: seq<SBit>)
    requires |input| == 456
    ensures Butterfly(XcchCode()) && SplitsOutputs(XcchCode())
    ensures Need(XcchCode().Punctured(), 0, Times(2, 228)) == 456 && Times(2, 228) == 456
    ensures Received(XcchCode(), input) == input
    ensures Amplitude(input, 127) ==> Gentle(XcchCode(), input)
  {
    var c := XcchCode();
    XcchTaps();
    PolyButterfly(XCCH_POLYS, 224, Flush, None);
    TimesIsProduct(2, 228);
    NothingPunctured(456);
    NoPuncture(456, input);
    assert input[..456] == input;
    FullAmplitudeFits(c);
  }

  /** A block holds the first 184 bits of a word. */
  ghost predicate PackedAs(block: seq<Byte>, u: seq<Bit>)
    requires |u| == 224
  {
    |block| == 23 && forall i :: 0 <= i < 184 ==> PackedBit(block, i, true) == u[i]
  }

  /** What a word is worth: its block, if the parity is right, and else nothing. */
  ghost predicate Answers(u: seq<Bit>, rv: int, after: seq<Byte>, before: seq<Byte>)
    requires |u| == 224
  {
    if Checked(u) then rv == 0 && PackedAs(after, u) else rv == -1 && after == before
  }

  /** The parity check and the packing of `_xcch_decode_cB`: the block is left alone if the parity is wrong. */
  method StoreChecked(conv: seq<Bit>, block: array<Byte>) returns (rv: int)
    requires |conv| == 224 && block.Length == 23
    modifies block
    ensures Answers(conv, rv, block[..], old(block[..]))
  {
    var bits, parity := conv[..184], conv[184..];
    ParityExactly(bits, parity);
    var bad := CrcCheck(bits, parity);
    if bad == 0 {
      Ubit2Pbit(block, 0, bits, true);
      rv := 0;
    } else {
      rv := -1;
    }
  }

  /** `u` is a word that correlates best with the soft bits, which contradict it in `nErrors` places. */
  ghost predicate Decides(cB: seq<SBit>, u: seq<Bit>, nErrors: nat)
    requires |cB| == 456
  {
    |u| == 224 && BestOf(cB, u) && nErrors == WrongSigns(cB, CodedWord(u))
  }

  /** `_xcch_decode_cB`. */
  method DecodeCB(cB: seq<SBit>, block: array<Byte>) returns (rv: int, nErrors: nat, nBitsTotal: nat)
    requires |cB| == 456 && block.Length == 23
    modifies block
    ensures rv == 0 || (rv == -1 && block[..] == old(block[..]))
    ensures forall u: seq<Bit> :: |u| == 224 && Amplitude(cB, 127) && AllAgree(cB, CodedWord(u)) ==>
              Answers(u, rv, block[..], old(block[..])) && nErrors == 0 && nBitsTotal == 456
    ensures Amplitude(cB, 79) ==> exists u :: Decides(cB, u, nErrors) && Answers(u, rv, block[..], old(block[..]))
  {
    var conv;
    conv, nErrors, nBitsTotal := DecodeBer(cB);
    rv := StoreChecked(conv, block);
    forall u: seq<Bit> | |u| == 224 && Amplitude(cB, 127) && AllAgree(cB, CodedWord(u))
      ensures Answers(u, rv, block[..], old(block[..])) && nErrors == 0 && nBitsTotal == 456
    {
      assert conv == u;
      AllAgreeNoneWrong(cB, CodedWord(u));
    }
    assert Amplitude(cB, 79) ==> Decides(cB, conv, nErrors);
  }

  /** The bits of a block are those of no other. */
  lemma {:induction false} SameBlock(block: seq<Byte>, l2: seq<Byte>)
    requires |l2| == 23 && PackedAs(block, Protected(l2))
    ensures block == l2
  {
    var bits := Unpacked(l2, 0, 184, true);
    forall i | 0 <= i < 8 * 23
      ensures PackedBit(block, i, true) == PackedBit(l2, i, true)
    {
      assert PackedBit(block, i, true) == Protected(l2)[i] == bits[i];
    }
    SameBits(block, l2, true);
  }

  /** The soft bursts have the signs of the bursts, at any amplitude up to 127. */
  ghost predicate Received4(soft: seq<seq<SBit>>, bursts: seq<seq<Bit>>) {
    && |soft| == |bursts|
    && (forall i :: 0 <= i < |soft| ==> AllAgree(soft[i], bursts[i]) && Amplitude(soft[i], 127))
  }

  /** Every soft bit is the one at its place in the bursts. */
  ghost predicate Gathered(soft: seq<seq<SBit>>, cB: seq<SBit>)
    requires |soft| == 4 && forall i :: 0 <= i < 4 ==> |soft[i]| == 116
  {
    && |cB| == 456
    && forall k :: 0 <= k < 456 ==> cB[k] == soft[BurstOf(Scheme.Xcch, k) % 4][Slot(PosOf(Scheme.Xcch, k)) % 116]
  }

  /** Unmapping and deinterleaving. */
  method Collect(soft: seq<seq<SBit>>) returns (cB: seq<SBit>)
    requires |soft| == 4 && forall i :: 0 <= i < 4 ==> |soft[i]| == 116
    ensures |cB| == 456 && Gathered(soft, cB)
    ensures forall u, bursts :: Carries(bursts, u) && Received4(soft, bursts) ==>
              Amplitude(cB, 127) && AllAgree(cB, CodedWord(u))
  {
    var iB: seq<SBit> := [];
    for i := 0 to 4
      invariant |iB| == i * 114
      invariant forall b :: 0 <= b < i ==> Row(iB, b) == XcchUnmapped(soft[b])
    {
      ghost var before := iB;
      iB := iB + XcchUnmapped(soft[i]);
      forall b | 0 <= b < i
        ensures Row(iB, b) == Row(before, b)
      {
      }
    }
    cB := Deinterleaved(Scheme.Xcch, iB);
    forall k | 0 <= k < 456
      ensures cB[k] == soft[BurstOf(Scheme.Xcch, k) % 4][Slot(PosOf(Scheme.Xcch, k)) % 116]
    {
      SoftCell(soft, iB, k);
    }
    forall u, bursts | Carries(bursts, u) && Received4(soft, bursts)
      ensures Amplitude(cB, 127) && AllAgree(cB, CodedWord(u))
    {
      SoftBlock(soft, bursts, u, iB, cB);
    }
  }

  /** `gsm0503_xcch_decode`. Without noise, whatever the amplitudes, every word comes back if its parity is right, and
      is refused if it is not. With any noise, up to amplitude 79, the same happens to a word that correlates best. */
  method XcchDecode(soft: seq<seq<SBit>>, block: array<Byte>) returns (rv: int, nErrors: nat, nBitsTotal: nat)
    requires |soft| == 4 && (forall i :: 0 <= i < 4 ==> |soft[i]| == 116) && block.Length == 23
    modifies block
    ensures rv == 0 || (rv == -1 && block[..] == old(block[..]))
    ensures forall u, bursts :: Carries(bursts, u) && Received4(soft, bursts) ==>
              Answers(u, rv, block[..], old(block[..])) && nErrors == 0 && nBitsTotal == 456
    ensures (forall i :: 0 <= i < 4 ==> Amplitude(soft[i], 79)) ==> exists cB, u ::
              && Gathered(soft, cB) && Decides(cB, u, nErrors) && Answers(u, rv, block[..], old(block[..]))
  {
    var cB := Collect(soft);
    rv, nErrors, nBitsTotal := DecodeCB(cB, block);
    if forall i :: 0 <= i < 4 ==> Amplitude(soft[i], 79) {
      GatheredAmplitude(soft, cB, 79);
    }
  }

  lemma {:induction false} GatheredAmplitude(soft: seq<seq<SBit>>, cB: seq<SBit>, a: nat)
    requires |soft| == 4 && forall i :: 0 <= i < 4 ==> |soft[i]| == 116 && Amplitude(soft[i], a)
    requires Gathered(soft, cB)
    ensures Amplitude(cB, a)
  {
    forall k | 0 <= k < 456
      ensures AccSums.Small(cB[k], a)
    {
      assert Amplitude(soft[BurstOf(Scheme.Xcch, k) % 4], a);
    }
  }

  /** The deinterleaved soft bits have the signs of the coded word. */
  lemma {:induction false} SoftBlock(soft: seq<seq<SBit>>, bursts: seq<seq<Bit>>, u: seq<Bit>, iB: seq<SBit>,
                                     cB: seq<SBit>)
    requires Carries(bursts, u) && Received4(soft, bursts) && |iB| == 456 && |cB| == BLOCK
    requires forall i :: 0 <= i < 4 ==> |soft[i]| == 116 && Row(iB, i) == XcchUnmapped(soft[i])
    requires forall k :: 0 <= k < BLOCK ==> CellOf(Scheme.Xcch, k) < |iB| && cB[k] == iB[CellOf(Scheme.Xcch, k)]
    ensures Amplitude(cB, 127) && AllAgree(cB, CodedWord(u))
  {
    forall k | 0 <= k < BLOCK
      ensures Agrees(cB[k], CodedWord(u)[k]) && AccSums.Small(cB[k], 127)
    {
      CellRange(Scheme.Xcch, k);
      var b := BurstOf(Scheme.Xcch, k);
      assert HoldsBit(Scheme.Xcch, bursts, 0, k, CodedWord(u)[k]);
      assert AllAgree(soft[b], bursts[b]) && Amplitude(soft[b], 127);
      SoftCell(soft, iB, k);
    }
  }

  /** Bit `k` of the block is the soft bit at its place in its burst. */
  lemma {:induction false} SoftCell(soft: seq<seq<SBit>>, iB: seq<SBit>, k: nat)
    requires k < BLOCK && |soft| == 4 && |iB| == 456
    requires forall i :: 0 <= i < 4 ==> |soft[i]| == 116 && Row(iB, i) == XcchUnmapped(soft[i])
    ensures BurstOf(Scheme.Xcch, k) < 4 && PosOf(Scheme.Xcch, k) < 114 && CellOf(Scheme.Xcch, k) < 456
    ensures iB[CellOf(Scheme.Xcch, k)] == soft[BurstOf(Scheme.Xcch, k)][Slot(PosOf(Scheme.Xcch, k))]
  {
    CellRange(Scheme.Xcch, k);
    var b, j := BurstOf(Scheme.Xcch, k), PosOf(Scheme.Xcch, k);
    assert Row(iB, b)[j] == iB[CellOf(Scheme.Xcch, k)];
    assert XcchUnmapped(soft[b])[j] == soft[b][Slot(j)];
  }

  /** Noise-free soft bits of amplitude `a` for four bursts. */
  method SoftBursts(bursts: seq<seq<Bit>>, a: int) returns (soft: seq<seq<SBit>>)
    requires |bursts| == 4 && Stream(bursts) && 1 <= a <= 127
    ensures |soft| == 4 && Received4(soft, bursts) && forall i :: 0 <= i < 4 ==> |soft[i]| == 116
  {
    soft := [Soft(bursts[0], a), Soft(bursts[1], a), Soft(bursts[2], a), Soft(bursts[3], a)];
  }

  /** The whole chain: every block comes back from its noise-free bursts, at any amplitude. */
  method XcchRoundTrip(l2: seq<Byte>, a: int) returns (rv: int, block: seq<Byte>, nErrors: nat, nBitsTotal: nat)
    requires |l2| == 23 && 1 <= a <= 127
    ensures rv == 0 && block == l2 && nErrors == 0 && nBitsTotal == 456
  {
    var bursts := XcchEncode(l2);
    var soft := SoftBursts(bursts, a);
    var buffer := new Byte[23](_ => 0);
    rv, nErrors, nBitsTotal := XcchDecode(soft, buffer);
    block := buffer[..];
    SameBlock(block, l2);
  }

  /** A burst of up to 40 bits, in block or parity, leaves no word that passes. */
  lemma {:induction false} DamagedFails(l2: seq<Byte>, u: seq<Bit>, from: nat)
    requires |l2| == 23 && |u| == 224 && u != Protected(l2) && Gf2.Burst(Difference(Protected(l2), u), from, 40)
    ensures !Checked(u)
  {
    var bits := Unpacked(l2, 0, 184, true);
    assert Protected(l2)[..184] == bits && Protected(l2)[184..] == ParityBits(bits);
    BurstSeen(Protected(l2), u, 184, from);
    ParityExactly(u[..184], u[184..]);
  }

  /** The whole chain with a block that was damaged before it was coded: it is refused and the buffer left alone. */
  method XcchRefuses(ghost l2: seq<Byte>, u: seq<Bit>, ghost from: nat, a: int, block: array<Byte>) returns (rv: int)
    requires |l2| == 23 && |u| == 224 && u != Protected(l2) && Gf2.Burst(Difference(Protected(l2), u), from, 40)
    requires 1 <= a <= 127 && block.Length == 23
    modifies block
    ensures rv == -1 && block[..] == old(block[..])
  {
    var cB := Encode(XcchCode(), u);
    assert u[..224] == u;
    var bursts := SendCoded(cB, u);
    var soft := SoftBursts(bursts, a);
    var nErrors, nBitsTotal;
    rv, nErrors, nBitsTotal := XcchDecode(soft, block);
    DamagedFails(l2, u, from);
  }
}
