/** The 40-bit parity of the GSM signalling channels: src/core/crcXXgen.c.tpl with the Fire code of
    src/coding/gsm0503_parity.c, which is division by a polynomial and sees every burst of up to 40 bits. */
module FireCode {
  import opened Bits
  import opened Gf2

  const FIRE_POLY: bv64 := 0x0004820009
  const FIRE_REMAINDER: bv64 := 0xffffffffff
  const FIRE_MASK: bv64 := 0xffffffffff
  const FIRE_TOP: bv64 := 0x8000000000

  function ShiftOut(c: bv64): bv64 {
    if c & FIRE_TOP != 0 then ((c << 1) ^ FIRE_POLY) & FIRE_MASK else (c << 1) & FIRE_MASK
  }

  function CrcStep(crc: bv64, bit: Bit): bv64 {
    ShiftOut(if bit == 1 then crc ^ FIRE_TOP else crc)
  }

  function CrcOf(bits: seq<Bit>): bv64 {
    if bits == [] then 0 else CrcStep(CrcOf(bits[..|bits| - 1]), bits[|bits| - 1])
  }

  /** `osmo_crc64gen_compute_bits`. */
  method CrcCompute(bits: seq<Bit>) returns (crc: bv64)
    ensures crc == CrcOf(bits) ^ FIRE_REMAINDER
  {
    crc := 0;
    for i := 0 to |bits|
      invariant crc == CrcOf(bits[..i])
    {
      assert bits[..i + 1][..i] == bits[..i];
      crc := CrcStep(crc, bits[i]);
    }
    assert bits[..|bits|] == bits;
    crc := crc ^ FIRE_REMAINDER;
  }

  function ShiftRight(v: bv64, n: nat): bv64 {
    if n == 0 then v else ShiftRight(v, n - 1) >> 1
  }

  /** Bit `i` of the 40, the highest one first. */
  function ParityBit(crc: bv64, i: nat): Bit
    requires i < 40
  {
    if ShiftRight(crc, 39 - i) & 1 == 1 then 1 else 0
  }

  /** The 40 parity bits of a block. */
  function ParityBits(bits: seq<Bit>): (p: seq<Bit>)
    ensures |p| == 40
  {
    seq<Bit>(40, i requires 0 <= i < 40 => ParityBit(CrcOf(bits) ^ FIRE_REMAINDER, i))
  }

  /** `osmo_crc64gen_set_bits`. */
  method CrcSet(bits: seq<Bit>) returns (p: seq<Bit>)
    ensures p == ParityBits(bits)
  {
    var crc := CrcCompute(bits);
    p := [];
    for i := 0 to 40
      invariant |p| == i && forall k :: 0 <= k < i ==> p[k] == ParityBits(bits)[k]
    {
      p := p + [ParityBit(crc, i)];
    }
  }

  /** `osmo_crc64gen_check_bits`: 0 if the parity matches. */
  method CrcCheck(bits: seq<Bit>, p: seq<Bit>) returns (rv: int)
    requires |p| == 40
    ensures rv == if p == ParityBits(bits) then 0 else 1
  {
    var crc := CrcCompute(bits);
    for i := 0 to 40
      invariant forall k :: 0 <= k < i ==> p[k] == ParityBits(bits)[k]
    {
      if p[i] != ParityBit(crc, i) {
        return 1;
      }
    }
    rv := 0;
  }

  // ---------------------------------------------------------------------------
  // The generator polynomial

  /** x^40 + x^26 + x^23 + x^17 + x^3 + 1, section 4.1.2 of 3GPP TS 45.003. */
  const FIRE: Poly := [
    true, false, false, false, false, false, false, false, false, false, false, false,
    false, false, true, false, false, true, false, false, false, false, false, true,
    false, false, false, false, false, false, false, false, false, false, false, false,
    false, true, false, false, true]

  lemma FireIsGenerator()
    ensures |FIRE| == 41 && Generator(FIRE)
  {
  }

  // ---------------------------------------------------------------------------
  // The register of the source against the register of the division

  function Mask(i: nat): bv64 {
    if i == 0 then FIRE_TOP else Mask(i - 1) >> 1
  }

  predicate Has(x: bv64, m: bv64) {
    x & m != 0
  }

  function Bits40(x: bv64): (b: Poly)
    ensures |b| == 40
  {
    seq(40, i requires 0 <= i < 40 => Has(x, Mask(i)))
  }

  lemma MaskValues()
    ensures Mask(0) == 0x8000000000 && Mask(1) == 0x4000000000 && Mask(2) == 0x2000000000 && Mask(3) == 0x1000000000
    ensures Mask(4) == 0x0800000000 && Mask(5) == 0x0400000000 && Mask(6) == 0x0200000000 && Mask(7) == 0x0100000000
    ensures Mask(8) == 0x0080000000 && Mask(9) == 0x0040000000 && Mask(10) == 0x0020000000 && Mask(11) == 0x0010000000
    ensures Mask(12) == 0x0008000000 && Mask(13) == 0x0004000000 && Mask(14) == 0x0002000000 && Mask(15) == 0x0001000000
    ensures Mask(16) == 0x0000800000 && Mask(17) == 0x0000400000 && Mask(18) == 0x0000200000 && Mask(19) == 0x0000100000
    ensures Mask(20) == 0x0000080000 && Mask(21) == 0x0000040000 && Mask(22) == 0x0000020000 && Mask(23) == 0x0000010000
    ensures Mask(24) == 0x0000008000 && Mask(25) == 0x0000004000 && Mask(26) == 0x0000002000 && Mask(27) == 0x0000001000
    ensures Mask(28) == 0x0000000800 && Mask(29) == 0x0000000400 && Mask(30) == 0x0000000200 && Mask(31) == 0x0000000100
    ensures Mask(32) == 0x0000000080 && Mask(33) == 0x0000000040 && Mask(34) == 0x0000000020 && Mask(35) == 0x0000000010
    ensures Mask(36) == 0x0000000008 && Mask(37) == 0x0000000004 && Mask(38) == 0x0000000002 && Mask(39) == 0x0000000001
  {
    assert Mask(3) == 0x1000000000;
    assert Mask(7) == 0x0100000000;
    assert Mask(11) == 0x0010000000;
    assert Mask(15) == 0x0001000000;
    assert Mask(19) == 0x0000100000;
    assert Mask(23) == 0x0000010000;
    assert Mask(27) == 0x0000001000;
    assert Mask(31) == 0x0000000100;
    assert Mask(35) == 0x0000000010;
    assert Mask(39) == 0x0000000001;
  }

  predicate Single(m: bv64) {
    m != 0 && m & (m - 1) == 0 && m & FIRE_MASK == m
  }

  lemma {:induction false} MaskSingle(i: nat)
    requires i < 40
    ensures Single(Mask(i)) && (i < 39 ==> Mask(i + 1) << 1 == Mask(i))
  {
    if i < 20 {
      HighMask(i);
    } else {
      LowMask(i);
    }
  }

  lemma {:induction false} HighMask(i: nat)
    requires i < 20
    ensures Single(Mask(i)) && Mask(i + 1) << 1 == Mask(i)
  {
    MaskValues();
  }

  lemma {:induction false} LowMask(i: nat)
    requires 20 <= i < 40
    ensures Single(Mask(i)) && (i < 39 ==> Mask(i + 1) << 1 == Mask(i))
  {
    MaskValues();
  }

  lemma HasHalf(x: bv64, m: bv64)
    requires Single(m)
    ensures Has(x >> 1, m) == Has(x, m << 1)
  {
  }

  lemma {:induction false} ShiftedHas(x: bv64, k: nat, i: nat)
    requires k <= i < 40
    ensures Has(ShiftRight(x, k), Mask(i)) == Has(x, Mask(i - k))
    decreases k
  {
    if k == 0 {
    } else {
      MaskSingle(i);
      MaskSingle(i - 1);
      HasHalf(ShiftRight(x, k - 1), Mask(i));
      ShiftedHas(x, k - 1, i - 1);
    }
  }

  lemma {:induction false} ParityBitHas(crc: bv64, i: nat)
    requires i < 40
    ensures (ParityBit(crc, i) == 1) == Has(crc, Mask(i))
  {
    ShiftedHas(crc, 39 - i, 39);
    MaskValues();
    LowestBit(ShiftRight(crc, 39 - i));
  }

  lemma LowestBit(x: bv64)
    ensures Has(x, 1) == (x & 1 == 1)
  {
  }

  lemma HasXor(x: bv64, y: bv64, m: bv64)
    requires Single(m)
    ensures Has(x ^ y, m) == (Has(x, m) != Has(y, m))
  {
  }

  lemma {:induction false} XorBits40(x: bv64, y: bv64)
    ensures Bits40(x ^ y) == Xor(Bits40(x), Bits40(y))
  {
    forall i | 0 <= i < 40
      ensures Bits40(x ^ y)[i] == Xor(Bits40(x), Bits40(y))[i]
    {
      MaskSingle(i);
      HasXor(x, y, Mask(i));
    }
  }

  function Doubled(x: bv64): bv64 {
    (x << 1) & FIRE_MASK
  }

  lemma HasDouble(x: bv64, m: bv64)
    requires Single(m) && Single(m << 1)
    ensures Has(Doubled(x), m << 1) == Has(x, m)
  {
  }

  lemma NoneLow(x: bv64)
    ensures !Has(Doubled(x), 1)
  {
  }

  lemma {:induction false} DoubleBit(x: bv64, i: nat)
    requires i < 40
    ensures Has(Doubled(x), Mask(i)) == (i < 39 && Has(x, Mask(i + 1)))
  {
    if i < 39 {
      MaskSingle(i);
      MaskSingle(i + 1);
      HasDouble(x, Mask(i + 1));
    } else {
      MaskValues();
      NoneLow(x);
    }
  }

  lemma {:induction false} DoubleBits(x: bv64)
    ensures Bits40(Doubled(x)) == Bits40(x)[1..] + [false]
  {
    forall i | 0 <= i < 40
      ensures Bits40(Doubled(x))[i] == (Bits40(x)[1..] + [false])[i]
    {
      DoubleBit(x, i);
    }
  }

  /** The constant of the source is this polynomial. */
  lemma {:induction false} PolyBits40()
    ensures Bits40(FIRE_POLY) == FIRE[1..]
  {
    FireIsGenerator();
    forall i | 0 <= i < 40
      ensures Bits40(FIRE_POLY)[i] == FIRE[i + 1]
    {
      PolyBit(i);
    }
  }

  lemma {:induction false} PolyBit(i: nat)
    requires i < 40
    ensures |FIRE| == 41 && Has(FIRE_POLY, Mask(i)) == FIRE[i + 1]
  {
    FireIsGenerator();
    MaskValues();
  }

  lemma {:induction false} ZeroBits40()
    ensures Bits40(0) == Zeros(40)
  {
    forall i | 0 <= i < 40
      ensures !Bits40(0)[i]
    {
      NoBit(Mask(i));
    }
  }

  lemma NoBit(m: bv64)
    ensures !Has(0, m)
  {
  }

  lemma TopFlips(crc: bv64)
    ensures Doubled(crc ^ FIRE_TOP) == Doubled(crc) && Has(crc ^ FIRE_TOP, FIRE_TOP) == !Has(crc, FIRE_TOP)
  {
  }

  lemma PolyInside(c: bv64)
    ensures ((c << 1) ^ FIRE_POLY) & FIRE_MASK == Doubled(c) ^ FIRE_POLY
  {
  }

  lemma OutCases(c: bv64)
    ensures ShiftOut(c) == if Has(c, FIRE_TOP) then Doubled(c) ^ FIRE_POLY else Doubled(c)
  {
    PolyInside(c);
  }

  lemma StepCases(crc: bv64, bit: Bit)
    ensures CrcStep(crc, bit) == if Has(crc, FIRE_TOP) != (bit == 1) then Doubled(crc) ^ FIRE_POLY else Doubled(crc)
  {
    if bit == 1 {
      TopFlips(crc);
      OutCases(crc ^ FIRE_TOP);
    } else {
      OutCases(crc);
    }
  }

  /** The same on polynomials. */
  lemma ShiftIs(r: Poly, twice: Poly, y: Poly, d: bool)
    requires |r| == |twice| == |y| == 40 && twice == r[1..] + [false] && |FIRE| == 41
    requires y == if r[0] != d then Xor(twice, FIRE[1..]) else twice
    ensures y == Shift(FIRE, r, d)
  {
    XorZeros(twice);
  }

  lemma {:induction false} StepIsShift(crc: bv64, bit: Bit)
    ensures |FIRE| == 41 && Bits40(CrcStep(crc, bit)) == Shift(FIRE, Bits40(crc), bit == 1)
  {
    FireIsGenerator();
    StepCases(crc, bit);
    DoubleBits(crc);
    PolyBits40();
    XorBits40(Doubled(crc), FIRE_POLY);
    FirstBit(crc);
    ShiftIs(Bits40(crc), Bits40(Doubled(crc)), Bits40(CrcStep(crc, bit)), bit == 1);
  }

  lemma FirstBit(x: bv64)
    ensures Bits40(x)[0] == Has(x, FIRE_TOP)
  {
  }

  lemma {:induction false} CrcIsRegister(bits: seq<Bit>)
    ensures |FIRE| == 41 && Bits40(CrcOf(bits)) == Register(FIRE, Zeros(40), Bools(bits))
    decreases |bits|
  {
    FireIsGenerator();
    if bits == [] {
      ZeroBits40();
    } else {
      var n := |bits| - 1;
      CrcIsRegister(bits[..n]);
      assert Bools(bits)[..n] == Bools(bits[..n]);
      OneMoreStep(CrcOf(bits[..n]), bits[n], Register(FIRE, Zeros(40), Bools(bits[..n])));
    }
  }

  lemma {:induction false} OneMoreStep(crc: bv64, bit: Bit, r: Poly)
    requires Bits40(crc) == r
    ensures |FIRE| == 41 && Bits40(CrcStep(crc, bit)) == Shift(FIRE, r, bit == 1)
  {
    StepIsShift(crc, bit);
  }

  // ---------------------------------------------------------------------------
  // What the parity is

  function Complement(p: Poly): (c: Poly)
    ensures |c| == |p|
  {
    seq(|p|, i requires 0 <= i < |p| => !p[i])
  }

  lemma {:induction false} ParityIsComplement(bits: seq<Bit>)
    ensures Bools(ParityBits(bits)) == Complement(Bits40(CrcOf(bits)))
  {
    BitsComplement(CrcOf(bits), ParityBits(bits));
  }

  lemma {:induction false} BitsComplement(crc: bv64, p: seq<Bit>)
    requires |p| == 40 && forall i :: 0 <= i < 40 ==> p[i] == ParityBit(crc ^ FIRE_REMAINDER, i)
    ensures Bools(p) == Complement(Bits40(crc))
  {
    forall i | 0 <= i < 40
      ensures Bools(p)[i] == !Bits40(crc)[i]
    {
      ComplementBit(crc, i);
    }
  }

  lemma {:induction false} ParityComplements(bits: seq<Bit>)
    ensures |FIRE| == 41 && Bools(ParityBits(bits)) == Complement(Register(FIRE, Zeros(40), Bools(bits)))
  {
    CrcIsRegister(bits);
    ParityIsComplement(bits);
  }

  lemma {:induction false} ComplementBit(crc: bv64, i: nat)
    requires i < 40
    ensures (ParityBit(crc ^ FIRE_REMAINDER, i) == 1) == !Bits40(crc)[i]
  {
    MaskSingle(i);
    ParityBitHas(crc ^ FIRE_REMAINDER, i);
    HasXor(crc, FIRE_REMAINDER, Mask(i));
    AllBits(Mask(i));
  }

  lemma AllBits(m: bv64)
    requires Single(m)
    ensures Has(FIRE_REMAINDER, m)
  {
  }

  /** A block with its parity: block and complemented parity together are a multiple of the polynomial. */
  ghost predicate Protects(bits: seq<Bit>, p: seq<Bit>) {
    |FIRE| >= 1 && Multiple(FIRE, Bools(bits) + Complement(Bools(p)))
  }

  /** The parity is the only one that does. */
  lemma {:induction false} ParityExactly(bits: seq<Bit>, p: seq<Bit>)
    requires |p| == 40
    ensures p == ParityBits(bits) <==> Protects(bits, p)
  {
    FireIsGenerator();
    ParityComplements(bits);
    var r := Register(FIRE, Zeros(40), Bools(bits));
    RemainderUnique(FIRE, Bools(bits), Complement(Bools(p)));
    ComplementTwice(r);
    if Complement(Bools(p)) == r {
      ComplementTwice(Bools(p));
      SameBools(p, ParityBits(bits));
    }
  }

  lemma ComplementTwice(p: Poly)
    ensures Complement(Complement(p)) == p
  {
  }

  lemma SameBools(u: seq<Bit>, v: seq<Bit>)
    requires |u| == |v| && Bools(u) == Bools(v)
    ensures u == v
  {
    forall i | 0 <= i < |u|
      ensures u[i] == v[i]
    {
      assert Bools(u)[i] == Bools(v)[i];
    }
  }

  /** The places in which two words differ. */
  function Difference(u: seq<Bit>, v: seq<Bit>): (e: Poly)
    requires |u| == |v|
    ensures |e| == |u|
  {
    Xor(Bools(u), Bools(v))
  }

  lemma {:induction false} DifferenceNonZero(u: seq<Bit>, v: seq<Bit>)
    requires |u| == |v| && u != v
    ensures Difference(u, v) != Zeros(|u|)
  {
    if Difference(u, v) == Zeros(|u|) {
      forall i | 0 <= i < |u|
        ensures u[i] == v[i]
      {
        assert Difference(u, v)[i] == Zeros(|u|)[i];
      }
    }
  }

  /** A protected word that is changed has its parity exactly if the change is a multiple of the polynomial. */
  lemma {:induction false} ChangedWord(u: seq<Bit>, v: seq<Bit>, n: nat)
    requires |u| == |v| == n + 40 && u[n..] == ParityBits(u[..n])
    ensures |FIRE| == 41 && (v[n..] == ParityBits(v[..n]) <==> Multiple(FIRE, Difference(u, v)))
  {
    FireIsGenerator();
    ParityExactly(u[..n], u[n..]);
    ParityExactly(v[..n], v[n..]);
    var a, b := Bools(u[..n]) + Complement(Bools(u[n..])), Bools(v[..n]) + Complement(Bools(v[n..]));
    assert Xor(a, b) == Difference(u, v);
    MultipleSum(FIRE, a, b);
  }

  /** A burst of up to 40 bits is always seen. */
  lemma {:induction false} BurstSeen(u: seq<Bit>, v: seq<Bit>, n: nat, from: nat)
    requires |u| == |v| == n + 40 && u[n..] == ParityBits(u[..n])
    requires u != v && Burst(Difference(u, v), from, 40)
    ensures v[n..] != ParityBits(v[..n])
  {
    FireIsGenerator();
    ChangedWord(u, v, n);
    DifferenceNonZero(u, v);
    BurstIsNoMultiple(FIRE, Difference(u, v), from);
  }

  /** Two blocks that differ in a burst of at most 40 bits have different parity. */
  lemma {:induction false} ParityTells(a: seq<Bit>, b: seq<Bit>, from: nat)
    requires |a| == |b| && a != b && Burst(Difference(a, b), from, 40)
    ensures ParityBits(a) != ParityBits(b)
  {
    FireIsGenerator();
    DifferenceNonZero(a, b);
    BurstChangesRegister(FIRE, Zeros(40), Bools(a), Bools(b), from);
    ParityComplements(a);
    ParityComplements(b);
    ComplementTwice(Register(FIRE, Zeros(40), Bools(a)));
    ComplementTwice(Register(FIRE, Zeros(40), Bools(b)));
  }
}
