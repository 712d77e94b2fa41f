/** What the frame check sequence of src/core/crc16.c and src/core/isdnhdlc.c is worth: the check bytes are a remainder
    of polynomial division, and a frame damaged by a burst of at most 16 bits is refused. */
module HdlcCheck {
  import opened Gf2
  import opened HdlcFrame
  import opened HdlcDecoder
  import opened HdlcEncoder
  import opened HdlcLink

  /** x^16 + x^12 + x^5 + 1, section 2.7 of ITU-T Q.921. */
  const FCS_POLY: Poly := [true, false, false, false, true, false, false, false, false, false, false, true,
                           false, false, false, false, true]

  lemma PolyIsGenerator()
    ensures |FCS_POLY| == 17 && Generator(FCS_POLY)
  {
  }

  // ---------------------------------------------------------------------------
  // The register of the table against the register of the division

  function Mask(i: nat): bv16 {
    if i == 0 then 0x0001 else Mask(i - 1) << 1
  }

  predicate Has(x: bv16, m: bv16) {
    x & m != 0
  }

  /** The checksum as a remainder: its lowest bit belongs to the highest power. */
  function Bits16(x: bv16): (b: Poly)
    ensures |b| == 16
  {
    seq(16, i requires 0 <= i < 16 => Has(x, Mask(i)))
  }

  predicate Single(m: bv16) {
    m & (m - 1) == 0
  }

  lemma SingleNext(m: bv16)
    requires Single(m)
    ensures Single(m << 1)
  {
  }

  lemma {:induction false} MaskSingle(i: nat)
    ensures Single(Mask(i))
  {
    if i == 0 {
    } else {
      MaskSingle(i - 1);
      SingleNext(Mask(i - 1));
    }
  }

  lemma HasXor(x: bv16, y: bv16, m: bv16)
    requires Single(m)
    ensures Has(x ^ y, m) == (Has(x, m) != Has(y, m))
  {
  }

  lemma {:induction false} XorBits16(x: bv16, y: bv16)
    ensures Bits16(x ^ y) == Xor(Bits16(x), Bits16(y))
  {
    forall i | 0 <= i < 16
      ensures Bits16(x ^ y)[i] == Xor(Bits16(x), Bits16(y))[i]
    {
      MaskSingle(i);
      HasXor(x, y, Mask(i));
    }
  }

  lemma HasHalf(x: bv16, m: bv16)
    ensures m & 0x8000 == 0 ==> Has(x >> 1, m) == Has(x, m << 1)
    ensures !Has(x >> 1, 0x8000)
  {
  }

  lemma MaskValues()
    ensures Mask(0) == 0x0001 && Mask(1) == 0x0002 && Mask(2) == 0x0004 && Mask(3) == 0x0008
    ensures Mask(4) == 0x0010 && Mask(5) == 0x0020 && Mask(6) == 0x0040 && Mask(7) == 0x0080
    ensures Mask(8) == 0x0100 && Mask(9) == 0x0200 && Mask(10) == 0x0400 && Mask(11) == 0x0800
    ensures Mask(12) == 0x1000 && Mask(13) == 0x2000 && Mask(14) == 0x4000 && Mask(15) == 0x8000
  {
    assert Mask(3) == 0x0008;
    assert Mask(7) == 0x0080;
    assert Mask(11) == 0x0800;
  }

  lemma {:induction false} LowMask(i: nat)
    requires i < 15
    ensures Mask(i) & 0x8000 == 0
  {
    MaskValues();
  }

  lemma {:induction false} HalfBit(x: bv16, i: nat)
    requires i < 16
    ensures Has(x >> 1, Mask(i)) == (i < 15 && Has(x, Mask(i + 1)))
  {
    HasHalf(x, Mask(i));
    if i < 15 {
      LowMask(i);
    } else {
      MaskValues();
    }
  }

  lemma {:induction false} HalfBits16(x: bv16)
    ensures Bits16(x >> 1) == Bits16(x)[1..] + [false]
  {
    forall i | 0 <= i < 16
      ensures Bits16(x >> 1)[i] == (Bits16(x)[1..] + [false])[i]
    {
      HalfBit(x, i);
    }
  }

  /** The polynomial of the table is this one. */
  lemma {:induction false} PolyBits16()
    ensures Bits16(0x8408) == FCS_POLY[1..]
  {
    MaskValues();
    PolyIsGenerator();
    forall i | 0 <= i < 16
      ensures Bits16(0x8408)[i] == FCS_POLY[i + 1]
    {
      assert Bits16(0x8408)[i] == Has(0x8408, Mask(i));
    }
  }

  /** The same on polynomials. */
  lemma ShiftIs(r: Poly, half: Poly, y: Poly)
    requires |r| == |half| == |y| == 16 && half == r[1..] + [false] && |FCS_POLY| == 17
    requires y == if r[0] then Xor(half, FCS_POLY[1..]) else half
    ensures y == Shift(FCS_POLY, r, false)
  {
    XorZeros(half);
  }

  lemma FirstBit(x: bv16)
    ensures Bits16(x)[0] == (x & 1 == 1)
  {
    assert x & 1 == 0 || x & 1 == 1;
  }

  /** A division step of the table is a shift of the register. */
  lemma {:induction false} StepIsShift(x: bv16)
    ensures |FCS_POLY| == 17 && Bits16(CrcShift(x)) == Shift(FCS_POLY, Bits16(x), false)
  {
    PolyIsGenerator();
    HalfBits16(x);
    PolyBits16();
    XorBits16(x >> 1, 0x8408);
    FirstBit(x);
    ShiftIs(Bits16(x), Bits16(x >> 1), Bits16(CrcShift(x)));
  }

  lemma {:induction false} StepsAreShifts(x: bv16, n: nat)
    ensures |FCS_POLY| == 17 && Bits16(CrcShifts(x, n)) == Register(FCS_POLY, Bits16(x), Zeros(n))
  {
    PolyIsGenerator();
    if n == 0 {
    } else {
      StepsAreShifts(x, n - 1);
      assert Zeros(n)[..n - 1] == Zeros(n - 1);
      OneMoreShift(CrcShifts(x, n - 1), Register(FCS_POLY, Bits16(x), Zeros(n - 1)));
    }
  }

  lemma {:induction false} OneMoreShift(y: bv16, r: Poly)
    requires Bits16(y) == r
    ensures |FCS_POLY| == 17 && Bits16(CrcShift(y)) == Shift(FCS_POLY, r, false)
  {
    StepIsShift(y);
  }

  // ---------------------------------------------------------------------------
  // A byte is eight such steps

  lemma HasHigh(x: bv16, m: bv16)
    ensures m & 0xff00 == 0 ==> Has(x >> 8, m) == Has(x, m << 8)
    ensures m & 0x00ff == 0 ==> !Has(x >> 8, m)
  {
  }

  lemma {:induction false} HighBit(x: bv16, i: nat)
    requires i < 16
    ensures Has(x >> 8, Mask(i)) == (i < 8 && Has(x, Mask(i + 8)))
  {
    MaskValues();
    HasHigh(x, Mask(i));
  }

  lemma {:induction false} HighBits(x: bv16)
    ensures Bits16(x >> 8) == Bits16(x)[8..] + Zeros(8)
  {
    forall i | 0 <= i < 16
      ensures Bits16(x >> 8)[i] == (Bits16(x)[8..] + Zeros(8))[i]
    {
      HighBit(x, i);
    }
  }

  function Index(crc: bv16, v: bv8): bv8 {
    (crc & 0xff) as bv8 ^ v
  }

  function Mask8(i: nat): bv8 {
    if i == 0 then 0x01 else Mask8(i - 1) << 1
  }

  lemma Mask8Values()
    ensures Mask8(0) == 0x01 && Mask8(1) == 0x02 && Mask8(2) == 0x04 && Mask8(3) == 0x08
    ensures Mask8(4) == 0x10 && Mask8(5) == 0x20 && Mask8(6) == 0x40 && Mask8(7) == 0x80
  {
    assert Mask8(3) == 0x08;
  }

  lemma IndexHas(crc: bv16, v: bv8, m: bv8)
    requires m & (m - 1) == 0
    ensures Has(Index(crc, v) as bv16, m as bv16) == (Has(crc, m as bv16) != (v & m != 0))
  {
  }

  lemma {:induction false} IndexBit(crc: bv16, v: bv8, i: nat)
    requires i < 8
    ensures Has(Index(crc, v) as bv16, Mask(i)) == (Has(crc, Mask(i)) != LsbFirst(v)[i])
  {
    MaskValues();
    Mask8Values();
    IndexHas(crc, v, Mask8(i));
  }

  lemma {:induction false} IndexNoBit(w: bv8, i: nat)
    requires 8 <= i < 16
    ensures !Has(w as bv16, Mask(i))
  {
    MaskValues();
  }

  lemma {:induction false} IndexBits(crc: bv16, v: bv8)
    ensures Bits16(Index(crc, v) as bv16) == Xor(Bits16(crc)[..8], LsbFirst(v)) + Zeros(8)
  {
    forall i | 0 <= i < 16
      ensures Bits16(Index(crc, v) as bv16)[i] == (Xor(Bits16(crc)[..8], LsbFirst(v)) + Zeros(8))[i]
    {
      if i < 8 {
        IndexBit(crc, v, i);
      } else {
        IndexNoBit(Index(crc, v), i);
      }
    }
  }

  /** Eight bits at once, on polynomials. */
  lemma {:induction false} EightAtOnce(r: Poly, w: Poly)
    requires |r| == 16 && |w| == 8
    ensures |FCS_POLY| == 17
    ensures Register(FCS_POLY, r, w) ==
            Xor(r[8..] + Zeros(8), Register(FCS_POLY, Xor(r[..8], w) + Zeros(8), Zeros(8)))
  {
    PolyIsGenerator();
    DataAtOnce(FCS_POLY, r, w);
    var low, high := Xor(r[..8], w) + Zeros(8), Zeros(8) + r[8..];
    assert Xor(r, w + Zeros(8)) == Xor(high, low);
    XorSelf(Zeros(8));
    RegisterSum(FCS_POLY, high, low, Zeros(8), Zeros(8));
    NoFeedback(FCS_POLY, r[8..], 8);
  }

  lemma {:induction false} TableBits(i: bv8)
    ensures |FCS_POLY| == 17 && Bits16(CrcTable(i)) == Register(FCS_POLY, Bits16(i as bv16), Zeros(8))
  {
    StepsAreShifts(i as bv16, 8);
  }

  lemma {:induction false} ByteParts(crc: bv16, v: bv8)
    ensures Bits16(CrcByte(crc, v)) == Xor(Bits16(crc >> 8), Bits16(CrcTable(Index(crc, v))))
  {
    XorBits16(crc >> 8, CrcTable(Index(crc, v)));
  }

  lemma {:induction false} ByteIsRegister(crc: bv16, v: bv8)
    ensures |FCS_POLY| == 17 && Bits16(CrcByte(crc, v)) == Register(FCS_POLY, Bits16(crc), LsbFirst(v))
  {
    ByteParts(crc, v);
    HighBits(crc);
    IndexBits(crc, v);
    TableBits(Index(crc, v));
    EightAtOnce(Bits16(crc), LsbFirst(v));
  }

  /** `osmo_crc16_ccitt`, table and all, is the division of the data bits by the polynomial. */
  lemma {:induction false} RunIsRegister(crc: bv16, bytes: seq<bv8>)
    ensures |FCS_POLY| == 17 && Bits16(CrcRun(crc, bytes)) == Register(FCS_POLY, Bits16(crc), DataBits(bytes))
    decreases |bytes|
  {
    PolyIsGenerator();
    if bytes == [] {
    } else {
      var n := |bytes| - 1;
      RunIsRegister(crc, bytes[..n]);
      ByteIsRegister(CrcRun(crc, bytes[..n]), bytes[n]);
      RegisterAppend(FCS_POLY, Bits16(crc), DataBits(bytes[..n]), LsbFirst(bytes[n]));
    }
  }

  // ---------------------------------------------------------------------------
  // What the receiver makes of a frame

  lemma {:induction false} SameByteBits(v: bv8, w: bv8)
    requires LsbFirst(v) == LsbFirst(w)
    ensures v == w
  {
    SameByte(v, w);
  }

  lemma {:induction false} DataBitsLength(a: seq<bv8>)
    ensures |DataBits(a)| == 8 * |a|
  {
    if a == [] {
    } else {
      DataBitsLength(a[..|a| - 1]);
    }
  }

  lemma {:induction false} DataBitsAppend(a: seq<bv8>, b: seq<bv8>)
    ensures DataBits(a + b) == DataBits(a) + DataBits(b)
    decreases |b|
  {
    if b == [] {
      assert a + b == a && DataBits(a) + [] == DataBits(a);
    } else {
      var n := |b| - 1;
      assert (a + b)[..|a + b| - 1] == a + b[..n];
      DataBitsAppend(a, b[..n]);
      Associative(DataBits(a), DataBits(b[..n]), LsbFirst(b[n]));
    }
  }

  lemma {:induction false} SameDataBits(a: seq<bv8>, b: seq<bv8>)
    requires |a| == |b| && DataBits(a) == DataBits(b)
    ensures a == b
    decreases |a|
  {
    if a == [] {
    } else {
      var n := |a| - 1;
      DataBitsLength(a[..n]);
      DataBitsLength(b[..n]);
      SameHalves(DataBits(a[..n]), LsbFirst(a[n]), DataBits(b[..n]), LsbFirst(b[n]));
      SameDataBits(a[..n], b[..n]);
      SameByteBits(a[n], b[n]);
      assert a == a[..n] + [a[n]] && b == b[..n] + [b[n]];
    }
  }

  lemma SameHalves(a: Poly, b: Poly, c: Poly, d: Poly)
    requires |a| == |c| && a + b == c + d
    ensures a == c && b == d
  {
    assert a == (a + b)[..|a|] && c == (c + d)[..|c|] && b == (a + b)[|a|..] && d == (c + d)[|c|..];
  }

  /** The bits in which two frames differ. */
  function Difference(a: seq<bv8>, b: seq<bv8>): (e: Poly)
    requires |a| == |b|
  {
    DataBitsLength(a);
    DataBitsLength(b);
    Xor(DataBits(a), DataBits(b))
  }

  /** Two frames have the same checksum exactly if their difference is a multiple of the polynomial. */
  lemma {:induction false} SameCrc(crc: bv16, a: seq<bv8>, b: seq<bv8>)
    requires |a| == |b|
    ensures CrcRun(crc, a) == CrcRun(crc, b) <==> Multiple(FCS_POLY, Difference(a, b) + Zeros(16))
  {
    PolyIsGenerator();
    DataBitsLength(a);
    DataBitsLength(b);
    RunIsRegister(crc, a);
    RunIsRegister(crc, b);
    SameRegister(FCS_POLY, Bits16(crc), DataBits(a), DataBits(b));
    EqualBits(CrcRun(crc, a), CrcRun(crc, b));
  }

  lemma {:induction false} EqualBits(x: bv16, y: bv16)
    ensures x == y <==> Bits16(x) == Bits16(y)
  {
    if Bits16(x) == Bits16(y) {
      forall i | 0 <= i < 16
        ensures !Has(x ^ y, Mask(i))
      {
        assert Bits16(x)[i] == Bits16(y)[i];
        MaskSingle(i);
        HasXor(x, y, Mask(i));
      }
      NoBits(x ^ y);
      NoDifference(x, y);
    }
  }

  lemma NoDifference(x: bv16, y: bv16)
    requires x ^ y == 0
    ensures x == y
  {
  }

  lemma {:induction false} NoBits(z: bv16)
    requires forall i :: 0 <= i < 16 ==> !Has(z, Mask(i))
    ensures z == 0
  {
    MaskValues();
    NoMasks(z);
  }

  lemma NoMasks(z: bv16)
    ensures z == 0 || Has(z, 0x0001) || Has(z, 0x0002) || Has(z, 0x0004) || Has(z, 0x0008)
         || Has(z, 0x0010) || Has(z, 0x0020) || Has(z, 0x0040) || Has(z, 0x0080)
         || Has(z, 0x0100) || Has(z, 0x0200) || Has(z, 0x0400) || Has(z, 0x0800)
         || Has(z, 0x1000) || Has(z, 0x2000) || Has(z, 0x4000) || Has(z, 0x8000)
  {
  }

  /** A burst of at most 16 bits changes the checksum. */
  lemma {:induction false} BurstChangesCrc(crc: bv16, a: seq<bv8>, b: seq<bv8>, from: nat)
    requires |a| == |b| && a != b && Burst(Difference(a, b), from, 16)
    ensures CrcRun(crc, a) != CrcRun(crc, b)
  {
    PolyIsGenerator();
    DataBitsLength(a);
    DataBitsLength(b);
    RunIsRegister(crc, a);
    RunIsRegister(crc, b);
    if DataBits(a) == DataBits(b) {
      SameDataBits(a, b);
    }
    BurstChangesRegister(FCS_POLY, Bits16(crc), DataBits(a), DataBits(b), from);
  }

  /** The residue is left exactly by payloads with their check bytes. */
  lemma {:induction false} ResidueExactly(bytes: seq<bv8>)
    requires |bytes| >= 2
    ensures CrcRun(0xffff, bytes) == 0xf0b8 <==> bytes == Frame(bytes[..|bytes| - 2])
  {
    var payload, check := bytes[..|bytes| - 2], bytes[|bytes| - 2..];
    var good := Frame(payload);
    FrameResidue(0xffff, payload);
    if bytes != good {
      assert bytes == payload + check && good == payload + good[|payload|..];
      DataBitsLength(payload);
      DataBitsAppend(payload, check);
      DataBitsAppend(payload, good[|payload|..]);
      forall i | 0 <= i < |Difference(bytes, good)| && Difference(bytes, good)[i]
        ensures 8 * |payload| <= i < 8 * |payload| + 16
      {
        DataBitsLength(bytes);
      }
      BurstChangesCrc(0xffff, bytes, good, 8 * |payload|);
    }
  }

  /** What is reported for any bytes between two flags: a payload only if the two bytes after it are its checksum. */
  function Verdict(bytes: seq<bv8>): seq<Report> {
    var n := |bytes| - 2;
    if bytes == [] then []
    else if n < 0 then [Report(-1, [])]
    else if bytes[n..] != CheckBytes(CrcRun(0xffff, bytes[..n])) then [Report(-2, [])]
    else if n == 0 then []
    else [Report(n, bytes[..n])]
  }

  lemma {:induction false} VerdictOfFrame(bytes: seq<bv8>)
    requires |bytes| >= 2
    ensures bytes == Frame(bytes[..|bytes| - 2]) <==>
            bytes[|bytes| - 2..] == CheckBytes(CrcRun(0xffff, bytes[..|bytes| - 2]))
  {
    var n := |bytes| - 2;
    assert bytes == bytes[..n] + bytes[n..];
  }

  /** What the receiver reports at the closing flag. */
  function Closing(rx: Rx): seq<Report> {
    if rx.got && CheckFrame(rx).status != 0 then [CheckFrame(rx)] else []
  }

  lemma {:induction false} ClosingIsVerdict(rx: Rx, bytes: seq<bv8>)
    requires rx.frame == bytes && rx.got == (bytes != []) && rx.crc == CrcRun(0xffff, bytes)
    ensures Closing(rx) == Verdict(bytes)
  {
    if |bytes| >= 2 {
      ResidueExactly(bytes);
      VerdictOfFrame(bytes);
    }
  }

  lemma {:induction false} FlagCloses(cap: nat, rx: Rx)
    requires rx.bits == 0 && rx.ones <= 4 && |rx.frame| <= cap
    ensures Carries(cap, rx, FLAG, OPENED, Closing(rx))
  {
    WholeFlag(rx);
    FlagClean(cap, rx, 8);
    assert FLAG[..8] == FLAG;
  }

  /** The bit-by-bit receiver on any bytes, stuffed and closed by a flag. */
  lemma {:induction false} ReceivedExactly(cap: nat, bytes: seq<bv8>)
    requires |bytes| <= cap
    ensures Carries(cap, OPENED, Body(bytes) + FLAG, OPENED, Verdict(bytes))
  {
    var end := BodyCarried(cap, OPENED, bytes);
    FlagCloses(cap, end);
    ClosingIsVerdict(end, bytes);
    CarriesMore(cap, OPENED, Body(bytes), end, [], FLAG, OPENED, Closing(end));
    NoneBefore(Closing(end));
  }

  lemma NoneBefore(reports: seq<Report>)
    ensures [] + reports == reports
  {
  }

  /** A damaged frame passes exactly if the damage is a multiple of the polynomial. */
  lemma {:induction false} UndetectedExactly(payload: seq<bv8>, bad: seq<bv8>)
    requires |bad| == |payload| + 2
    ensures Verdict(bad) != [Report(-2, [])] <==> Multiple(FCS_POLY, Difference(bad, Frame(payload)) + Zeros(16))
  {
    ResidueExactly(bad);
    VerdictOfFrame(bad);
    FrameResidue(0xffff, payload);
    SameCrc(0xffff, bad, Frame(payload));
  }

  /** Every change of bits within 16 in a row, in the payload or in the check bytes, is refused. */
  lemma {:induction false} DamageDetected(payload: seq<bv8>, bad: seq<bv8>, from: nat)
    requires |bad| == |payload| + 2 && bad != Frame(payload) && Burst(Difference(bad, Frame(payload)), from, 16)
    ensures Verdict(bad) == [Report(-2, [])]
  {
    BurstChangesCrc(0xffff, bad, Frame(payload), from);
    FrameResidue(0xffff, payload);
    ResidueExactly(bad);
    VerdictOfFrame(bad);
  }

  /** From end to end: any bytes between flags as octets on the line, in any split into chunks; after a burst of at
      most 16 bits the receiver reports a checksum error and no payload. */
  method ReceiveDamaged(bitreverse: bool, chunks: seq<seq<bv8>>, room: nat, ghost payload: seq<bv8>,
                        ghost bad: seq<bv8>, ghost from: nat, ghost n: nat, ghost idle: nat)
    returns (reports: seq<Report>)
    requires |bad| == |payload| + 2 <= room && n <= 7 && idle > 0
    requires Wire(bitreverse, Join(chunks)) == Padded(FlagEnd(8), Body(bad), n) + Repeat(RotatedFlag(n), idle)
    ensures reports == Verdict(bad)
    ensures bad != Frame(payload) && Burst(Difference(bad, Frame(payload)), from, 16) ==> reports == [Report(-2, [])]
  {
    ReceivedExactly(room, bad);
    PaddedBytes(room, 8, bad, n, Verdict(bad));
    FlagsCarried(room, n, idle);
    RepeatLength(RotatedFlag(n), idle);
    Settles(room, Padded(FlagEnd(8), Body(bad), n), IdleRx(n), Verdict(bad), Repeat(RotatedFlag(n), idle), IdleRx(n));
    reports := Receive(bitreverse, chunks, room, Verdict(bad));
    if bad != Frame(payload) && Burst(Difference(bad, Frame(payload)), from, 16) {
      DamageDetected(payload, bad, from);
    }
  }

  lemma {:induction false} RepeatLength(f: seq<bool>, n: nat)
    ensures |Repeat(f, n)| == n * |f|
  {
    if n == 0 {
    } else {
      RepeatLength(f, n - 1);
    }
  }
}
