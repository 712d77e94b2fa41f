/** HDLC frames as bit streams: flags, bit stuffing, the frame check sequence and the receiver's bit-by-bit
    behaviour, after sections 2.2, 2.6 and 2.7 of ITU-T Q.921 and src/core/isdnhdlc.c. */
module HdlcFrame {

  // ---------------------------------------------------------------------------
  // Frame check sequence: src/core/crc16.c, polynomial 0x8408

  function CrcShift(x: bv16): bv16 {
    if x & 1 == 1 then (x >> 1) ^ 0x8408 else x >> 1
  }

  function CrcShifts(x: bv16, n: nat): bv16 {
    if n == 0 then x else CrcShift(CrcShifts(x, n - 1))
  }

  const BYTE_BITS: nat := 8

  /** Entry `i` of osmo_crc16_ccitt_table: one division by the polynomial per bit of `i`. */
  function CrcTable(i: bv8): bv16 {
    CrcShifts(i as bv16, BYTE_BITS)
  }

  lemma {:induction false} TwoEntries()
    ensures CrcTable(0xff) == 0x0f78 && CrcTable(0x87) == 0xf0b7
  {
    assert CrcShifts(0xff, 1) == 0x8477 && CrcShifts(0xff, 2) == 0xc633 && CrcShifts(0xff, 3) == 0xe711;
    assert CrcShifts(0xff, 4) == 0xf780 && CrcShifts(0xff, 5) == 0x7bc0 && CrcShifts(0xff, 6) == 0x3de0;
    assert CrcShifts(0xff, 7) == 0x1ef0;
    assert CrcShifts(0x87, 1) == 0x844b && CrcShifts(0x87, 2) == 0xc62d && CrcShifts(0x87, 3) == 0xe71e;
    assert CrcShifts(0x87, 4) == 0x738f && CrcShifts(0x87, 5) == 0xbdcf && CrcShifts(0x87, 6) == 0xdaef;
    assert CrcShifts(0x87, 7) == 0xe97f;
  }

  /** `osmo_crc16_ccitt_byte`. */
  function CrcByte(crc: bv16, data: bv8): bv16 {
    (crc >> 8) ^ CrcTable((crc & 0xff) as bv8 ^ data)
  }

  /** `osmo_crc16_ccitt`. */
  function CrcRun(crc: bv16, bytes: seq<bv8>): bv16 {
    if bytes == [] then crc else CrcByte(CrcRun(crc, bytes[..|bytes| - 1]), bytes[|bytes| - 1])
  }

  /** The two check bytes: the complement, low byte first. */
  function CheckBytes(crc: bv16): (c: seq<bv8>)
    ensures |c| == 2
  {
    [((crc ^ 0xffff) & 0xff) as bv8, ((crc ^ 0xffff) >> 8) as bv8]
  }

  lemma FirstIndex(crc: bv16)
    ensures ((crc & 0xff) as bv8) ^ (((crc ^ 0xffff) & 0xff) as bv8) == 0xff
  {
  }

  lemma SecondIndex(crc: bv16)
    ensures var one := (crc >> 8) ^ 0x0f78;
            ((one & 0xff) as bv8) ^ (((crc ^ 0xffff) >> 8) as bv8) == 0x87 && one >> 8 == 0x000f
  {
  }

  /** A frame with its check bytes leaves the residue 0xf0b8. */
  lemma {:induction false} Residue(crc: bv16)
    ensures CrcByte(CrcByte(crc, CheckBytes(crc)[0]), CheckBytes(crc)[1]) == 0xf0b8
  {
    TwoEntries();
    FirstIndex(crc);
    SecondIndex(crc);
    var one := (crc >> 8) ^ 0x0f78;
    assert CrcByte(crc, CheckBytes(crc)[0]) == one;
    assert CrcByte(one, CheckBytes(crc)[1]) == (one >> 8) ^ CrcTable(0x87);
  }

  lemma {:induction false} FrameResidue(crc: bv16, bytes: seq<bv8>)
    ensures CrcRun(crc, bytes + CheckBytes(CrcRun(crc, bytes))) == 0xf0b8
  {
    var check := CheckBytes(CrcRun(crc, bytes));
    assert (bytes + check)[..|bytes| + 1] == bytes + [check[0]];
    assert (bytes + [check[0]])[..|bytes|] == bytes;
    Residue(CrcRun(crc, bytes));
  }

  // ---------------------------------------------------------------------------
  // Bytes as bits

  function LsbFirst(v: bv8): (b: seq<bool>)
    ensures |b| == 8
  {
    [v & 0x01 != 0, v & 0x02 != 0, v & 0x04 != 0, v & 0x08 != 0,
     v & 0x10 != 0, v & 0x20 != 0, v & 0x40 != 0, v & 0x80 != 0]
  }

  function MsbFirst(v: bv8): (b: seq<bool>)
    ensures |b| == 8
  {
    [v & 0x80 != 0, v & 0x40 != 0, v & 0x20 != 0, v & 0x10 != 0,
     v & 0x08 != 0, v & 0x04 != 0, v & 0x02 != 0, v & 0x01 != 0]
  }

  /** The data bits of a byte string, each byte low bit first. */
  function DataBits(bytes: seq<bv8>): seq<bool> {
    if bytes == [] then [] else DataBits(bytes[..|bytes| - 1]) + LsbFirst(bytes[|bytes| - 1])
  }

  // ---------------------------------------------------------------------------
  // Bit stuffing

  const FLAG := [false, true, true, true, true, true, true, false]

  /** Stuffed bits and the number of ones they end with. */
  datatype Stuffing = Stuffing(bits: seq<bool>, ones: nat)

  /** One more data bit; the fifth one in a row is followed by a 0. */
  function Stuff(s: Stuffing, b: bool): Stuffing {
    if !b then Stuffing(s.bits + [false], 0)
    else if s.ones == 4 then Stuffing(s.bits + [true, false], 0)
    else Stuffing(s.bits + [true], s.ones + 1)
  }

  function Stuffed(bits: seq<bool>): (s: Stuffing)
    ensures s.ones <= 4
  {
    if bits == [] then Stuffing([], 0) else Stuff(Stuffed(bits[..|bits| - 1]), bits[|bits| - 1])
  }

  // ---------------------------------------------------------------------------
  // The receiver, bit by bit

  /** Ones seen in a row, bits of the current byte, shift register, running CRC, "a byte of this frame was
      received", and the bytes received. */
  datatype Rx = Rx(ones: nat, bits: nat, reg: bv8, crc: bv16, got: bool, frame: seq<bv8>)

  const START := Rx(0, 0, 0, 0, false, [])
  const OPENED := Rx(0, 0, 0, 0xffff, false, [])

  /** What the receiver reports: a positive length with the payload, or a negative error. */
  datatype Report = Report(status: int, payload: seq<bv8>)

  /** `check_frame`. */
  function CheckFrame(rx: Rx): Report {
    if |rx.frame| < 2 then Report(-1, [])
    else if rx.crc != 0xf0b8 then Report(-2, [])
    else Report(|rx.frame| - 2, rx.frame[..|rx.frame| - 2])
  }

  function ShiftIn(reg: bv8, b: bool): bv8 {
    (reg >> 1) | (if b then 0x80 else 0)
  }

  /** One more bit of the current byte. */
  function Collect(rx: Rx, b: bool): Rx {
    var reg := ShiftIn(rx.reg, b);
    if rx.bits == 7 then Rx(rx.ones, 0, reg, CrcByte(rx.crc, reg), true, rx.frame + [reg])
    else rx.(bits := rx.bits + 1, reg := reg)
  }

  /** HDLC_GET_DATA on one bit. */
  function Next(rx: Rx, b: bool): Rx {
    if b then
      if rx.ones >= 5 then rx.(ones := rx.ones + 1) else Collect(rx.(ones := rx.ones + 1), true)
    else
      if rx.ones == 5 then rx.(ones := 0)
      else if rx.ones == 6 then OPENED
      else Collect(rx.(ones := 0), false)
  }

  /** Reports of one bit: a closing flag after at least one byte, unless the frame was empty. */
  function Reports(rx: Rx, b: bool): seq<Report> {
    if !b && rx.ones == 6 && rx.got && CheckFrame(rx).status != 0 then [CheckFrame(rx)] else []
  }

  function Run(rx: Rx, bits: seq<bool>): Rx {
    if bits == [] then rx else Next(Run(rx, bits[..|bits| - 1]), bits[|bits| - 1])
  }

  function AllReports(rx: Rx, bits: seq<bool>): seq<Report> {
    if bits == [] then []
    else
      var n := |bits| - 1;
      AllReports(rx, bits[..n]) + Reports(Run(rx, bits[..n]), bits[n])
  }

  lemma {:induction false} RunAppend(rx: Rx, a: seq<bool>, b: seq<bool>)
    ensures Run(rx, a + b) == Run(Run(rx, a), b)
    ensures AllReports(rx, a + b) == AllReports(rx, a) + AllReports(Run(rx, a), b)
    decreases |b|
  {
    if b == [] {
      assert a + b == a;
    } else {
      var n := |b| - 1;
      assert (a + b)[..|a + b| - 1] == a + b[..n];
      RunAppend(rx, a, b[..n]);
    }
  }

  /** Ones at the end of the stream. */
  function Trailing(ones: nat, bits: seq<bool>): nat {
    if bits == [] then ones
    else if bits[|bits| - 1] then Trailing(ones, bits[..|bits| - 1]) + 1
    else 0
  }

  lemma NextOnes(rx: Rx, b: bool)
    ensures Next(rx, b).ones == if b then rx.ones + 1 else 0
  {
  }

  lemma {:induction false} TrailingOnes(rx: Rx, bits: seq<bool>)
    ensures Run(rx, bits).ones == Trailing(rx.ones, bits)
    decreases |bits|
  {
    if bits == [] {
    } else {
      var n := |bits| - 1;
      TrailingOnes(rx, bits[..n]);
      var before := Run(rx, bits[..n]);
      assert Run(rx, bits) == Next(before, bits[n]);
      NextOnes(before, bits[n]);
    }
  }

  // ---------------------------------------------------------------------------
  // Flags

  lemma {:induction false} RunOne(rx: Rx, b: bool)
    ensures Run(rx, [b]) == Next(rx, b) && AllReports(rx, [b]) == Reports(rx, b)
  {
    assert [b][..0] == [];
  }

  lemma {:induction false} RunMore(rx: Rx, bits: seq<bool>, n: nat)
    requires n < |bits|
    ensures Run(rx, bits[..n + 1]) == Next(Run(rx, bits[..n]), bits[n])
    ensures AllReports(rx, bits[..n + 1]) == AllReports(rx, bits[..n]) + Reports(Run(rx, bits[..n]), bits[n])
  {
    assert bits[..n + 1][..n] == bits[..n];
  }

  /** The state inside a flag, n bits after a flag or a whole number of bytes. */
  function InFlag(rx: Rx, n: nat): Rx
    requires n <= 7
  {
    if n == 0 then rx
    else Rx(n - 1, if n == 7 then 6 else n, FlagReg(rx.reg, if n == 7 then 6 else n), rx.crc, rx.got, rx.frame)
  }

  function FlagReg(reg: bv8, n: nat): bv8 {
    if n == 0 then reg
    else if n == 1 then FlagReg(reg, 0) >> 1
    else (FlagReg(reg, n - 1) >> 1) | 0x80
  }

  lemma {:induction false} FlagStep(rx: Rx, n: nat)
    requires n < 7 && rx.bits == 0 && rx.ones <= 4
    ensures Next(InFlag(rx, n), FLAG[n]) == InFlag(rx, n + 1) && Reports(InFlag(rx, n), FLAG[n]) == []
  {
    if n == 0 {
      assert FLAG[n] == false;
    } else {
      assert FLAG[n] == true;
    }
  }

  lemma {:induction false} FlagPrefix(rx: Rx, n: nat)
    requires n <= 7 && rx.bits == 0 && rx.ones <= 4
    ensures Run(rx, FLAG[..n]) == InFlag(rx, n) && AllReports(rx, FLAG[..n]) == []
  {
    if n == 0 {
    } else {
      FlagPrefix(rx, n - 1);
      RunMore(rx, FLAG, n - 1);
      FlagStep(rx, n - 1);
    }
  }

  /** A flag closes the frame before it and opens the next one. */
  lemma {:induction false} WholeFlag(rx: Rx)
    requires rx.bits == 0 && rx.ones <= 4
    ensures Run(rx, FLAG) == OPENED
    ensures AllReports(rx, FLAG) == if rx.got && CheckFrame(rx).status != 0 then [CheckFrame(rx)] else []
  {
    FlagPrefix(rx, 7);
    RunMore(rx, FLAG, 7);
    assert FLAG[..8] == FLAG;
  }

  /** A pattern `n` times in a row. */
  function Repeat(f: seq<bool>, n: nat): seq<bool> {
    if n == 0 then [] else Repeat(f, n - 1) + f
  }

  lemma {:induction false} RepeatFirst(f: seq<bool>, n: nat)
    requires n >= 1
    ensures Repeat(f, n) == f + Repeat(f, n - 1)
  {
    if n <= 1 {
    } else {
      RepeatFirst(f, n - 1);
    }
  }

  // ---------------------------------------------------------------------------
  // Frames

  /** The receiver after data bits, stuffing aside. */
  function Collected(rx: Rx, ds: seq<bool>): Rx {
    if ds == [] then rx else Collect(Collected(rx, ds[..|ds| - 1]), ds[|ds| - 1])
  }

  lemma {:induction false} CollectedAppend(rx: Rx, a: seq<bool>, b: seq<bool>)
    ensures Collected(rx, a + b) == Collected(Collected(rx, a), b)
    decreases |b|
  {
    if b == [] {
      assert a + b == a;
    } else {
      assert (a + b)[..|a + b| - 1] == a + b[..|b| - 1];
      CollectedAppend(rx, a, b[..|b| - 1]);
    }
  }

  lemma {:induction false} CollectedOnes(rx: Rx, ds: seq<bool>)
    ensures Collected(rx, ds).ones == rx.ones
    decreases |ds|
  {
    if ds == [] {
    } else {
      CollectedOnes(rx, ds[..|ds| - 1]);
    }
  }

  /** What one data bit becomes on the line after `ones` ones. */
  function Sent(ones: nat, b: bool): seq<bool> {
    if !b then [false] else if ones == 4 then [true, false] else [true]
  }

  function SentOnes(ones: nat, b: bool): nat {
    if !b || ones == 4 then 0 else ones + 1
  }

  /** The receiver removes exactly what stuffing inserts. */
  lemma {:induction false} Unstuff(rx: Rx, ds: seq<bool>)
    requires rx.ones == 0
    ensures Run(rx, Stuffed(ds).bits) == Collected(rx, ds).(ones := Stuffed(ds).ones)
    ensures AllReports(rx, Stuffed(ds).bits) == []
    decreases |ds|
  {
    if ds == [] {
    } else {
      var n := |ds| - 1;
      var s, b := Stuffed(ds[..n]), ds[n];
      Unstuff(rx, ds[..n]);
      CollectedOnes(rx, ds[..n]);
      assert Stuffed(ds) == Stuffing(s.bits + Sent(s.ones, b), SentOnes(s.ones, b));
      RunAppend(rx, s.bits, Sent(s.ones, b));
      UnstuffOne(Collected(rx, ds[..n]), s.ones, b);
    }
  }

  lemma {:induction false} UnstuffOne(rx: Rx, ones: nat, b: bool)
    requires ones <= 4 && rx.ones == 0
    ensures Run(rx.(ones := ones), Sent(ones, b)) == Collect(rx, b).(ones := SentOnes(ones, b))
    ensures AllReports(rx.(ones := ones), Sent(ones, b)) == []
  {
    var at := rx.(ones := ones);
    RunOne(at, b);
    if b && ones == 4 {
      FifthOne(at);
    }
  }

  lemma {:induction false} FifthOne(rx: Rx)
    requires rx.ones == 4
    ensures Run(rx, [true, false]) == Collect(rx, true).(ones := 0) && AllReports(rx, [true, false]) == []
  {
    RunAppend(rx, [true], [false]);
    RunOne(rx, true);
    RunOne(Next(rx, true), false);
    assert [true] + [false] == [true, false];
  }

  /** Eight data bits make the byte they came from. */
  lemma {:induction false} CollectByte(rx: Rx, v: bv8)
    requires rx.bits == 0
    ensures Collected(rx, LsbFirst(v)) == Rx(rx.ones, 0, v, CrcByte(rx.crc, v), true, rx.frame + [v])
  {
    var b := LsbFirst(v);
    assert b[..8] == b && b[..7][..6] == b[..6] && b[..6][..5] == b[..5] && b[..5][..4] == b[..4];
    assert b[..4][..3] == b[..3] && b[..3][..2] == b[..2] && b[..2][..1] == b[..1] && b[..1][..0] == b[..0] == [];
    var r := ShiftIn(ShiftIn(ShiftIn(ShiftIn(ShiftIn(ShiftIn(ShiftIn(ShiftIn(rx.reg, b[0]), b[1]), b[2]), b[3]), b[4]),
        b[5]), b[6]), b[7]);
    Assembled(rx.reg, v);
    assert Collected(rx, b[..1]) == Collect(rx, b[0]);
    assert Collected(rx, b[..2]) == Collect(Collected(rx, b[..1]), b[1]);
    assert Collected(rx, b[..3]) == Collect(Collected(rx, b[..2]), b[2]);
    assert Collected(rx, b[..4]) == Collect(Collected(rx, b[..3]), b[3]);
    assert Collected(rx, b[..5]) == Collect(Collected(rx, b[..4]), b[4]);
    assert Collected(rx, b[..6]) == Collect(Collected(rx, b[..5]), b[5]);
    assert Collected(rx, b[..7]) == Collect(Collected(rx, b[..6]), b[6]);
    assert Collected(rx, b) == Collect(Collected(rx, b[..7]), b[7]);
  }

  lemma Assembled(reg: bv8, v: bv8)
    ensures var b := LsbFirst(v);
            ShiftIn(ShiftIn(ShiftIn(ShiftIn(ShiftIn(ShiftIn(ShiftIn(ShiftIn(reg, b[0]), b[1]), b[2]), b[3]), b[4]),
                b[5]), b[6]), b[7]) == v
  {
  }

  lemma {:induction false} CollectBytes(bytes: seq<bv8>)
    ensures var rx := Collected(OPENED, DataBits(bytes));
            rx.bits == 0 && rx.ones == 0 && rx.crc == CrcRun(0xffff, bytes) && rx.got == (bytes != []) &&
                rx.frame == bytes
  {
    if bytes == [] {
    } else {
      var n := |bytes| - 1;
      CollectBytes(bytes[..n]);
      CollectedAppend(OPENED, DataBits(bytes[..n]), LsbFirst(bytes[n]));
      CollectByte(Collected(OPENED, DataBits(bytes[..n])), bytes[n]);
    }
  }
}
