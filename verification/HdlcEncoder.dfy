/** The HDLC transmitter: src/core/isdnhdlc.c, osmo_isdnhdlc_out_init and osmo_isdnhdlc_encode, without 56k
    adaptation and D-channel idle. A frame may be spread over any number of calls. */
module HdlcEncoder {
  import opened HdlcFrame
  import opened HdlcDecoder
  import opened HdlcControl

  /** HDLC_SEND_FAST_FLAG, HDLC_SENDFLAG_ONE, HDLC_SEND_DATA, HDLC_SEND_CRC1, HDLC_SEND_CRC2 and
      HDLC_SEND_CLOSING_FLAG. */
  datatype SendState = SendFastFlag | SendFlagOne | SendData | SendCrc1 | SendCrc2 | SendClosingFlag

  // ---------------------------------------------------------------------------
  // Bits waiting in a register

  /** The bits of the line that are not sent yet wait in a register that is filled from the right. */
  ghost predicate Waits(reg: bv8, sent: seq<bool>, line: seq<bool>) {
    && sent <= line && |line| <= |sent| + 8
    && forall i :: |sent| <= i < |line| ==> line[i] == MsbFirst(reg)[8 - |line| + i]
  }

  lemma HalfBits(v: bv8)
    ensures MsbFirst(v >> 1)[1..] == MsbFirst(v)[..7] && MsbFirst(v)[7] == (v & 0x01 != 0)
  {
  }

  function ShiftLeft(v: bv8, b: bool): bv8 {
    (v << 1) | (if b then 1 else 0)
  }

  lemma ShiftLeftBits(v: bv8, b: bool)
    ensures MsbFirst(ShiftLeft(v, b)) == MsbFirst(v)[1..] + [b]
  {
  }

  lemma {:induction false} OneMoreWaits(reg: bv8, sent: seq<bool>, line: seq<bool>, b: bool)
    requires Waits(reg, sent, line) && |line| < |sent| + 8
    ensures Waits(ShiftLeft(reg, b), sent, line + [b])
  {
    ShiftLeftBits(reg, b);
    MovedUp(MsbFirst(reg), MsbFirst(ShiftLeft(reg, b)), |sent|, line, b);
  }

  lemma MovedUp(x: seq<bool>, y: seq<bool>, from: nat, line: seq<bool>, b: bool)
    requires |x| == 8 && y == x[1..] + [b] && from <= |line| < from + 8
    requires forall i :: from <= i < |line| ==> line[i] == x[8 - |line| + i]
    ensures forall i :: from <= i < |line + [b]| ==> (line + [b])[i] == y[8 - |line + [b]| + i]
  {
  }

  lemma {:induction false} WaitingByte(reg: bv8, sent: seq<bool>, line: seq<bool>)
    requires Waits(reg, sent, line) && |line| == |sent| + 8
    ensures line == sent + MsbFirst(reg)
  {
    forall i | |sent| <= i < |line|
      ensures line[i] == MsbFirst(reg)[i - |sent|]
    {
    }
  }

  /** The bits of `v` from the n-th on are left in a register that is emptied at the low end. */
  ghost predicate Shifted(reg: bv8, v: bv8, n: nat)
    requires n <= 8
  {
    forall i :: n <= i < 8 ==> LsbFirst(v)[i] == LsbFirst(reg)[i - n]
  }

  lemma {:induction false} ShiftedOne(reg: bv8, v: bv8, n: nat)
    requires n < 8 && Shifted(reg, v, n)
    ensures LsbFirst(v)[n] == (reg & 0x01 != 0) && Shifted(reg >> 1, v, n + 1)
  {
    assert LsbFirst(v)[n] == LsbFirst(reg)[n - n];
    HalfLsb(reg);
    MovedDown(LsbFirst(reg), LsbFirst(reg >> 1), LsbFirst(v), n);
  }

  lemma {:induction false} MovedDown(x: seq<bool>, y: seq<bool>, v: seq<bool>, n: nat)
    requires |x| == |y| == |v| == 8 && y[..7] == x[1..] && n < 8
    requires forall i :: n <= i < 8 ==> v[i] == x[i - n]
    ensures forall i :: n + 1 <= i < 8 ==> v[i] == y[i - (n + 1)]
  {
    forall i | n + 1 <= i < 8
      ensures v[i] == y[i - (n + 1)]
    {
      assert x[i - n] == x[1..][i - n - 1] && y[..7][i - n - 1] == y[i - n - 1];
    }
  }

  lemma HalfLsb(v: bv8)
    ensures LsbFirst(v >> 1)[..7] == LsbFirst(v)[1..]
  {
  }

  lemma {:induction false} NotShifted(reg: bv8, v: bv8)
    requires Shifted(reg, v, 0)
    ensures reg == v
  {
    AllBits(LsbFirst(reg), LsbFirst(v));
    SameByte(reg, v);
  }

  lemma AllBits(x: seq<bool>, v: seq<bool>)
    requires |x| == |v| == 8 && forall i :: 0 <= i < 8 ==> v[i] == x[i - 0]
    ensures x == v
  {
  }

  lemma {:induction false} SameByte(v: bv8, w: bv8)
    requires LsbFirst(v) == LsbFirst(w)
    ensures v == w
  {
    Byte(v);
    Byte(w);
  }

  /** A byte from its bits. */
  lemma Byte(v: bv8)
    ensures var b := LsbFirst(v);
            v == (if b[0] then 0x01 else 0x00) | (if b[1] then 0x02 else 0x00) | (if b[2] then 0x04 else 0x00) |
                 (if b[3] then 0x08 else 0x00) | (if b[4] then 0x10 else 0x00) | (if b[5] then 0x20 else 0x00) |
                 (if b[6] then 0x40 else 0x00) | (if b[7] then 0x80 else 0x00)
  {
  }

  // ---------------------------------------------------------------------------
  // Stuffing as the transmitter does it: the 0 after five ones waits for the next bit

  /** After `base`, the line carries the stuffed data bits `ds`; with five ones just sent the 0 is still owed. */
  ghost predicate OnLine(line: seq<bool>, base: seq<bool>, ds: seq<bool>, ones: nat) {
    if ones == 5 then line + [false] == base + Stuffed(ds).bits && Stuffed(ds).ones == 0
    else line == base + Stuffed(ds).bits && Stuffed(ds).ones == ones < 5
  }

  lemma OweNothing(line: seq<bool>, base: seq<bool>, ds: seq<bool>)
    requires OnLine(line, base, ds, 5)
    ensures OnLine(line + [false], base, ds, 0)
  {
  }

  lemma {:induction false} SendOne(line: seq<bool>, base: seq<bool>, ds: seq<bool>, ones: nat, b: bool)
    requires OnLine(line, base, ds, ones) && ones < 5
    ensures OnLine(line + [b], base, ds + [b], if b then ones + 1 else 0)
  {
    var s := Stuffed(ds);
    assert (ds + [b])[..|ds|] == ds;
    assert Stuffed(ds + [b]) == Stuff(s, b);
    assert line == base + s.bits;
    assert base + s.bits + [b] == base + (s.bits + [b]);
    if b && ones == 4 {
      assert base + s.bits + [true] + [false] == base + (s.bits + [true, false]);
    }
  }

  lemma {:induction false} OpenLine(base: seq<bool>)
    ensures OnLine(base, base, [], 0)
  {
    assert base + [] == base;
  }

  // ---------------------------------------------------------------------------
  // Frames on the line

  /** A payload with its check bytes. */
  function Frame(payload: seq<bv8>): (f: seq<bv8>)
    ensures |f| == |payload| + 2
  {
    payload + CheckBytes(CrcRun(0xffff, payload))
  }

  /** The data bits sent when `k` bytes are done and `left` bits of byte `k` are not. */
  function DoneBits(frame: seq<bv8>, k: nat, left: nat): seq<bool>
    requires k <= |frame| && left <= 8
  {
    if left == 0 || k == |frame| then DataBits(frame[..k]) else DataBits(frame[..k]) + LsbFirst(frame[k])[..8 - left]
  }

  lemma {:induction false} DoneFresh(frame: seq<bv8>, k: nat)
    requires k <= |frame|
    ensures DoneBits(frame, k, 8) == DoneBits(frame, k, 0)
  {
    if k < |frame| {
      assert LsbFirst(frame[k])[..0] == [];
    }
  }

  /** One more data bit. */
  lemma {:induction false} DoneMore(frame: seq<bv8>, k: nat, left: nat)
    requires k < |frame| && 1 <= left <= 8
    ensures DoneBits(frame, k, left) + [LsbFirst(frame[k])[8 - left]] ==
            if left == 1 then DoneBits(frame, k + 1, 0) else DoneBits(frame, k, left - 1)
  {
    var b, n := LsbFirst(frame[k]), 8 - left;
    assert b[..n] + [b[n]] == b[..n + 1];
    assert DataBits(frame[..k]) + b[..n] + [b[n]] == DataBits(frame[..k]) + b[..n + 1];
    if left == 1 {
      assert b[..8] == b;
      assert frame[..k + 1][..k] == frame[..k];
    }
  }

  lemma {:induction false} ShiftStep(frame: seq<bv8>, k: nat, left: nat, reg: bv8)
    requires k < |frame| && 1 <= left <= 8 && Shifted(reg, frame[k], 8 - left)
    ensures DoneBits(frame, k, left) + [reg & 0x01 != 0] ==
            if left == 1 then DoneBits(frame, k + 1, 0) else DoneBits(frame, k, left - 1)
    ensures Shifted(reg >> 1, frame[k], 8 - (left - 1))
  {
    ShiftedOne(reg, frame[k], 8 - left);
    DoneMore(frame, k, left);
  }

  /** The stuffed bits of a frame. */
  function Body(frame: seq<bv8>): seq<bool> {
    Stuffed(DataBits(frame)).bits
  }

  /** A frame's bits with its closing flag, filled up to a byte boundary with the beginning of another flag when the
      last byte had `n` bits. */
  ghost function Padded(base: seq<bool>, body: seq<bool>, n: nat): seq<bool>
    requires n <= 8
  {
    if n == 0 then base + body + FLAG else base + body + FLAG + FLAG[..8 - n]
  }

  /** The byte that repeats flags at a bit offset: the last `n` bits of a flag, then its beginning. */
  ghost predicate IsRotatedFlag(v: bv8, n: nat)
    requires n <= 8
  {
    MsbFirst(v) == RotatedFlag(n)
  }

  /** xfast_flag_value. */
  function XFastFlagValue(n: nat): bv8 {
    match n
    case 1 => 0x3f
    case 2 => 0x9f
    case 3 => 0xcf
    case 4 => 0xe7
    case 5 => 0xf3
    case 6 => 0xf9
    case 7 => 0xfc
    case _ => 0x7e
  }

  lemma {:induction false} XFastFlagBits(n: nat)
    requires n <= 8
    ensures IsRotatedFlag(XFastFlagValue(n), n)
  {
    if n == 0 {
      assert MsbFirst(0x7e) == FLAG;
    } else {
      XFastFlagBits(n - 1);
      RotateBits(XFastFlagValue(n - 1));
      RotatedValue(n);
    }
  }

  function Rotate8(v: bv8): bv8 {
    (v >> 1) | (v << 7)
  }

  lemma RotateBits(v: bv8)
    ensures MsbFirst(Rotate8(v)) == RotateRight(MsbFirst(v))
  {
  }

  lemma RotatedValue(n: nat)
    requires 1 <= n <= 8
    ensures XFastFlagValue(n) == Rotate8(XFastFlagValue(n - 1))
  {
  }

  function ShiftRight(v: bv8, n: nat): bv8 {
    if n == 0 then v else ShiftRight(v, n - 1) >> 1
  }

  /** The last `n` bits of a flag. */
  function FlagEnd(n: nat): (e: seq<bool>)
    requires n <= 8
    ensures |e| == n
  {
    seq(n, i requires 0 <= i < n => FLAG[8 - n + i])
  }

  lemma FlagEndIs(n: nat)
    requires n <= 8
    ensures FlagEnd(n) == FLAG[8 - n..]
  {
  }

  lemma WholeFlagEnd()
    ensures FlagEnd(8) == FLAG && FlagEnd(0) == []
  {
  }

  /** `ffvalue >> (8 - n)`. */
  function TopBits(v: bv8, n: nat): bv8
    requires n <= 8
  {
    ShiftRight(v, 8 - n)
  }

  lemma {:induction false} ShiftRightMsb(v: bv8, m: nat)
    requires m <= 8
    ensures MsbFirst(ShiftRight(v, m))[m..] == MsbFirst(v)[..8 - m]
  {
    if m > 0 {
      ShiftRightMsb(v, m - 1);
      HalfBits(ShiftRight(v, m - 1));
      Slices(MsbFirst(ShiftRight(v, m - 1)), MsbFirst(ShiftRight(v, m)), MsbFirst(v), m);
    } else {
      assert MsbFirst(v)[..8] == MsbFirst(v);
    }
  }

  lemma {:induction false} Slices(x: seq<bool>, y: seq<bool>, z: seq<bool>, m: nat)
    requires |x| == |y| == |z| == 8 && 1 <= m <= 8
    requires y[1..] == x[..7] && x[m - 1..] == z[..9 - m]
    ensures y[m..] == z[..8 - m]
  {
    forall i | m <= i < 8
      ensures y[i] == z[i - m]
    {
      assert y[1..][i - 1] == x[..7][i - 1];
      assert x[m - 1..][i - m] == z[..9 - m][i - m];
    }
  }

  lemma {:induction false} TopBitsAre(v: bv8, n: nat)
    requires n <= 8 && IsRotatedFlag(v, n)
    ensures MsbFirst(TopBits(v, n))[8 - n..] == FlagEnd(n)
  {
    ShiftRightMsb(v, 8 - n);
    RotatedIs(n);
    FrontOf(FlagEnd(n), FLAG[..8 - n]);
  }

  lemma FrontOf(a: seq<bool>, b: seq<bool>)
    ensures (a + b)[..|a|] == a
  {
  }

  lemma {:induction false} TopBitsWait(v: bv8, n: nat, sent: seq<bool>)
    requires n <= 8 && IsRotatedFlag(v, n)
    ensures Waits(TopBits(v, n), sent, sent + FlagEnd(n))
  {
    TopBitsAre(v, n);
    RegisterWaits(TopBits(v, n), FlagEnd(n), sent);
  }

  lemma {:induction false} RegisterWaits(reg: bv8, end: seq<bool>, sent: seq<bool>)
    requires |end| <= 8 && MsbFirst(reg)[8 - |end|..] == end
    ensures Waits(reg, sent, sent + end)
  {
    EndWaits(MsbFirst(reg), end, sent);
  }

  lemma {:induction false} EndWaits(x: seq<bool>, end: seq<bool>, sent: seq<bool>)
    requires |x| == 8 && |end| <= 8 && x[8 - |end|..] == end
    ensures sent <= sent + end
    ensures forall i :: |sent| <= i < |sent + end| ==> (sent + end)[i] == x[8 - |sent + end| + i]
  {
    forall i | |sent| <= i < |sent + end|
      ensures (sent + end)[i] == x[8 - |sent + end| + i]
    {
      assert end[i - |sent|] == x[8 - |end|..][i - |sent|];
    }
  }

  ghost predicate IsEnd(part: seq<bv8>, whole: seq<bv8>) {
    |part| <= |whole| && forall i :: 0 <= i < |part| ==> part[i] == whole[|whole| - |part| + i]
  }

  lemma {:induction false} EndOfEnd(part: seq<bv8>, whole: seq<bv8>, n: nat)
    requires IsEnd(part, whole) && n <= |part|
    ensures IsEnd(part[n..], whole)
  {
    forall i | 0 <= i < |part[n..]|
      ensures part[n..][i] == whole[|whole| - |part[n..]| + i]
    {
      assert part[n..][i] == part[n + i];
    }
  }

  class Encoder {
    var state: SendState
    var bitShift: nat
    var hdlcBits1: nat
    var dataBits: nat
    var crc: bv16
    var cbin: bv8
    var shiftReg: bv8
    var ffvalue: bv8
    var dataReceived: bool
    var doClosing: bool
    const doBitreverse: bool
    /** Everything put on the line, and the part of it already written to a destination buffer. */
    ghost var line: seq<bool>
    ghost var sent: seq<bool>
    /** The frame being sent without and with its check bytes, its stuffed bits, the line up to its opening flag, and
        the number of its bytes that are done. */
    ghost var payload: seq<bv8>
    ghost var frame: seq<bv8>
    ghost var body: seq<bool>
    ghost var base: seq<bool>
    ghost var k: nat
    /** The data bits sent since the opening flag. */
    ghost var done: seq<bool>

    /** Between frames. */
    ghost predicate Idle()
      reads this
    {
      && (state == SendFastFlag || state == SendFlagOne)
      && bitShift == 0 && dataBits <= 8 && ffvalue == XFastFlagValue(dataBits) && sent == line
      && (doClosing ==> dataBits == 0) && (dataBits == 8 ==> cbin == 0x7e)
    }

    /** Bits waiting for a full byte. */
    ghost predicate Waiting(limit: nat)
      requires limit <= 8
      reads this`dataBits, this`cbin, this`sent, this`line
    {
      dataBits <= limit && |line| == |sent| + dataBits && Waits(cbin, sent, line)
    }

    /** A byte of the frame is being shifted out. */
    ghost predicate Shifting()
      reads this`k, this`frame, this`bitShift, this`shiftReg, this`done, this`line, this`base, this`hdlcBits1
    {
      && k < |frame| && 1 <= bitShift <= 8 && Shifted(shiftReg, frame[k], 8 - bitShift)
      && done == DoneBits(frame, k, bitShift) && OnLine(line, base, done, hdlcBits1)
    }

    ghost predicate InData()
      reads this`k, this`frame, this`bitShift, this`shiftReg, this`done, this`line, this`base, this`hdlcBits1,
            this`state, this`payload, this`dataReceived, this`doClosing, this`crc
    {
      && state == SendData && |frame| == |payload| + 2 && payload <= frame && dataReceived
      && 1 <= Taken() <= |payload| && doClosing == (Taken() == |payload|) && Summed()
      && if bitShift == 0 then Whole() else Shifting()
    }

    /** The checksum is that of the bytes begun. */
    ghost predicate Summed()
      reads this`k, this`bitShift, this`payload, this`crc
    {
      var n := if bitShift == 0 || bitShift == 8 then k else k + 1;
      n <= |payload| && crc == CrcRun(0xffff, payload[..n])
    }

    ghost predicate InCheck()
      reads this`k, this`frame, this`bitShift, this`shiftReg, this`done, this`line, this`base, this`hdlcBits1,
            this`state, this`payload, this`doClosing, this`crc
    {
      && |frame| == |payload| + 2 && Shifting() && doClosing && frame[|payload| + 1] == (crc >> 8) as bv8
      && (state == SendCrc1 || state == SendCrc2) && k == if state == SendCrc1 then |payload| else |payload| + 1
    }

    ghost predicate InClosing()
      reads this`state, this`doClosing, this`k, this`frame, this`body, this`bitShift, this`shiftReg, this`hdlcBits1,
            this`line, this`base
    {
      && state == SendClosingFlag && doClosing && k == |frame|
      && 1 <= bitShift <= 8 && Shifted(shiftReg, 0x7e, 8 - bitShift) && hdlcBits1 <= 5
      && if hdlcBits1 == 5 then bitShift == 8 && line + [false] == base + body
         else line == base + body + FLAG[..8 - bitShift]
    }

    /** The frame on the line is the frame of the payload. */
    ghost predicate Framing()
      reads this`payload, this`frame, this`body
    {
      payload != [] && frame == Frame(payload) && body == Body(frame)
    }

    /** In a frame. */
    ghost predicate Busy()
      reads this`k, this`frame, this`body, this`bitShift, this`shiftReg, this`done, this`line, this`base,
            this`hdlcBits1, this`state, this`payload, this`dataReceived, this`doClosing, this`crc
    {
      match state
      case SendData => InData()
      case SendCrc1 => InCheck()
      case SendCrc2 => InCheck()
      case SendClosingFlag => InClosing()
      case _ => false
    }

    /** The closing flag is on the line, its last bits still waiting. */
    ghost predicate Closed()
      reads this`state, this`bitShift, this`doClosing, this`dataBits, this`ffvalue, this`line, this`base, this`body
    {
      && state == SendFastFlag && bitShift == 0 && doClosing && 1 <= dataBits <= 8
      && ffvalue == XFastFlagValue(dataBits) && line == base + body + FLAG
    }

    /** `osmo_isdnhdlc_out_init`. */
    constructor (bitreverse: bool)
      ensures Idle() && state == SendFastFlag && dataBits == 8 && !doClosing && line == [] && doBitreverse == bitreverse
    {
      state := SendFastFlag;
      bitShift, hdlcBits1, dataBits := 0, 0, 8;
      crc, cbin, shiftReg, ffvalue := 0, 0x7e, 0, 0x7e;
      dataReceived, doClosing := false, false;
      doBitreverse := bitreverse;
      line, sent, payload, frame, body, base, k, done := [], [], [], [], [], [], 0, [];
    }

    /** A data bit on the line. */
    method SendBit(b: bool)
      requires Waiting(7) && hdlcBits1 < 5 && OnLine(line, base, done, hdlcBits1)
      modifies this`cbin, this`dataBits, this`hdlcBits1, this`line, this`done
      ensures Waiting(8) && dataBits == old(dataBits) + 1
      ensures done == old(done) + [b] && OnLine(line, base, done, hdlcBits1)
    {
      SendOne(line, base, done, hdlcBits1, b);
      PutBit(b);
      hdlcBits1 := if b then hdlcBits1 + 1 else 0;
      done := done + [b];
    }

    /** The stuffing 0 owed after five ones. */
    method SendStuffing()
      requires Waiting(7) && hdlcBits1 == 5 && OnLine(line, base, done, 5)
      modifies this`cbin, this`dataBits, this`hdlcBits1, this`line
      ensures Waiting(8) && dataBits == old(dataBits) + 1 && hdlcBits1 == 0 && OnLine(line, base, done, 0)
    {
      OweNothing(line, base, done);
      PutBit(false);
      hdlcBits1 := 0;
    }

    /** The next bit of the byte in the shift register. */
    method ShiftData()
      requires Shifting() && Waiting(7) && hdlcBits1 < 5
      modifies this`cbin, this`dataBits, this`hdlcBits1, this`shiftReg, this`bitShift, this`line, this`k, this`done
      ensures Waiting(8) && dataBits == old(dataBits) + 1 && bitShift == old(bitShift) - 1
      ensures if bitShift == 0 then k == old(k) + 1 else k == old(k) && Shifting()
      ensures k <= |frame| && done == DoneBits(frame, k, bitShift) && OnLine(line, base, done, hdlcBits1)
    {
      ShiftStep(frame, k, bitShift, shiftReg);
      SendBit(shiftReg & 0x01 != 0);
      shiftReg := shiftReg >> 1;
      bitShift := bitShift - 1;
      if bitShift == 0 {
        k := k + 1;
      }
    }

    /** One bit into the byte being assembled. */
    method PutBit(b: bool)
      requires Waiting(7)
      modifies this`cbin, this`dataBits, this`line
      ensures Waiting(8) && dataBits == old(dataBits) + 1 && line == old(line) + [b]
    {
      OneMoreWaits(cbin, sent, line, b);
      cbin := ShiftLeft(cbin, b);
      dataBits := dataBits + 1;
      line := line + [b];
    }

    /** The number of bytes of the payload already taken from the caller. */
    ghost function Taken(): nat
      reads this`state, this`payload, this`bitShift, this`k
    {
      if state != SendData then |payload| else if bitShift == 0 then k else k + 1
    }

    /** A whole number of bytes is sent. */
    ghost predicate Whole()
      reads this`k, this`frame, this`done, this`line, this`base, this`hdlcBits1
    {
      k <= |frame| && done == DoneBits(frame, k, 0) && OnLine(line, base, done, hdlcBits1)
    }

    /** `crc_ccitt_byte` when a byte begins. */
    method UpdateCrc()
      requires Summed() && Shifting() && payload <= frame && k < |payload|
      modifies this`crc
      ensures crc == CrcRun(0xffff, payload[..k + 1])
    {
      if bitShift == 8 {
        assert payload[..k + 1][..k] == payload[..k];
        NotShifted(shiftReg, payload[k]);
        crc := CrcByte(crc, shiftReg);
      }
    }

    /** HDLC_SEND_DATA with a stuffing 0 owed. */
    method StuffingTurn()
      requires InData() && bitShift > 0 && Waiting(7) && hdlcBits1 == 5
      modifies this`cbin, this`dataBits, this`hdlcBits1, this`line
      ensures InData() && Waiting(8) && dataBits == old(dataBits) + 1
    {
      SendStuffing();
    }

    /** HDLC_SEND_DATA with a data bit to send. */
    method DataBitTurn()
      requires InData() && bitShift > 0 && Waiting(7) && hdlcBits1 != 5
      modifies this`cbin, this`dataBits, this`hdlcBits1, this`shiftReg, this`bitShift, this`crc, this`line, this`k,
               this`done
      ensures InData() && Waiting(8) && dataBits == old(dataBits) + 1
      ensures Taken() == old(Taken())
    {
      UpdateCrc();
      ShiftData();
    }

    /** HDLC_SEND_DATA. */
    method DataTurn()
      requires InData() && bitShift > 0 && Waiting(7)
      modifies this`cbin, this`dataBits, this`hdlcBits1, this`shiftReg, this`bitShift, this`crc, this`line, this`k,
               this`done
      ensures InData() && Waiting(8) && dataBits == old(dataBits) + 1
      ensures Taken() == old(Taken())
    {
      if hdlcBits1 == 5 {
        StuffingTurn();
      } else {
        DataBitTurn();
      }
    }

    /** The next byte of the frame goes into the shift register. */
    method LoadShift(v: bv8)
      requires Whole() && k < |frame| && v == frame[k]
      modifies this`shiftReg, this`bitShift
      ensures bitShift == 8 && Shifting()
    {
      DoneFresh(frame, k);
      shiftReg := v;
      bitShift := 8;
    }

    /** The second check byte goes into the shift register. */
    method LoadCheck()
      requires Whole() && doClosing && k == |payload| + 1 && |frame| == |payload| + 2 && frame[k] == (crc >> 8) as bv8
      modifies this`shiftReg, this`bitShift, this`state
      ensures bitShift == 8 && state == SendCrc2 && InCheck()
    {
      LoadShift((crc >> 8) as bv8);
      state := SendCrc2;
    }

    /** HDLC_SEND_CRC1 and HDLC_SEND_CRC2 with a stuffing 0 owed. */
    method CheckStuffing()
      requires InCheck() && Waiting(7) && hdlcBits1 == 5
      modifies this`cbin, this`dataBits, this`hdlcBits1, this`line
      ensures InCheck() && Waiting(8) && dataBits == old(dataBits) + 1
    {
      SendStuffing();
    }

    /** HDLC_SEND_CRC1 and HDLC_SEND_CRC2 with a bit to send. */
    method CheckBit()
      requires InCheck() && Waiting(7) && hdlcBits1 != 5
      modifies this`cbin, this`dataBits, this`hdlcBits1, this`shiftReg, this`bitShift, this`line, this`k, this`done
      ensures Waiting(8) && dataBits == old(dataBits) + 1
      ensures if bitShift == 0 then k == old(k) + 1 && Whole() else k == old(k) && InCheck()
    {
      ShiftData();
    }

    /** HDLC_SEND_CRC1. */
    method FirstCheckTurn()
      requires state == SendCrc1 && InCheck() && Waiting(7)
      modifies this`cbin, this`dataBits, this`hdlcBits1, this`shiftReg, this`bitShift, this`state, this`line, this`k,
               this`done
      ensures InCheck() && Waiting(8) && dataBits == old(dataBits) + 1
    {
      if hdlcBits1 == 5 {
        CheckStuffing();
      } else {
        CheckBit();
        if bitShift == 0 {
          LoadCheck();
        }
      }
    }

    /** The closing flag goes into the shift register. */
    method LoadFlag()
      requires doClosing && k == |frame| && Whole() && body == Body(frame)
      modifies this`shiftReg, this`bitShift, this`state
      ensures InClosing()
    {
      CloseLine(line, base, frame, hdlcBits1);
      shiftReg := 0x7e;
      state := SendClosingFlag;
      bitShift := 8;
    }

    /** HDLC_SEND_CRC2. */
    method SecondCheckTurn()
      requires state == SendCrc2 && InCheck() && Waiting(7) && body == Body(frame)
      modifies this`cbin, this`dataBits, this`hdlcBits1, this`shiftReg, this`bitShift, this`state, this`line, this`k,
               this`done
      ensures (if state == SendCrc2 then InCheck() else InClosing()) && Waiting(8) && dataBits == old(dataBits) + 1
    {
      if hdlcBits1 == 5 {
        CheckStuffing();
      } else {
        CheckBit();
        if bitShift == 0 {
          LoadFlag();
        }
      }
    }

    /** A bit of the closing flag. */
    method FlagTurn()
      requires InClosing() && Waiting(7) && hdlcBits1 < 5
      modifies this`cbin, this`dataBits, this`shiftReg, this`bitShift, this`line
      ensures Waiting(8) && dataBits == old(dataBits) + 1 && bitShift == old(bitShift) - 1
      ensures if bitShift == 0 then line == base + body + FLAG else InClosing()
    {
      FlagShift(bitShift, shiftReg);
      Grouped(base + body, FLAG[..8 - bitShift], [shiftReg & 0x01 != 0]);
      PutBit(shiftReg & 0x01 != 0);
      shiftReg := shiftReg >> 1;
      bitShift := bitShift - 1;
      if bitShift == 0 {
        assert FLAG[..8] == FLAG;
      }
    }

    /** The stuffing 0 owed when the closing flag begins. */
    method FlagStuffing()
      requires InClosing() && Waiting(7) && hdlcBits1 == 5
      modifies this`cbin, this`dataBits, this`hdlcBits1, this`line
      ensures InClosing() && Waiting(8) && dataBits == old(dataBits) + 1
    {
      PutBit(false);
      hdlcBits1 := 0;
      assert FLAG[..0] == [] && line + [] == line;
    }

    /** HDLC_SEND_CLOSING_FLAG. */
    method ClosingTurn()
      requires InClosing() && Waiting(7)
      modifies this`cbin, this`dataBits, this`hdlcBits1, this`shiftReg, this`bitShift, this`state, this`ffvalue,
               this`dataReceived, this`line
      ensures (if state == SendFastFlag then Closed() else InClosing()) && Waiting(8) && dataBits == old(dataBits) + 1
    {
      if hdlcBits1 == 5 {
        FlagStuffing();
      } else {
        FlagTurn();
        if bitShift == 0 {
          ffvalue := XFastFlagValue(dataBits);
          state := SendFastFlag;
          dataReceived := false;
        }
      }
    }

    /** The next byte of the payload. */
    method LoadData(v: bv8, last: bool)
      requires InData() && bitShift == 0 && !doClosing && v == payload[k] && last == (k + 1 == |payload|)
      modifies this`shiftReg, this`bitShift, this`doClosing
      ensures InData() && bitShift == 8
    {
      LoadShift(v);
      if last {
        doClosing := true;
      }
    }

    /** The checksum sent is the complement. */
    method ComplementCrc()
      requires crc == CrcRun(0xffff, payload) && frame == Frame(payload)
      modifies this`crc
      ensures frame[|payload|] == (crc & 0xff) as bv8 && frame[|payload| + 1] == (crc >> 8) as bv8
    {
      FrameCheck(frame, payload, crc, crc ^ 0xffff);
      crc := crc ^ 0xffff;
    }

    /** The first check byte goes into the shift register. */
    method LoadFirstCheck()
      requires Whole() && doClosing && k == |payload| && |frame| == |payload| + 2
      requires frame[k] == (crc & 0xff) as bv8 && frame[k + 1] == (crc >> 8) as bv8
      modifies this`shiftReg, this`bitShift, this`state
      ensures state == SendCrc1 && InCheck()
    {
      LoadShift((crc & 0xff) as bv8);
      state := SendCrc1;
    }

    /** The payload is done: the first check byte. */
    method StartCheck()
      requires InData() && bitShift == 0 && doClosing && frame == Frame(payload)
      modifies this`shiftReg, this`bitShift, this`crc, this`state
      ensures state == SendCrc1 && InCheck()
    {
      assert payload[..k] == payload;
      ComplementCrc();
      LoadFirstCheck();
    }

    /** The next byte of the payload or of the checksum, when the shift register is empty. */
    method LoadNext(src: seq<bv8>, pos: nat) returns (pos': nat)
      requires InData() && bitShift == 0 && Framing() && pos <= |src| <= |payload|
      requires Taken() == |payload| - |src| + pos && IsEnd(src, payload)
      modifies this`shiftReg, this`bitShift, this`doClosing, this`crc, this`state
      ensures if state == SendData then InData() && bitShift == 8 else state == SendCrc1 && InCheck()
      ensures pos <= pos' <= |src| && Taken() == |payload| - |src| + pos'
    {
      pos' := pos;
      if pos < |src| && !doClosing {
        LoadData(src[pos], pos + 1 == |src|);
        pos' := pos + 1;
      } else {
        StartCheck();
      }
    }

    /** A turn of the loop inside a frame; `src` from `pos` on is the rest of the payload. */
    method BusyTurn(src: seq<bv8>, pos: nat) returns (pos': nat)
      requires Busy() && Framing() && Waiting(7) && pos <= |src| <= |payload|
      requires Taken() == |payload| - |src| + pos && IsEnd(src, payload)
      modifies this`cbin, this`dataBits, this`hdlcBits1, this`shiftReg, this`bitShift, this`crc, this`state,
               this`ffvalue,
               this`dataReceived, this`doClosing, this`line, this`k, this`done
      ensures Waiting(8) && dataBits == old(dataBits) + 1 && (if state == SendFastFlag then Closed() else Busy())
      ensures pos <= pos' <= |src| && Taken() == |payload| - |src| + pos'
    {
      pos' := pos;
      if state == SendData && bitShift == 0 {
        pos' := LoadNext(src, pos);
      }
      match state {
        case SendData => DataTurn();
        case SendCrc1 => FirstCheckTurn();
        case SendCrc2 => SecondCheckTurn();
        case SendClosingFlag => ClosingTurn();
      }
    }

    /** The first byte of a frame: HDLC_SEND_FAST_FLAG falling through to HDLC_SENDFLAG_ONE. */
    method StartFrame(src: seq<bv8>, ghost f: seq<bv8>)
      requires src != [] && src <= f && |f| == |src| + 2 && OnLine(line, base, [], 0)
      modifies this`shiftReg, this`bitShift, this`doClosing, this`state, this`crc, this`hdlcBits1, this`dataReceived,
               this`payload, this`frame, this`k, this`done
      ensures payload == src && frame == f && InData() && Taken() == 1
    {
      payload, frame, k, done := src, f, 0, [];
      NothingDone(frame);
      assert payload[..0] == [] && frame[0] == src[0];
      state := SendData;
      crc := 0xffff;
      hdlcBits1 := 0;
      dataReceived := true;
      LoadShift(src[0]);
      doClosing := |src| == 1;
    }

    /** The bits of the opening flag that are still to come wait in `cbin`. */
    method OpenFlag()
      requires Idle()
      modifies this`cbin, this`line, this`base
      ensures Waiting(8) && line == base == old(line) + FlagEnd(dataBits) && OnLine(line, base, [], 0)
    {
      XFastFlagBits(dataBits);
      TopBitsWait(ffvalue, dataBits, sent);
      cbin := TopBits(ffvalue, dataBits);
      line := line + FlagEnd(dataBits);
      base := line;
      OpenLine(base);
    }

    method OutByte(v: bv8) returns (out: seq<bv8>)
      ensures |out| == 1 && Wire(doBitreverse, out) == MsbFirst(v)
    {
      out := [Load(doBitreverse, v)];
      WireOne(doBitreverse, out[0]);
    }

    /** A full byte goes to the destination. */
    method Flush() returns (out: seq<bv8>)
      requires Waiting(8)
      modifies this`dataBits, this`sent
      ensures Waiting(7) && sent == old(sent) + Wire(doBitreverse, out)
      ensures if old(dataBits) == 8 then |out| == 1 && dataBits == 0 else out == [] && dataBits == old(dataBits)
    {
      out := [];
      if dataBits == 8 {
        out := OutByte(cbin);
        WaitingByte(cbin, sent, line);
        sent := sent + MsbFirst(cbin);
        dataBits := 0;
      } else {
        assert sent + [] == sent;
      }
    }

    /** HDLC_SEND_FAST_FLAG with nothing to send, between frames. */
    method IdleFlag() returns (out: seq<bv8>)
      requires Idle() && state == SendFastFlag && dataBits < 8
      modifies this`doClosing, this`line, this`sent
      ensures Idle() && !doClosing && |out| == 1 && line == old(line) + Wire(doBitreverse, out)
      ensures Wire(doBitreverse, out) == Repeat(RotatedFlag(dataBits), 1)
    {
      doClosing := false;
      out := OutByte(ffvalue);
      XFastFlagBits(dataBits);
      RepeatOne(RotatedFlag(dataBits));
      line := line + MsbFirst(ffvalue);
      sent := line;
    }

    /** The same before anything was sent: the byte after the flag is the initial content of `cbin`. */
    method FirstFlags() returns (out: seq<bv8>)
      requires Idle() && state == SendFastFlag && dataBits == 8
      modifies this`doClosing, this`dataBits, this`line, this`sent
      ensures Idle() && !doClosing && dataBits == 0 && |out| == 2 && line == old(line) + Wire(doBitreverse, out)
      ensures Wire(doBitreverse, out) == Repeat(RotatedFlag(old(dataBits)), 2)
    {
      doClosing := false;
      var first := OutByte(ffvalue);
      var second := OutByte(cbin);
      out := first + second;
      WireAppend(doBitreverse, first, second);
      XFastFlagBits(dataBits);
      RepeatTwo(RotatedFlag(dataBits), 0);
      dataBits := 0;
      line := line + Wire(doBitreverse, out);
      sent := line;
    }

    /** HDLC_SEND_FAST_FLAG right after a closing flag: its last bits and the beginning of another flag. */
    method PadFlag() returns (out: seq<bv8>)
      requires Closed() && Waiting(7)
      modifies this`doClosing, this`line, this`sent
      ensures |out| == 1 && sent == old(sent) + Wire(doBitreverse, out)
      ensures Ended() && !doClosing
    {
      doClosing := false;
      out := OutByte(ffvalue);
      XFastFlagBits(dataBits);
      Pad(sent, line[|sent|..], base, body, dataBits, ffvalue);
      line := Padded(base, body, dataBits);
      sent := line;
    }

    /** The bytes of the caller's buffer are the rest of the payload. */
    ghost predicate Feeds(src: seq<bv8>, pos: nat)
      reads this`state, this`payload, this`bitShift, this`k
    {
      && pos <= |src| <= |payload| && Taken() == |payload| - |src| + pos && IsEnd(src, payload)
    }

    /** A turn inside a frame with the write after it; `ended` when the closing flag is complete. */
    method FrameTurn(src: seq<bv8>, pos: nat) returns (out: seq<bv8>, pos': nat, ended: bool)
      requires Busy() && Framing() && Waiting(7) && Feeds(src, pos)
      modifies this`cbin, this`dataBits, this`hdlcBits1, this`shiftReg, this`bitShift, this`crc, this`state,
               this`ffvalue,
               this`dataReceived, this`doClosing, this`line, this`k, this`done, this`sent
      ensures sent == old(sent) + Wire(doBitreverse, out) && Feeds(src, pos')
      ensures Busy() == !ended && Ended() == (ended && out != []) && Waiting(7)
      ensures ended ==> pos' == |src| && Closed() == (out == [])
      ensures if out == [] then dataBits == old(dataBits) + 1 else |out| == 1
    {
      pos' := BusyTurn(src, pos);
      ended := state == SendFastFlag;
      if ended {
        out := CloseByte();
      } else {
        out := Flush();
      }
    }

    /** The write after the last bit of a closing flag. */
    method CloseByte() returns (out: seq<bv8>)
      requires Closed() && Waiting(8)
      modifies this`dataBits, this`sent
      ensures sent == old(sent) + Wire(doBitreverse, out)
      ensures if out == [] then Closed() && Waiting(7) && dataBits == old(dataBits) else |out| == 1 && Ended()
    {
      out := Flush();
    }

    /** The last frame is complete and filled up with flag bits to a byte boundary. */
    ghost predicate Ended()
      reads this
    {
      && Idle() && state == SendFastFlag && dataBits < 8 && doClosing == (dataBits == 0)
      && line == Padded(base, body, dataBits)
    }

    /** The line never runs ahead of the closing flag. */
    lemma LineBound()
      requires Busy() && Framing()
      ensures |line| <= |base| + |body| + 8
    {
      if state != SendClosingFlag {
        DoneBound(frame, k, bitShift);
        LineLength(line, base, done, hdlcBits1);
      }
    }

    /** The turns of the loop that start a frame, with the write after them. With `doClosing` still set from the
        last frame, one turn more only clears it. */
    method Open(src: seq<bv8>) returns (out: seq<bv8>)
      requires Idle() && src != [] && (doClosing ==> state == SendFastFlag)
      modifies this
      ensures Busy() && Framing() && Waiting(7) && payload == src && Taken() == 1 &&
              base == old(line) + FlagEnd(old(dataBits))
      ensures |out| == (if old(dataBits) == 8 then 1 else 0) && sent == old(sent) + Wire(doBitreverse, out)
    {
      OpenFlag();
      StartPayload(src);
      out := Flush();
    }

    method StartPayload(src: seq<bv8>)
      requires src != [] && OnLine(line, base, [], 0)
      modifies this`shiftReg, this`bitShift, this`doClosing, this`state, this`crc, this`hdlcBits1, this`dataReceived,
               this`payload, this`frame, this`body, this`k, this`done
      ensures payload == src && InData() && Framing() && Taken() == 1
    {
      StartFrame(src, Frame(src));
      body := Body(frame);
    }

    /** The loop inside a frame, up to the end of the buffer or to the closing flag. */
    method SendBits(src: seq<bv8>, pos: nat, size: nat) returns (out: seq<bv8>, pos': nat, ended: bool)
      requires Busy() && Framing() && Waiting(7) && Feeds(src, pos)
      modifies this`cbin, this`dataBits, this`hdlcBits1, this`shiftReg, this`bitShift, this`crc, this`state,
               this`ffvalue,
               this`dataReceived, this`doClosing, this`line, this`k, this`done, this`sent
      ensures sent == old(sent) + Wire(doBitreverse, out) && |out| <= size && Feeds(src, pos')
      ensures Busy() == !ended && Waiting(7) && (!ended ==> |out| == size)
      ensures ended ==> pos' == |src| && (Closed() != Ended()) && (|out| == size ==> Ended())
    {
      out, pos', ended := [], pos, false;
      ghost var start := sent;
      assert sent + [] == sent;
      while |out| < size && !ended
        invariant sent == start + Wire(doBitreverse, out) && |out| <= size && Feeds(src, pos')
        invariant Busy() == !ended && Waiting(7)
        invariant ended ==> pos' == |src| && (Closed() != Ended()) && (|out| == size ==> Ended())
        decreases !ended, size - |out|, 8 - dataBits
      {
        var more;
        more, pos', ended := FrameTurn(src, pos');
        WireTo(doBitreverse, start, out, more);
        out := out + more;
      }
    }

    /** The loop inside a frame, up to the end of the buffer or of the frame. */
    method SendFrame(src: seq<bv8>, pos: nat, size: nat) returns (out: seq<bv8>, pos': nat)
      requires Busy() && Framing() && Waiting(7) && Feeds(src, pos)
      modifies this`cbin, this`dataBits, this`hdlcBits1, this`shiftReg, this`bitShift, this`crc, this`state,
               this`ffvalue,
               this`dataReceived, this`doClosing, this`line, this`k, this`done, this`sent
      ensures sent == old(sent) + Wire(doBitreverse, out) && |out| <= size && Feeds(src, pos')
      ensures Busy() != Ended() && (if Ended() then pos' == |src| else Waiting(7) && |out| == size)
    {
      var ended;
      out, pos', ended := SendBits(src, pos, size);
      if ended && dataBits > 0 {
        assert Closed();
        var more := PadFlag();
        WireTo(doBitreverse, old(sent), out, more);
        out := out + more;
      }
    }

    /** The states between frames. */
    predicate Resting()
      reads this`state
    {
      state == SendFastFlag || state == SendFlagOne
    }

    /** What decides whether the loop goes on, with `left` bytes to send and `room` bytes of buffer. */
    ghost function ControlOf(left: nat, room: int): Control
      reads this`state, this`bitShift, this`dataBits, this`doClosing
    {
      Control(state == SendFlagOne, bitShift, dataBits, doClosing, left, room, !Resting())
    }

    /** `osmo_isdnhdlc_encode` comes back from a call. It does not when a frame of one byte follows a frame whose
        closing flag ended on a byte boundary: `doClosing` is then still set and no byte is ever loaded. */
    ghost predicate Returns(src: seq<bv8>, size: nat)
      reads this`state, this`bitShift, this`dataBits, this`doClosing
    {
      Resting() ==> CallReturns(ControlOf(|src|, size).(one := state == SendFlagOne || |src| == 1))
    }

    /** Special handling for frames of one byte. */
    method MarkOne(src: seq<bv8>)
      requires Idle()
      modifies this`state
      ensures Idle()
      ensures state == if |src| == 1 && old(state) == SendFastFlag then SendFlagOne else old(state)
    {
      if |src| == 1 && state == SendFastFlag {
        state := SendFlagOne;
      }
    }

    /** HDLC_SENDFLAG_ONE without a byte: only the initial content of `cbin` may be written. */
    method WaitTurn() returns (out: seq<bv8>)
      requires Idle() && state == SendFlagOne
      modifies this`dataBits, this`line, this`sent
      ensures Idle() && |out| == (if old(dataBits) == 8 then 1 else 0) && line == old(line) + Wire(doBitreverse, out)
      ensures dataBits == (if old(dataBits) == 8 then 0 else old(dataBits))
      ensures Wire(doBitreverse, out) == Repeat(RotatedFlag(old(dataBits)), |out|)
    {
      out := [];
      RepeatOne(RotatedFlag(dataBits));
      if dataBits == 8 {
        XFastFlagBits(dataBits);
        out := OutByte(cbin);
        dataBits := 0;
      }
      line := line + Wire(doBitreverse, out);
      sent := line;
    }

    /** The bytes a turn of the loop between frames writes with nothing to send: flags. */
    method FlagsOut() returns (out: seq<bv8>)
      requires Idle()
      modifies this`doClosing, this`dataBits, this`line, this`sent
      ensures Idle() && line == old(line) + Wire(doBitreverse, out)
      ensures |out| == (if state == SendFlagOne then 0 else 1) + (if old(dataBits) == 8 then 1 else 0)
      ensures dataBits == (if old(dataBits) == 8 then 0 else old(dataBits))
      ensures doClosing == (state == SendFlagOne && old(doClosing))
      ensures Wire(doBitreverse, out) == Repeat(RotatedFlag(old(dataBits)), |out|)
    {
      if state == SendFlagOne {
        out := WaitTurn();
      } else if dataBits == 8 {
        out := FirstFlags();
      } else {
        out := IdleFlag();
      }
    }

    /** A turn of the loop between frames with nothing to send. */
    method FlagsTurn(room: int) returns (out: seq<bv8>)
      requires Idle()
      modifies this`doClosing, this`dataBits, this`line, this`sent
      ensures Idle() && line == old(line) + Wire(doBitreverse, out)
      ensures ControlOf(0, room - |out|) == Turn(old(ControlOf(0, room)))
      ensures Wire(doBitreverse, out) == Repeat(RotatedFlag(old(dataBits)), |out|)
    {
      out := FlagsOut();
    }

    /** `out` was written since the line was `first`, in a call with nothing to send. */
    ghost predicate FlagsSoFar(start: Control, first: seq<bool>, size: nat, out: seq<bv8>)
      requires start.dataBits <= 8 && start.room == size
      reads this
    {
      && Idle() && line == first + Wire(doBitreverse, out)
      && Wire(doBitreverse, out) == Repeat(RotatedFlag(start.dataBits), |out|)
      && Flagging(start, ControlOf(0, size - |out|), |out|) && (|out| >= size ==> |out| == FlagBytes(start))
    }

    /** A turn of the loop after `written` bytes. */
    method CountedTurn(ghost start: Control, written: nat, room: int) returns (out: seq<bv8>)
      requires Idle() && Between(start) && start.left == 0 && CallReturns(start) && start.room >= 0 && room > 0
      requires Flagging(start, ControlOf(0, room), written)
      modifies this`doClosing, this`dataBits, this`line, this`sent
      ensures Idle() && line == old(line) + Wire(doBitreverse, out)
      ensures Flagging(start, ControlOf(0, room - |out|), written + |out|)
      ensures |out| >= room ==> written + |out| == FlagBytes(start)
      ensures Measure(ControlOf(0, room - |out|)) < Measure(old(ControlOf(0, room)))
      ensures Wire(doBitreverse, out) == Repeat(RotatedFlag(old(dataBits)), |out|)
    {
      FlaggingTurn(start, ControlOf(0, room), written);
      out := FlagsTurn(room);
    }

    /** The same with the bytes `out` so far. */
    method MoreFlags(ghost start: Control, ghost first: seq<bool>, size: nat, out: seq<bv8>) returns (all: seq<bv8>)
      requires Between(start) && start.left == 0 && CallReturns(start) && start.room == size
      requires |out| < size && FlagsSoFar(start, first, size, out)
      modifies this`doClosing, this`dataBits, this`line, this`sent
      ensures FlagsSoFar(start, first, size, all)
      ensures Measure(ControlOf(0, size - |all|)) < Measure(old(ControlOf(0, size - |out|)))
    {
      SameRotation();
      var more := CountedTurn(start, |out|, size - |out|);
      RepeatMore(doBitreverse, first, out, more, RotatedFlag(start.dataBits));
      all := out + more;
    }

    /** The loop between frames with nothing to send. The first call of all writes two bytes even into a buffer of
        one. */
    method SendFlags(size: nat) returns (out: seq<bv8>)
      requires Idle() && CallReturns(ControlOf(0, size))
      modifies this`doClosing, this`dataBits, this`line, this`sent
      ensures Idle() && line == old(line) + Wire(doBitreverse, out)
      ensures Flagging(old(ControlOf(0, size)), ControlOf(0, size - |out|), |out|)
      ensures Wire(doBitreverse, out) == Repeat(RotatedFlag(old(dataBits)), |out|)
      ensures |out| == FlagBytes(old(ControlOf(0, size)))
    {
      ghost var first, start := line, ControlOf(0, size);
      out := [];
      assert line + [] == line;
      while |out| < size
        invariant FlagsSoFar(start, first, size, out)
        decreases Measure(ControlOf(0, size - |out|))
      {
        out := MoreFlags(start, first, size, out);
      }
    }

    /** A turn of the loop between frames with a frame to send: it clears `doClosing`, or starts the frame. */
    method StartTurn(src: seq<bv8>, room: int) returns (out: seq<bv8>)
      requires Idle() && src != [] && (|src| == 1 ==> state == SendFlagOne) && (doClosing ==> state == SendFastFlag)
      modifies this
      ensures |out| <= 1 && sent == old(sent) + Wire(doBitreverse, out)
      ensures var c := Turn(old(ControlOf(|src|, room)));
              && c.started == !Resting() == !old(doClosing) && c.room == room - |out| &&
                 c.left == |src| - (if Resting() then 0 else 1)
              && (Resting() ==> c == ControlOf(|src|, room))
      ensures Resting() ==>
                && Idle() && state == old(state) && dataBits == old(dataBits) && !doClosing
                && line == old(line)
      ensures !Resting() ==>
                Busy() && Framing() && Waiting(7) && payload == src && Taken() == 1 &&
                    base == old(line) + FlagEnd(old(dataBits))
    {
      if doClosing {
        out := [];
        doClosing := false;
        assert sent + [] == sent;
      } else {
        out := Open(src);
      }
    }

    /** A frame is complete with its closing flag, or the buffer is full and `rest` of it is not yet taken. */
    ghost predicate Progress(rest: seq<bv8>, written: nat, size: nat)
      reads this
    {
      && Framing() && Ended() == Resting() && Busy() == !Resting() && written <= size
      && if Resting() then rest == [] else Waiting(7) && Feeds(rest, 0) && written == size
    }

    /** `osmo_isdnhdlc_encode` with `src` the rest of a frame: as much of it as fits. */
    method Continue(src: seq<bv8>, size: nat) returns (out: seq<bv8>, count: nat)
      requires Busy() && Framing() && Waiting(7) && Feeds(src, 0)
      modifies this
      ensures sent == old(sent) + Wire(doBitreverse, out) && |out| <= size && count <= |src|
      ensures payload == old(payload) && base == old(base)
      ensures Progress(src[count..], |out|, size)
    {
      out, count := SendFrame(src, 0, size);
      EndOfEnd(src, payload, count);
    }

    /** The loop between frames with a frame to send, up to the start of the frame. */
    method StartLoop(src: seq<bv8>, size: nat) returns (out: seq<bv8>)
      requires Idle() && src != [] && (|src| == 1 ==> state == SendFlagOne) && size > 0 &&
               CallReturns(ControlOf(|src|, size))
      modifies this
      ensures |out| <= 1 && sent == old(sent) + Wire(doBitreverse, out)
      ensures Busy() && Framing() && Waiting(7) && payload == src && Taken() == 1 &&
              base == old(line) + FlagEnd(old(dataBits))
    {
      out := StartTurn(src, size);
      if Resting() {
        var more := StartTurn(src, size);
        WireTo(doBitreverse, old(sent), out, more);
        out := out + more;
      }
    }

    /** `osmo_isdnhdlc_encode` with `src` a new frame. */
    method Begin(src: seq<bv8>, size: nat) returns (out: seq<bv8>, count: nat)
      requires Idle() && src != [] && (|src| == 1 ==> state == SendFlagOne) && size > 0 &&
               CallReturns(ControlOf(|src|, size))
      modifies this
      ensures sent == old(sent) + Wire(doBitreverse, out) && |out| <= size && count <= |src|
      ensures payload == src && base == old(line) + FlagEnd(old(dataBits))
      ensures Progress(src[count..], |out|, size)
    {
      var first := StartLoop(src, size);
      var more, n := Continue(src[1..], size - |first|);
      count := n + 1;
      WireTo(doBitreverse, old(sent), first, more);
      out := first + more;
      assert src[1..][n..] == src[count..];
    }

    /** `osmo_isdnhdlc_encode` between frames. */
    method FromRest(src: seq<bv8>, size: nat) returns (out: seq<bv8>, count: nat)
      requires Idle() && (|src| == 1 ==> state == SendFlagOne) && CallReturns(ControlOf(|src|, size))
      modifies this
      ensures sent == old(sent) + Wire(doBitreverse, out) && count <= |src|
      ensures Idle() == Resting() && Busy() == !Resting()
      ensures src == [] ==>
                && Resting() && Flagging(old(ControlOf(0, size)), ControlOf(0, size - |out|), |out|)
                && Wire(doBitreverse, out) == Repeat(RotatedFlag(old(dataBits)), |out|)
                && |out| == FlagBytes(old(ControlOf(0, size)))
      ensures src != [] && size == 0 ==> Resting() && line == old(line) && count == 0 && out == []
      ensures src != [] && size > 0 ==> payload == src && base == old(line) + FlagEnd(old(dataBits))
      ensures Progress(src[count..], |out|, size) || src == [] || size == 0
    {
      if src == [] {
        out := SendFlags(size);
        count := 0;
      } else if size == 0 {
        out, count := [], 0;
        assert sent + [] == sent;
      } else {
        out, count := Begin(src, size);
      }
    }

    /** `osmo_isdnhdlc_encode` between frames, with the special handling of frames of one byte. */
    method Restart(src: seq<bv8>, size: nat) returns (out: seq<bv8>, count: nat)
      requires Idle() && Returns(src, size)
      modifies this
      ensures sent == old(sent) + Wire(doBitreverse, out) && count <= |src|
      ensures Idle() == Resting() && Busy() == !Resting()
      ensures src == [] ==>
                && Resting() && Flagging(old(ControlOf(0, size)), ControlOf(0, size - |out|), |out|)
                && Wire(doBitreverse, out) == Repeat(RotatedFlag(old(dataBits)), |out|)
                && |out| == FlagBytes(old(ControlOf(0, size)))
      ensures src != [] && size == 0 ==> Resting() && line == old(line) && count == 0 && out == []
      ensures src != [] && size > 0 ==> payload == src && base == old(line) + FlagEnd(old(dataBits))
      ensures Progress(src[count..], |out|, size) || src == [] || size == 0
    {
      MarkOne(src);
      out, count := FromRest(src, size);
    }

    /** `osmo_isdnhdlc_encode`: flags, a new frame, or the rest of one. */
    method Encode(src: seq<bv8>, size: nat) returns (out: seq<bv8>, count: nat)
      requires |src| <= 0xffff && Returns(src, size)
      requires if Resting() then Idle() else Busy() && Framing() && Waiting(7) && Feeds(src, 0)
      modifies this
      ensures sent == old(sent) + Wire(doBitreverse, out) && count <= |src|
      ensures Idle() == Resting() && Busy() == !Resting()
      ensures old(Resting()) && src == [] ==>
                && Resting() && Flagging(old(ControlOf(0, size)), ControlOf(0, size - |out|), |out|)
                && Wire(doBitreverse, out) == Repeat(RotatedFlag(old(dataBits)), |out|)
                && |out| == FlagBytes(old(ControlOf(0, size)))
      ensures old(Resting()) && src != [] && size == 0 ==> Resting() && line == old(line) && count == 0 && out == []
      ensures old(Resting()) && src != [] && size > 0 ==>
              payload == src && base == old(line) + FlagEnd(old(dataBits))
      ensures !old(Resting()) ==> payload == old(payload) && base == old(base)
      ensures Progress(src[count..], |out|, size) || (old(Resting()) && (src == [] || size == 0))
    {
      if Resting() {
        out, count := Restart(src, size);
      } else {
        out, count := Continue(src, size);
      }
    }
  }

  lemma {:induction false} LineLength(line: seq<bool>, base: seq<bool>, ds: seq<bool>, ones: nat)
    requires OnLine(line, base, ds, ones)
    ensures |line| <= |base| + |Stuffed(ds).bits|
  {
    if ones == 5 {
      assert |line + [false]| == |base + Stuffed(ds).bits|;
    }
  }

  lemma {:induction false} StuffedGrows(a: seq<bool>, b: seq<bool>)
    ensures |Stuffed(a).bits| <= |Stuffed(a + b).bits|
    decreases |b|
  {
    if b == [] {
      assert a + b == a;
    } else {
      assert (a + b)[..|a + b| - 1] == a + b[..|b| - 1];
      StuffedGrows(a, b[..|b| - 1]);
    }
  }

  lemma {:induction false} DataBitsGrow(frame: seq<bv8>, k: nat)
    requires k <= |frame|
    ensures |Stuffed(DataBits(frame[..k])).bits| <= |Body(frame)|
    decreases |frame| - k
  {
    if k == |frame| {
      assert frame[..k] == frame;
    } else {
      assert frame[..k + 1][..k] == frame[..k];
      StuffedGrows(DataBits(frame[..k]), LsbFirst(frame[k]));
      DataBitsGrow(frame, k + 1);
    }
  }

  lemma {:induction false} DoneBound(frame: seq<bv8>, k: nat, left: nat)
    requires k <= |frame| && left <= 8
    ensures |Stuffed(DoneBits(frame, k, left)).bits| <= |Body(frame)|
  {
    if left == 0 || k == |frame| {
      DataBitsGrow(frame, k);
    } else {
      DataBitsGrow(frame, k + 1);
      assert frame[..k + 1][..k] == frame[..k];
      var b, n := LsbFirst(frame[k]), 8 - left;
      assert b[..n] + b[n..] == b;
      Grouped(DataBits(frame[..k]), b[..n], b[n..]);
      StuffedGrows(DataBits(frame[..k]) + b[..n], b[n..]);
    }
  }

  lemma {:induction false} WireTo(reversed: bool, sent: seq<bool>, out: seq<bv8>, more: seq<bv8>)
    ensures sent + Wire(reversed, out) + Wire(reversed, more) == sent + Wire(reversed, out + more)
  {
    WireAppend(reversed, out, more);
    Grouped(sent, Wire(reversed, out), Wire(reversed, more));
  }

  lemma {:induction false} RepeatMore(reversed: bool, start: seq<bool>, out: seq<bv8>, more: seq<bv8>, f: seq<bool>)
    requires Wire(reversed, more) == Repeat(f, |more|) && Wire(reversed, out) == Repeat(f, |out|)
    ensures start + Wire(reversed, out) + Wire(reversed, more) == start + Wire(reversed, out + more)
    ensures Wire(reversed, out + more) == Repeat(f, |out + more|)
  {
    WireTo(reversed, start, out, more);
    WireAppend(reversed, out, more);
    RepeatAppend(f, |out|, |more|);
  }

  lemma {:induction false} RepeatAppend(f: seq<bool>, m: nat, n: nat)
    ensures Repeat(f, m + n) == Repeat(f, m) + Repeat(f, n)
    decreases n
  {
    if n == 0 {
    } else {
      RepeatAppend(f, m, n - 1);
      Grouped(Repeat(f, m), Repeat(f, n - 1), f);
    }
  }

  lemma {:induction false} RepeatOne(f: seq<bool>)
    ensures Repeat(f, 1) == f && Repeat(f, 0) == []
  {
    assert Repeat(f, 1) == Repeat(f, 0) + f;
  }

  /** The eight bits that repeat flags when `n` bits of a flag are still to come: the flag turned right `n` times. */
  function RotatedFlag(n: nat): (r: seq<bool>)
    ensures |r| == 8
  {
    if n == 0 then FLAG else RotateRight(RotatedFlag(n - 1))
  }

  function RotateRight(s: seq<bool>): (r: seq<bool>)
    requires |s| == 8
    ensures |r| == 8
  {
    [s[7]] + s[..7]
  }

  /** They are the last `n` bits of a flag and the beginning of another. */
  lemma {:induction false} RotatedIs(n: nat)
    requires n <= 8
    ensures RotatedFlag(n) == FlagEnd(n) + FLAG[..8 - n]
  {
    FlagEndIs(n);
    if n == 0 {
      assert FLAG[8..] + FLAG[..8] == FLAG;
    } else {
      RotatedIs(n - 1);
      FlagEndIs(n - 1);
      TurnedOnce(FLAG, n);
    }
  }

  lemma {:induction false} TurnedOnce(f: seq<bool>, n: nat)
    requires |f| == 8 && 1 <= n <= 8
    ensures RotateRight(f[9 - n..] + f[..9 - n]) == f[8 - n..] + f[..8 - n]
  {
    var s := f[9 - n..] + f[..9 - n];
    assert s[7] == f[8 - n] && s[..7] == f[9 - n..] + f[..8 - n];
  }

  lemma {:induction false} SameRotation()
    ensures RotatedFlag(0) == FLAG && RotatedFlag(8) == FLAG
  {
    RotatedIs(8);
  }

  lemma {:induction false} RepeatTwo(f: seq<bool>, n: nat)
    ensures Repeat(f, n + 2) == f + f + Repeat(f, n)
  {
    RepeatFirst(f, n + 2);
    RepeatFirst(f, n + 1);
    Grouped(f, f, Repeat(f, n));
  }

  lemma {:induction false} NothingDone(frame: seq<bv8>)
    ensures DoneBits(frame, 0, 0) == []
  {
    assert frame[..0] == [];
  }

  lemma {:induction false} Pad(sent: seq<bool>, low: seq<bool>, base: seq<bool>, body: seq<bool>, n: nat, v: bv8)
    requires 1 <= n <= 8 && |low| == n && sent + low == base + body + FLAG && IsRotatedFlag(v, n)
    ensures sent + MsbFirst(v) == Padded(base, body, n)
  {
    RotatedIs(n);
    FlagEndIs(n);
    Continued(sent, low, base + body, FLAG, FLAG[..8 - n]);
  }

  lemma {:induction false} Continued(a: seq<bool>, b: seq<bool>, c: seq<bool>, d: seq<bool>, more: seq<bool>)
    requires a + b == c + d && |b| <= |d|
    ensures a + (d[|d| - |b|..] + more) == c + d + more
  {
    LastBits(a, b, c, d);
    Grouped(a, b, more);
  }

  lemma {:induction false} LastBits(a: seq<bool>, b: seq<bool>, c: seq<bool>, d: seq<bool>)
    requires a + b == c + d && |b| <= |d|
    ensures b == d[|d| - |b|..] && a == c + d[..|d| - |b|]
  {
    var n := |a|;
    assert b == (a + b)[n..] && a == (a + b)[..n];
  }

  lemma {:induction false} FlagShift(left: nat, reg: bv8)
    requires 1 <= left <= 8 && Shifted(reg, 0x7e, 8 - left)
    ensures FLAG[..8 - left] + [reg & 0x01 != 0] == FLAG[..9 - left]
    ensures Shifted(reg >> 1, 0x7e, 8 - (left - 1))
  {
    ShiftedOne(reg, 0x7e, 8 - left);
    assert LsbFirst(0x7e) == FLAG;
  }

  lemma {:induction false} FrameCheck(frame: seq<bv8>, payload: seq<bv8>, crc: bv16, sum: bv16)
    requires frame == Frame(payload) && crc == CrcRun(0xffff, payload) && sum == crc ^ 0xffff
    ensures frame[|payload|] == (sum & 0xff) as bv8 && frame[|payload| + 1] == (sum >> 8) as bv8
  {
    assert frame[|payload|] == CheckBytes(crc)[0] && frame[|payload| + 1] == CheckBytes(crc)[1];
  }

  lemma {:induction false} CloseLine(line: seq<bool>, base: seq<bool>, frame: seq<bv8>, ones: nat)
    requires OnLine(line, base, DoneBits(frame, |frame|, 0), ones)
    ensures if ones == 5 then line + [false] == base + Body(frame) else line == base + Body(frame) + FLAG[..0]
  {
    assert frame[..|frame|] == frame;
    assert FLAG[..0] == [];
  }
}
