/** The HDLC receiver with its byte-level shortcut for flags: src/core/isdnhdlc.c, osmo_isdnhdlc_rcv_init and
    osmo_isdnhdlc_decode, without 56k adaptation. Streams with seven ones in a row (aborts, idle line) and
    frames longer than the destination buffer are outside its contract. */
module HdlcDecoder {
  import opened HdlcFrame

  /** HDLC_GETFLAG_B7, HDLC_GET_DATA and HDLC_FAST_FLAG. */
  datatype State = GetFlagB7 | GetData | FastFlag

  // ---------------------------------------------------------------------------
  // The stream

  /** `osmo_revbytebits_8`. */
  function Rev8(v: bv8): (r: bv8)
    ensures MsbFirst(r) == LsbFirst(v) && LsbFirst(r) == MsbFirst(v)
  {
    ((v & 0x01) << 7) | ((v & 0x02) << 5) | ((v & 0x04) << 3) | ((v & 0x08) << 1) |
    ((v & 0x10) >> 1) | ((v & 0x20) >> 3) | ((v & 0x40) >> 5) | ((v & 0x80) >> 7)
  }

  /** A byte of the stream as the codec shifts it, high bit first. */
  function Load(reversed: bool, v: bv8): (r: bv8)
    ensures MsbFirst(r) == if reversed then MsbFirst(v) else LsbFirst(v)
  {
    if reversed then v else Rev8(v)
  }

  /** Bit `j` of a byte of the stream, in the order they are on the line. */
  function LineBit(reversed: bool, v: bv8, j: nat): bool
    requires j < 8
  {
    MsbFirst(Load(reversed, v))[j]
  }

  /** The bits of a byte stream in the order they are on the line. */
  function Wire(reversed: bool, bytes: seq<bv8>): (w: seq<bool>)
    ensures |w| == 8 * |bytes|
  {
    seq(8 * |bytes|, i requires 0 <= i < 8 * |bytes| => LineBit(reversed, bytes[i / 8], i % 8))
  }

  lemma {:induction false} WireAppend(reversed: bool, a: seq<bv8>, b: seq<bv8>)
    ensures Wire(reversed, a + b) == Wire(reversed, a) + Wire(reversed, b)
  {
    var w, u, v := Wire(reversed, a + b), Wire(reversed, a), Wire(reversed, b);
    forall i | 0 <= i < |w|
      ensures w[i] == (u + v)[i]
    {
      WireAt(reversed, a, b, i);
    }
  }

  lemma {:induction false} WireAt(reversed: bool, a: seq<bv8>, b: seq<bv8>, i: nat)
    requires i < 8 * |a + b|
    ensures Wire(reversed, a + b)[i] == (Wire(reversed, a) + Wire(reversed, b))[i]
  {
    if i < 8 * |a| {
      assert (a + b)[i / 8] == a[i / 8];
    } else {
      ByteIndex(i, |a|);
      assert (a + b)[i / 8] == b[i / 8 - |a|];
    }
  }

  lemma ByteIndex(i: nat, n: nat)
    requires i >= 8 * n
    ensures (i - 8 * n) / 8 == i / 8 - n && (i - 8 * n) % 8 == i % 8
  {
  }

  lemma {:induction false} WireOne(reversed: bool, v: bv8)
    ensures Wire(reversed, [v]) == MsbFirst(Load(reversed, v))
  {
    forall i | 0 <= i < 8
      ensures Wire(reversed, [v])[i] == LineBit(reversed, v, i)
    {
      assert i / 8 == 0 && i % 8 == i;
    }
  }

  // ---------------------------------------------------------------------------
  // Streams in the contract

  /** The receiver never sees seven ones in a row and never has more than `cap` bytes of a frame. */
  ghost predicate Clean(cap: nat, rx: Rx, bits: seq<bool>)
    decreases |bits|
  {
    bits != [] ==>
      && Clean(cap, rx, bits[..|bits| - 1])
      && Run(rx, bits).ones <= 6
      && |Run(rx, bits).frame| <= cap
  }

  lemma {:induction false} CleanAppend(cap: nat, rx: Rx, a: seq<bool>, b: seq<bool>)
    ensures Clean(cap, rx, a + b) <==> Clean(cap, rx, a) && Clean(cap, Run(rx, a), b)
    decreases |b|
  {
    if b == [] {
      assert a + b == a;
    } else {
      assert (a + b)[..|a + b| - 1] == a + b[..|b| - 1];
      CleanAppend(cap, rx, a, b[..|b| - 1]);
      RunAppend(rx, a, b);
    }
  }

  lemma {:induction false} CleanOne(cap: nat, rx: Rx, b: bool)
    ensures Clean(cap, rx, [b]) <==> Next(rx, b).ones <= 6 && |Next(rx, b).frame| <= cap
  {
    RunOne(rx, b);
    assert [b][..0] == [];
  }

  lemma {:induction false} FirstBit(cap: nat, rx: Rx, bits: seq<bool>)
    requires bits != [] && Clean(cap, rx, bits)
    ensures Next(rx, bits[0]).ones <= 6 && |Next(rx, bits[0]).frame| <= cap
    ensures Run(rx, bits[..1]) == Next(rx, bits[0]) && AllReports(rx, bits[..1]) == Reports(rx, bits[0])
  {
    assert bits == bits[..1] + bits[1..] && bits[..1] == [bits[0]];
    CleanAppend(cap, rx, bits[..1], bits[1..]);
    CleanOne(cap, rx, bits[0]);
    RunOne(rx, bits[0]);
  }

  // ---------------------------------------------------------------------------
  // The flag tables

  function FastFlagByte(shift: nat): bv8
    requires shift <= 8
  {
    [0x00, 0x00, 0x00, 0x20, 0x30, 0x38, 0x3c, 0x3e, 0x3f][shift]
  }

  function FastFlagValue(shift: nat): bv8
    requires shift <= 8
  {
    [0x00, 0x7e, 0xfc, 0xf9, 0xf3, 0xe7, 0xcf, 0x9f, 0x3f][shift]
  }

  function FastAbort(shift: nat): bv8
    requires shift <= 9
  {
    [0x00, 0x00, 0x80, 0xc0, 0xe0, 0xf0, 0xf8, 0xfc, 0xfe, 0xff][shift]
  }

  /** A closing 0 and the beginning of another flag. */
  lemma {:induction false} FastFlagBits(shift: nat)
    requires 1 <= shift <= 8
    ensures MsbFirst(FastFlagByte(shift))[..shift] == [false] + FLAG[..shift - 1]
  {
    var v := FastFlagByte(shift);
    var b := MsbFirst(v);
    forall k | 0 <= k < shift
      ensures b[k] == ([false] + FLAG[..shift - 1])[k]
    {
      FastFlagBit(shift, k);
    }
  }

  lemma {:induction false} FastFlagBit(shift: nat, k: nat)
    requires 1 <= shift <= 8 && k < shift
    ensures MsbFirst(FastFlagByte(shift))[k] == (k >= 2 && FLAG[k - 1])
  {
    if shift == 1 {
    } else if shift == 2 {
    } else if shift == 3 {
      assert MsbFirst(0x20) == [false, false, true, false, false, false, false, false];
    } else if shift == 4 {
      assert MsbFirst(0x30) == [false, false, true, true, false, false, false, false];
    } else if shift == 5 {
      assert MsbFirst(0x38) == [false, false, true, true, true, false, false, false];
    } else if shift == 6 {
      assert MsbFirst(0x3c) == [false, false, true, true, true, true, false, false];
    } else if shift == 7 {
      assert MsbFirst(0x3e) == [false, false, true, true, true, true, true, false];
    } else {
      assert MsbFirst(0x3f) == [false, false, true, true, true, true, true, true];
    }
  }

  /** The end of a flag and the beginning of another. */
  lemma {:induction false} FastFlagValueBits(shift: nat)
    requires 1 <= shift <= 8
    ensures MsbFirst(FastFlagValue(shift)) == FLAG[shift - 1..] + FLAG[..shift - 1]
  {
    var r := FLAG[shift - 1..] + FLAG[..shift - 1];
    assert |r| == 8;
    if shift == 1 {
      assert MsbFirst(0x7e) == r;
    } else if shift == 2 {
      assert MsbFirst(0xfc) == r;
    } else if shift == 3 {
      assert MsbFirst(0xf9) == r;
    } else if shift == 4 {
      assert MsbFirst(0xf3) == r;
    } else if shift == 5 {
      assert MsbFirst(0xe7) == r;
    } else if shift == 6 {
      assert MsbFirst(0xcf) == r;
    } else if shift == 7 {
      assert MsbFirst(0x9f) == r;
    } else {
      assert MsbFirst(0x3f) == r;
    }
  }

  /** The registers restored by `handle_abort` are those of the bit-by-bit receiver. */
  lemma {:induction false} AbortRegisters(shift: nat)
    requires 1 <= shift <= 7
    ensures FlagReg(0, shift - 1) == FastAbort(shift - 1)
  {
    assert FlagReg(0, 0) == 0 && FlagReg(0, 1) == 0 && FlagReg(0, 2) == 0x80 && FlagReg(0, 3) == 0xc0;
    assert FlagReg(0, 4) == 0xe0 && FlagReg(0, 5) == 0xf0 && FlagReg(0, 6) == 0xf8;
  }

  /** Skipping a whole rotated flag leaves the receiver as it was. */
  lemma {:induction false} SkipFlag(rx: Rx, shift: nat)
    requires 1 <= shift <= 8 && rx == OPENED
    ensures var at, bits := InFlag(rx, shift - 1), MsbFirst(FastFlagValue(shift));
            Run(at, bits) == at && AllReports(at, bits) == []
  {
    WholeFlag(rx);
    FlagPrefix(rx, shift - 1);
    FastFlagValueBits(shift);
    SplitFlag(shift - 1);
    Rotated(rx, FLAG[..shift - 1], FLAG[shift - 1..]);
  }

  lemma SplitFlag(n: nat)
    requires n <= 8
    ensures FLAG[..n] + FLAG[n..] == FLAG
  {
  }

  lemma {:induction false} Rotated(rx: Rx, a: seq<bool>, b: seq<bool>)
    requires Run(rx, a + b) == rx && AllReports(rx, a + b) == []
    ensures Run(Run(rx, a), b + a) == Run(rx, a) && AllReports(Run(rx, a), b + a) == []
  {
    RunAppend(rx, a, b);
    RunAppend(Run(rx, a), b, a);
  }

  /** An idle byte. */
  lemma {:induction false} EightOnes(rx: Rx)
    ensures Run(rx, MsbFirst(0xff)).ones == rx.ones + 8
  {
    var b := MsbFirst(0xff);
    assert b == [true, true, true, true, true, true, true, true];
    TrailingOnes(rx, b);
    OnesTrailing(rx.ones, b);
  }

  lemma {:induction false} NotIdle(cap: nat, rx: Rx, v: bv8)
    requires Clean(cap, rx, MsbFirst(v))
    ensures v != 0xff
  {
    EightOnes(rx);
  }

  lemma {:induction false} OnesTrailing(ones: nat, bits: seq<bool>)
    requires forall k :: 0 <= k < |bits| ==> bits[k]
    ensures Trailing(ones, bits) == ones + |bits|
    decreases |bits|
  {
    if bits == [] {
    } else {
      OnesTrailing(ones, bits[..|bits| - 1]);
    }
  }

  /** From six ones in a row, a closing 0 and the beginning of a flag. */
  lemma {:induction false} EnterFlag(rx: Rx, shift: nat)
    requires 1 <= shift <= 8 && rx.ones == 6
    ensures var bits := [false] + FLAG[..shift - 1];
            && Run(rx, bits) == InFlag(OPENED, shift - 1)
            && AllReports(rx, bits) == Reports(rx, false)
  {
    var a := FLAG[..shift - 1];
    RunOne(rx, false);
    FlagPrefix(Next(rx, false), shift - 1);
    RunAppend(rx, [false], a);
  }

  // ---------------------------------------------------------------------------
  // Small facts about a byte being shifted out

  lemma {:induction false} ShiftOut(v: bv8, n: nat)
    requires 1 <= n <= 8
    ensures MsbFirst(v)[..n][0] == (v & 0x80 != 0)
    ensures MsbFirst(v << 1)[..n - 1] == MsbFirst(v)[..n][1..]
  {
    var a, b := MsbFirst(v << 1), MsbFirst(v);
    ShiftedBits(v);
    assert forall k :: 0 <= k < 7 ==> a[k] == b[k + 1];
  }

  lemma ShiftedBits(v: bv8)
    ensures MsbFirst(v << 1)[..7] == MsbFirst(v)[1..]
  {
  }

  /** What a call hands to its caller. */
  function Delivered(status: int, dst: seq<bv8>): seq<Report>
    requires status <= |dst|
  {
    if status == 0 then [] else [Report(status, if status > 0 then dst[..status] else [])]
  }

  class Decoder {
    var state: State
    var bitShift: nat
    var hdlcBits1: nat
    var dataBits: nat
    var ffbitShift: nat
    var dstpos: nat
    var crc: bv16
    var cbin: bv8
    var shiftReg: bv8
    var ffvalue: bv8
    var dataReceived: bool
    const doBitreverse: bool
    const dst: array<bv8>

    ghost predicate Valid()
      reads this
    {
      && bitShift <= 8 && dstpos <= dst.Length
      && (state == GetData ==> hdlcBits1 <= 6 && dataBits <= 7 && (!dataReceived ==> dstpos == 0))
      && (state == FastFlag ==>
            && (bitShift == 0 || bitShift == 8) && 1 <= ffbitShift <= 8
            && ffvalue == FastFlagValue(ffbitShift) && crc == 0xffff && dstpos == 0)
      && (state == GetFlagB7 ==> bitShift == 8 && ffbitShift == 8 && dstpos == 0)
    }

    /** The bit-by-bit receiver this state stands for. */
    ghost function Abs(): Rx
      requires Valid()
      reads this, dst
    {
      if state == GetData then Rx(hdlcBits1, dataBits, shiftReg, crc, dataReceived, dst[..dstpos])
      else InFlag(OPENED, ffbitShift - 1)
    }

    /** Bits loaded and not yet looked at. */
    ghost function Pending(): (p: seq<bool>)
      requires Valid()
      reads this
      ensures |p| == bitShift
    {
      MsbFirst(cbin)[..bitShift]
    }

    /** `osmo_isdnhdlc_rcv_init` with the destination buffer of the calls to come. */
    constructor (bitreverse: bool, buffer: array<bv8>)
      ensures Valid() && Abs() == START && Pending() == []
      ensures doBitreverse == bitreverse && dst == buffer
    {
      state := GetData;
      bitShift, hdlcBits1, dataBits, ffbitShift, dstpos := 0, 0, 0, 0, 0;
      crc, cbin, shiftReg, ffvalue := 0, 0, 0, 0;
      dataReceived := false;
      doBitreverse := bitreverse;
      dst := buffer;
    }

    /** `check_frame`. */
    method CheckLength() returns (status: int)
      requires Valid() && state == GetData
      modifies this`dstpos
      ensures status <= dst.Length && dstpos <= old(dstpos) && (status == 0 ==> dstpos == 0)
      ensures Report(status, if status > 0 then dst[..status] else []) == CheckFrame(old(Abs()))
    {
      if dstpos < 2 {
        status := -1;
      } else if crc != 0xf0b8 {
        status := -2;
      } else {
        dstpos := dstpos - 2;
        status := dstpos;
        assert dst[..old(dstpos)][..status] == dst[..status];
      }
    }

    /** `case 6`: a 0 after six ones ends the frame, if there is one. */
    method FrameEnd() returns (status: int)
      requires Valid() && state == GetData && hdlcBits1 == 6
      modifies this`dstpos, this`crc, this`shiftReg, this`dataBits
      ensures crc == 0xffff && shiftReg == 0 && dataBits == 0
      ensures status <= dst.Length && dstpos <= dst.Length && (status == 0 ==> dstpos == 0)
      ensures Reports(old(Abs()), false) == Delivered(status, dst[..])
    {
      status := 0;
      if dataReceived {
        status := CheckLength();
        assert status > 0 ==> dst[..][..status] == dst[..status];
      }
      crc := 0xffff;
      shiftReg := 0;
      dataBits := 0;
    }

    /** `handle_fast_flag` and the shift after it: the shortcut may take every pending bit. */
    method HandleFastFlag() returns (ghost used: nat)
      requires Valid() && state == GetData && bitShift > 0 && cbin & 0x80 == 0
      requires crc == 0xffff && shiftReg == 0 && dataBits == 0 && hdlcBits1 == 0 && dstpos == 0
      modifies this
      ensures Valid() && 1 <= used <= old(bitShift) && bitShift == old(bitShift) - used
      ensures Pending() == old(Pending())[used..]
      ensures old(Pending())[..used] == [false] + FLAG[..used - 1]
      ensures Abs() == InFlag(OPENED, used - 1)
    {
      if cbin == FastFlagByte(bitShift) {
        used := bitShift;
        FastFlagBits(bitShift);
        assert Pending()[..used] == Pending() && Pending()[used..] == [];
        ffvalue := FastFlagValue(bitShift);
        state := FastFlag;
        ffbitShift := bitShift;
        bitShift := 1;
      } else {
        used := 1;
        ShiftOut(cbin, bitShift);
        assert Pending()[..1] == [false] + FLAG[..0];
        state := GetData;
        dataReceived := false;
      }
      cbin := cbin << 1;
      bitShift := bitShift - 1;
    }

    /** A 0 after six ones. */
    method FlagEnd() returns (status: int, ghost used: nat)
      requires Valid() && state == GetData && bitShift > 0 && hdlcBits1 == 6 && cbin & 0x80 == 0
      modifies this
      ensures Valid() && 1 <= used <= old(bitShift) && bitShift == old(bitShift) - used
      ensures Pending() == old(Pending())[used..]
      ensures Abs() == Run(old(Abs()), old(Pending())[..used])
      ensures status <= dst.Length && AllReports(old(Abs()), old(Pending())[..used]) == Delivered(status, dst[..])
    {
      ghost var rx := Abs();
      status := FrameEnd();
      hdlcBits1 := 0;
      if status != 0 {
        dstpos := 0;
      }
      used := HandleFastFlag();
      EnterFlag(rx, used);
    }

    /** The byte in the shift register is complete. */
    method StoreByte()
      requires dstpos < dst.Length
      modifies this`dataBits, this`dataReceived, this`crc, this`dstpos, dst
      ensures dataBits == 0 && dataReceived && crc == CrcByte(old(crc), shiftReg)
      ensures dstpos == old(dstpos) + 1 && dst[..dstpos] == old(dst[..dstpos]) + [shiftReg]
    {
      dataBits := 0;
      dataReceived := true;
      crc := CrcByte(crc, shiftReg);
      dst[dstpos] := shiftReg;
      dstpos := dstpos + 1;
    }

    /** One more bit of the current byte. */
    method PushBit(b: bool)
      requires Valid() && state == GetData && |Collect(Abs(), b).frame| <= dst.Length
      modifies this`shiftReg, this`dataBits, this`dataReceived, this`crc, this`dstpos, dst
      ensures Valid() && Abs() == Collect(old(Abs()), b)
    {
      ghost var rx := Abs();
      shiftReg := ShiftIn(shiftReg, b);
      dataBits := dataBits + 1;
      if dataBits == 8 {
        StoreByte();
        assert Abs() == Rx(rx.ones, 0, shiftReg, CrcByte(rx.crc, shiftReg), true, rx.frame + [shiftReg]);
      } else {
        assert Abs() == rx.(bits := rx.bits + 1, reg := shiftReg);
      }
    }

    /** A bit that is not the end of a flag. */
    method FrameBit(b: bool)
      requires Valid() && state == GetData && (b || hdlcBits1 != 6)
      requires var rx := Next(Abs(), b); rx.ones <= 6 && |rx.frame| <= dst.Length
      modifies this`hdlcBits1, this`shiftReg, this`dataBits, this`dataReceived, this`crc, this`dstpos, dst
      ensures Valid() && Abs() == Next(old(Abs()), b) && Reports(old(Abs()), b) == []
    {
      if b {
        hdlcBits1 := hdlcBits1 + 1;
        if hdlcBits1 < 6 {
          PushBit(true);
        }
      } else if hdlcBits1 == 5 {
        hdlcBits1 := 0;
      } else {
        hdlcBits1 := 0;
        PushBit(false);
      }
    }

    method ShiftBit()
      requires Valid() && state == GetData && bitShift > 0
      modifies this`cbin, this`bitShift
      ensures Valid() && Abs() == old(Abs()) && Pending() == old(Pending())[1..]
    {
      ShiftOut(cbin, bitShift);
      cbin := cbin << 1;
      bitShift := bitShift - 1;
    }

    /** A bit that is not the end of a flag, with the shift after it. */
    method PlainBit()
      requires Valid() && state == GetData && bitShift > 0 && Clean(dst.Length, Abs(), Pending())
      requires cbin & 0x80 != 0 || hdlcBits1 != 6
      modifies this, dst
      ensures Valid() && bitShift == old(bitShift) - 1 && Pending() == old(Pending())[1..]
      ensures Abs() == Run(old(Abs()), old(Pending())[..1])
      ensures AllReports(old(Abs()), old(Pending())[..1]) == []
    {
      ShiftOut(cbin, bitShift);
      FirstBit(dst.Length, Abs(), Pending());
      FrameBit(cbin & 0x80 != 0);
      ShiftBit();
    }

    /** HDLC_GET_DATA. */
    method DataBit() returns (status: int, ghost used: nat)
      requires Valid() && state == GetData && bitShift > 0 && Clean(dst.Length, Abs(), Pending())
      modifies this, dst
      ensures Valid() && 1 <= used <= old(bitShift) && bitShift == old(bitShift) - used
      ensures Pending() == old(Pending())[used..]
      ensures Abs() == Run(old(Abs()), old(Pending())[..used])
      ensures status <= dst.Length && AllReports(old(Abs()), old(Pending())[..used]) == Delivered(status, dst[..])
    {
      if cbin & 0x80 == 0 && hdlcBits1 == 6 {
        status, used := FlagEnd();
      } else {
        status, used := 0, 1;
        PlainBit();
      }
    }

    /** `handle_abort`: back to single bits in the middle of a flag. */
    method HandleAbort()
      requires Valid() && state == FastFlag && ffbitShift < 8
      modifies this`shiftReg, this`hdlcBits1, this`dataBits, this`state, this`dataReceived
      ensures Valid() && state == GetData && Abs() == old(Abs())
    {
      AbortRegisters(ffbitShift);
      shiftReg := FastAbort(ffbitShift - 1);
      hdlcBits1 := if ffbitShift < 2 then 0 else ffbitShift - 2;
      dataBits := ffbitShift - 1;
      state := GetData;
      dataReceived := false;
    }

    /** HDLC_FAST_FLAG: another whole flag, or back to single bits with the registers `handle_abort` restores. */
    method FlagByte() returns (ghost used: nat)
      requires Valid() && state == FastFlag && bitShift == 8 && Clean(dst.Length, Abs(), Pending())
      modifies this
      ensures Valid() && used == (if state == FastFlag then 8 else 0) && bitShift == 8 - used
      ensures Pending() == old(Pending())[used..]
      ensures Abs() == Run(old(Abs()), old(Pending())[..used])
      ensures AllReports(old(Abs()), old(Pending())[..used]) == []
    {
      if cbin == ffvalue {
        used := 8;
        SkipFlag(OPENED, ffbitShift);
        assert Pending()[..8] == MsbFirst(ffvalue);
        bitShift := 0;
      } else {
        used := 0;
        assert MsbFirst(cbin)[..8] == MsbFirst(cbin);
        NotIdle(dst.Length, Abs(), cbin);
        assert cbin != 0xff;
        if ffbitShift == 8 {
          state := GetFlagB7;
        } else {
          HandleAbort();
        }
      }
    }

    /** HDLC_GETFLAG_B7. */
    method FlagBit() returns (ghost used: nat)
      requires Valid() && state == GetFlagB7 && Clean(dst.Length, Abs(), Pending())
      modifies this
      ensures Valid() && used == 1 && bitShift == old(bitShift) - 1
      ensures Pending() == old(Pending())[1..]
      ensures Abs() == Run(old(Abs()), old(Pending())[..1])
      ensures AllReports(old(Abs()), old(Pending())[..1]) == []
    {
      ghost var rx, bits := Abs(), Pending();
      used := 1;
      FirstBit(dst.Length, rx, bits);
      ShiftOut(cbin, 8);
      state := GetData;
      crc := 0xffff;
      shiftReg := 0;
      hdlcBits1 := 0;
      dataBits := 0;
      dataReceived := false;
      cbin := cbin << 1;
      bitShift := bitShift - 1;
    }

    /** One turn of the loop over pending bits. */
    method Step() returns (status: int, ghost used: nat)
      requires Valid() && bitShift > 0 && Clean(dst.Length, Abs(), Pending())
      modifies this, dst
      ensures Valid() && used <= old(bitShift) && bitShift == old(bitShift) - used
      ensures Pending() == old(Pending())[used..]
      ensures Abs() == Run(old(Abs()), old(Pending())[..used])
      ensures status <= dst.Length && AllReports(old(Abs()), old(Pending())[..used]) == Delivered(status, dst[..])
      ensures used > 0 || (old(state) == FastFlag && state != FastFlag)
    {
      match state
      case GetData =>
        status, used := DataBit();
      case FastFlag =>
        status := 0;
        used := FlagByte();
      case GetFlagB7 =>
        status := 0;
        used := FlagBit();
    }

    method LoadByte(v: bv8)
      requires Valid() && bitShift == 0
      modifies this`cbin, this`bitShift
      ensures Valid() && bitShift == 8 && Pending() == MsbFirst(Load(doBitreverse, v)) && Abs() == old(Abs())
    {
      cbin := Load(doBitreverse, v);
      bitShift := 8;
    }

    /** A turn of the loop, in terms of the whole call: `seen` bits loaded, `used` of them looked at. */
    method Advance(ghost rx: Rx, ghost seen: seq<bool>, ghost used: seq<bool>) returns (status: int,
                   ghost used': seq<bool>)
      requires Valid() && bitShift > 0 && Clean(dst.Length, Abs(), Pending())
      requires Follows(rx, seen, used, Abs(), Pending()) && AllReports(rx, used) == []
      modifies this, dst
      ensures Valid() && status <= dst.Length
      ensures Follows(rx, seen, used', Abs(), Pending()) && AllReports(rx, used') == Delivered(status, dst[..])
      ensures bitShift < old(bitShift) || (bitShift == old(bitShift) && old(state) == FastFlag && state != FastFlag)
    {
      ghost var pending, at, n := Pending(), Abs(), 0;
      status, n := Step();
      used' := used + pending[..n];
      Consumed(rx, seen, used, at, pending, n);
    }

    /** The next byte, when no bit is pending. */
    method Fetch(src: seq<bv8>, count: nat, ghost rx: Rx, ghost first: seq<bool>,
                 ghost used: seq<bool>) returns (count': nat)
      requires Valid() && count < |src|
      requires Follows(rx, first + Wire(doBitreverse, src[..count]), used, Abs(), Pending())
      modifies this`cbin, this`bitShift
      ensures Valid() && bitShift > 0 && count <= count' <= |src| && 8 * count' - bitShift == 8 * count - old(bitShift)
      ensures Follows(rx, first + Wire(doBitreverse, src[..count']), used, Abs(), Pending())
    {
      count' := count;
      if bitShift == 0 {
        Loaded(rx, first, used, Abs(), doBitreverse, src, count);
        LoadByte(src[count]);
        count' := count + 1;
      }
    }

    /** A turn of the loop of osmo_isdnhdlc_decode. */
    method Turn(src: seq<bv8>, count: nat, ghost rx: Rx, ghost first: seq<bool>, ghost used: seq<bool>)
      returns (status: int, count': nat, ghost used': seq<bool>)
      requires Valid() && count < |src| && Clean(dst.Length, rx, first + Wire(doBitreverse, src))
      requires Follows(rx, first + Wire(doBitreverse, src[..count]), used, Abs(), Pending())
      requires AllReports(rx, used) == []
      modifies this, dst
      ensures Valid() && count <= count' <= |src| && status <= dst.Length
      ensures Follows(rx, first + Wire(doBitreverse, src[..count']), used', Abs(), Pending())
      ensures AllReports(rx, used') == Delivered(status, dst[..])
      ensures var before, now := 8 * (|src| - count) + old(bitShift), 8 * (|src| - count') + bitShift;
              now < before || (now == before && old(state) == FastFlag && state != FastFlag)
    {
      count' := Fetch(src, count, rx, first, used);
      Remaining(dst.Length, rx, first, doBitreverse, src, count', used, Abs(), Pending());
      status, used' := Advance(rx, first + Wire(doBitreverse, src[..count']), used);
    }

    /** `osmo_isdnhdlc_decode`: `used` are the bits looked at, all but the pending ones. */
    method Decode(src: seq<bv8>) returns (status: int, count: nat, ghost used: seq<bool>)
      requires Valid() && Clean(dst.Length, Abs(), Pending() + Wire(doBitreverse, src))
      modifies this, dst
      ensures Valid() && count <= |src| && status <= dst.Length
      ensures Follows(old(Abs()), old(Pending()) + Wire(doBitreverse, src[..count]), used, Abs(), Pending())
      ensures AllReports(old(Abs()), used) == Delivered(status, dst[..])
      ensures if status == 0 then count == |src| else used != []
    {
      status, count, used := 0, 0, [];
      ghost var first, rx := Pending(), Abs();
      NothingSeen(rx, first, doBitreverse, src);
      while count < |src|
        invariant Valid() && count <= |src|
        invariant Follows(rx, first + Wire(doBitreverse, src[..count]), used, Abs(), Pending())
        invariant AllReports(rx, used) == [] && status == 0
        decreases 8 * (|src| - count) + bitShift, if state == FastFlag then 1 else 0
      {
        status, count, used := Turn(src, count, rx, first, used);
        if status != 0 {
          NotSilent(rx, used);
          break;
        }
      }
    }
  }

  /** `used` bits of the stream `seen` took the receiver from `rx` to `at`; the others are pending. */
  ghost predicate Follows(rx: Rx, seen: seq<bool>, used: seq<bool>, at: Rx, pending: seq<bool>) {
    seen == used + pending && at == Run(rx, used)
  }

  lemma {:induction false} WireMore(reversed: bool, src: seq<bv8>, n: nat)
    requires n < |src|
    ensures Wire(reversed, src[..n + 1]) == Wire(reversed, src[..n]) + MsbFirst(Load(reversed, src[n]))
    ensures Wire(reversed, src[n..]) == MsbFirst(Load(reversed, src[n])) + Wire(reversed, src[n + 1..])
  {
    assert src[..n + 1] == src[..n] + [src[n]];
    assert src[n..] == [src[n]] + src[n + 1..];
    WireOne(reversed, src[n]);
    WireAppend(reversed, src[..n], [src[n]]);
    WireAppend(reversed, [src[n]], src[n + 1..]);
  }

  lemma NotSilent(rx: Rx, used: seq<bool>)
    requires AllReports(rx, used) != []
    ensures used != []
  {
  }

  lemma {:induction false} NothingSeen(rx: Rx, first: seq<bool>, reversed: bool, src: seq<bv8>)
    ensures Follows(rx, first + Wire(reversed, src[..0]), [], rx, first)
  {
    assert src[..0] == [] && first + Wire(reversed, []) == [] + first;
  }

  /** Bookkeeping when byte `n` is loaded. */
  lemma {:induction false} Loaded(rx: Rx, first: seq<bool>, used: seq<bool>, at: Rx, reversed: bool, src: seq<bv8>,
                                  n: nat)
    requires n < |src| && Follows(rx, first + Wire(reversed, src[..n]), used, at, [])
    ensures Follows(rx, first + Wire(reversed, src[..n + 1]), used, at, MsbFirst(Load(reversed, src[n])))
  {
    WireMore(reversed, src, n);
    var a, b := Wire(reversed, src[..n]), MsbFirst(Load(reversed, src[n]));
    assert first + (a + b) == first + a + b && used + [] == used;
  }

  /** Bookkeeping when `n` of the pending bits were used. */
  lemma {:induction false} Consumed(rx: Rx, seen: seq<bool>, used: seq<bool>, at: Rx, pending: seq<bool>, n: nat)
    requires n <= |pending| && Follows(rx, seen, used, at, pending)
    ensures Follows(rx, seen, used + pending[..n], Run(at, pending[..n]), pending[n..])
    ensures AllReports(rx, used + pending[..n]) == AllReports(rx, used) + AllReports(at, pending[..n])
  {
    RunAppend(rx, used, pending[..n]);
    assert used + pending == used + pending[..n] + pending[n..];
  }

  /** The rest of the stream of a call is clean. */
  lemma {:induction false} Remaining(cap: nat, rx: Rx, first: seq<bool>, reversed: bool, src: seq<bv8>, n: nat,
                                     used: seq<bool>, at: Rx, pending: seq<bool>)
    requires n <= |src| && Clean(cap, rx, first + Wire(reversed, src))
    requires Follows(rx, first + Wire(reversed, src[..n]), used, at, pending)
    ensures Clean(cap, at, pending)
  {
    WireSplit(reversed, first, src, n);
    Rest(cap, rx, first + Wire(reversed, src[..n]), used, at, pending, Wire(reversed, src[n..]));
  }

  lemma Grouped(a: seq<bool>, b: seq<bool>, c: seq<bool>)
    ensures a + (b + c) == a + b + c
  {
  }

  // ---------------------------------------------------------------------------
  // A caller's loop

  /** Calls Decode until all of `src` is taken; `used` are the bits looked at. */
  method DecodeAll(d: Decoder, src: seq<bv8>) returns (reports: seq<Report>, ghost used: seq<bool>)
    requires d.Valid() && Clean(d.dst.Length, d.Abs(), d.Pending() + Wire(d.doBitreverse, src))
    modifies d, d.dst
    ensures d.Valid()
    ensures Follows(old(d.Abs()), old(d.Pending()) + Wire(d.doBitreverse, src), used, d.Abs(), d.Pending())
    ensures reports == AllReports(old(d.Abs()), used)
  {
    ghost var rx, first := d.Abs(), d.Pending();
    ghost var stream := first + Wire(d.doBitreverse, src);
    reports, used := [], [];
    var rest := src;
    ghost var seen := first;
    assert [] + first == first;
    while rest != []
      invariant d.Valid() && seen + Wire(d.doBitreverse, rest) == stream
      invariant Follows(rx, seen, used, d.Abs(), d.Pending())
      invariant reports == AllReports(rx, used)
      decreases |rest|, d.bitShift
    {
      ghost var at, pending := d.Abs(), d.Pending();
      Rest(d.dst.Length, rx, seen, used, at, pending, Wire(d.doBitreverse, rest));
      var status, count, more := d.Decode(rest);
      WireSplit(d.doBitreverse, seen, rest, count);
      Joined(rx, seen, used, at, pending, Wire(d.doBitreverse, rest[..count]), more, d.Abs(), d.Pending());
      seen, used := seen + Wire(d.doBitreverse, rest[..count]), used + more;
      reports := reports + Delivered(status, d.dst[..]);
      rest := rest[count..];
    }
    assert seen + [] == seen;
  }

  function Join(chunks: seq<seq<bv8>>): seq<bv8> {
    if chunks == [] then [] else Join(chunks[..|chunks| - 1]) + chunks[|chunks| - 1]
  }

  lemma {:induction false} JoinSplit(chunks: seq<seq<bv8>>, n: nat)
    requires n <= |chunks|
    ensures exists rest :: Join(chunks) == Join(chunks[..n]) + rest
    decreases |chunks|
  {
    if n == |chunks| {
      assert chunks[..n] == chunks && Join(chunks) == Join(chunks) + [];
    } else {
      var m := |chunks| - 1;
      JoinSplit(chunks[..m], n);
      assert chunks[..m][..n] == chunks[..n];
      var rest :| Join(chunks[..m]) == Join(chunks[..n]) + rest;
      assert Join(chunks) == Join(chunks[..n]) + (rest + chunks[m]);
    }
  }

  /** A stream in any split into chunks is reported like the whole stream. */
  method DecodeChunks(d: Decoder, chunks: seq<seq<bv8>>) returns (reports: seq<Report>, ghost used: seq<bool>)
    requires d.Valid() && Clean(d.dst.Length, d.Abs(), d.Pending() + Wire(d.doBitreverse, Join(chunks)))
    modifies d, d.dst
    ensures d.Valid()
    ensures Follows(old(d.Abs()), old(d.Pending()) + Wire(d.doBitreverse, Join(chunks)), used, d.Abs(), d.Pending())
    ensures reports == AllReports(old(d.Abs()), used)
  {
    ghost var rx, first := d.Abs(), d.Pending();
    reports, used := [], [];
    assert first + [] == first && [] + first == first && chunks[..0] == [];
    for i := 0 to |chunks|
      invariant d.Valid()
      invariant Follows(rx, first + Wire(d.doBitreverse, Join(chunks[..i])), used, d.Abs(), d.Pending())
      invariant reports == AllReports(rx, used)
    {
      ghost var at, pending := d.Abs(), d.Pending();
      NextChunk(d.dst.Length, rx, first, d.doBitreverse, chunks, i, used, at, pending);
      var got, more := DecodeAll(d, chunks[i]);
      Joined(rx, first + Wire(d.doBitreverse, Join(chunks[..i])), used, at, pending, Wire(d.doBitreverse, chunks[i]),
          more, d.Abs(), d.Pending());
      reports, used := reports + got, used + more;
    }
    assert chunks[..|chunks|] == chunks;
  }

  lemma {:induction false} NextChunk(cap: nat, rx: Rx, first: seq<bool>, reversed: bool, chunks: seq<seq<bv8>>, i: nat,
                                     used: seq<bool>, at: Rx, pending: seq<bool>)
    requires i < |chunks| && Clean(cap, rx, first + Wire(reversed, Join(chunks)))
    requires Follows(rx, first + Wire(reversed, Join(chunks[..i])), used, at, pending)
    ensures Clean(cap, at, pending + Wire(reversed, chunks[i]))
    ensures first + Wire(reversed, Join(chunks[..i])) + Wire(reversed, chunks[i]) == first +
            Wire(reversed, Join(chunks[..i + 1]))
  {
    var a, b := Wire(reversed, Join(chunks[..i])), Wire(reversed, chunks[i]);
    assert chunks[..i + 1][..i] == chunks[..i];
    WireAppend(reversed, Join(chunks[..i]), chunks[i]);
    Grouped(first, a, b);
    JoinSplit(chunks, i + 1);
    var rest :| Join(chunks) == Join(chunks[..i + 1]) + rest;
    WireAppend(reversed, Join(chunks[..i + 1]), rest);
    Grouped(first, a + b, Wire(reversed, rest));
    CleanAppend(cap, rx, first + a + b, Wire(reversed, rest));
    Rest(cap, rx, first + a, used, at, pending, b);
  }

  lemma {:induction false} WireSplit(reversed: bool, seen: seq<bool>, rest: seq<bv8>, n: nat)
    requires n <= |rest|
    ensures seen + Wire(reversed, rest) == seen + Wire(reversed, rest[..n]) + Wire(reversed, rest[n..])
  {
    assert rest == rest[..n] + rest[n..];
    WireAppend(reversed, rest[..n], rest[n..]);
    Grouped(seen, Wire(reversed, rest[..n]), Wire(reversed, rest[n..]));
  }

  /** The rest of a clean stream is clean. */
  lemma {:induction false} Rest(cap: nat, rx: Rx, seen: seq<bool>, used: seq<bool>, at: Rx, pending: seq<bool>,
                                tail: seq<bool>)
    requires Clean(cap, rx, seen + tail) && Follows(rx, seen, used, at, pending)
    ensures Clean(cap, at, pending + tail) && Clean(cap, at, pending)
  {
    Grouped(used, pending, tail);
    CleanAppend(cap, rx, used, pending + tail);
    CleanAppend(cap, at, pending, tail);
  }

  /** Two calls one after the other. */
  lemma {:induction false} Joined(rx: Rx, seen: seq<bool>, used: seq<bool>, at: Rx, pending: seq<bool>,
                                  w: seq<bool>, more: seq<bool>, at': Rx, pending': seq<bool>)
    requires Follows(rx, seen, used, at, pending) && Follows(at, pending + w, more, at', pending')
    ensures Follows(rx, seen + w, used + more, at', pending')
    ensures AllReports(rx, used + more) == AllReports(rx, used) + AllReports(at, more)
    ensures |pending| + |w| == |more| + |pending'|
  {
    RunAppend(rx, used, more);
    Grouped(used, pending, w);
    Grouped(used, more, pending');
    assert |pending + w| == |more + pending'|;
  }
}
