/** HDLC transmitter and receiver together: every sequence of frames sent by src/core/isdnhdlc.c, in buffers of any
    size, is received frame by frame, whatever the split of the byte stream into chunks. */
module HdlcLink {
  import opened HdlcFrame
  import opened HdlcDecoder
  import opened HdlcEncoder

  /** The bits take a receiver from `rx` to `after`, in the receiver's contract, and make it report `reports`. */
  ghost predicate Carries(cap: nat, rx: Rx, bits: seq<bool>, after: Rx, reports: seq<Report>) {
    Run(rx, bits) == after && AllReports(rx, bits) == reports && Clean(cap, rx, bits)
  }

  lemma {:induction false} CarriesMore(cap: nat, rx: Rx, a: seq<bool>, mid: Rx, ra: seq<Report>, b: seq<bool>,
                                       after: Rx, rb: seq<Report>)
    requires Carries(cap, rx, a, mid, ra) && Carries(cap, mid, b, after, rb)
    ensures Carries(cap, rx, a + b, after, ra + rb)
  {
    RunAppend(rx, a, b);
    CleanAppend(cap, rx, a, b);
  }

  lemma CarriesNothing(cap: nat, rx: Rx)
    ensures Carries(cap, rx, [], rx, [])
  {
  }

  // ---------------------------------------------------------------------------
  // Flags

  lemma {:induction false} FlagClean(cap: nat, rx: Rx, n: nat)
    requires n <= 8 && rx.bits == 0 && rx.ones <= 4 && |rx.frame| <= cap
    ensures Clean(cap, rx, FLAG[..n])
  {
    if n == 8 {
      FlagClean(cap, rx, 7);
      WholeFlag(rx);
      assert FLAG[..8] == FLAG && FLAG[..8][..7] == FLAG[..7];
    } else if n > 0 {
      FlagClean(cap, rx, n - 1);
      FlagPrefix(rx, n);
      assert FLAG[..n][..n - 1] == FLAG[..n - 1];
    }
  }

  /** The receiver between frames, when `n` bits of the current flag are still to come; 8 before anything is sent. */
  ghost function IdleRx(n: nat): Rx
    requires n <= 8
  {
    if n == 8 then START else if n == 0 then OPENED else InFlag(OPENED, 8 - n)
  }

  lemma {:induction false} BeginFlag(cap: nat, rx: Rx, n: nat)
    requires n <= 7 && rx == OPENED
    ensures Carries(cap, rx, FLAG[..8 - n], IdleRx(n), [])
  {
    FlagClean(cap, rx, 8 - n);
    if n == 0 {
      WholeFlag(rx);
      assert FLAG[..8] == FLAG;
    } else {
      FlagPrefix(rx, 8 - n);
    }
  }

  lemma {:induction false} CompleteFlag(cap: nat, n: nat)
    requires n <= 8
    ensures Carries(cap, IdleRx(n), FlagEnd(n), OPENED, [])
  {
    WholeFlagEnd();
    if n == 0 {
      CarriesNothing(cap, OPENED);
    } else if n == 8 {
      FlagClean(cap, START, 8);
      assert FLAG[..8] == FLAG;
      WholeFlag(START);
    } else {
      RestOfFlag(cap, OPENED, n);
    }
  }

  lemma {:induction false} RestOfFlag(cap: nat, rx: Rx, n: nat)
    requires 1 <= n <= 7 && rx == OPENED
    ensures Carries(cap, IdleRx(n), FlagEnd(n), rx, [])
  {
    BeginFlag(cap, rx, n);
    WholeFlag(rx);
    FlagClean(cap, rx, 8);
    SplitFlag(8 - n);
    FlagEndIs(n);
    assert FLAG[..8] == FLAG;
    RunAppend(rx, FLAG[..8 - n], FlagEnd(n));
    CleanAppend(cap, rx, FLAG[..8 - n], FlagEnd(n));
  }

  /** Repeated flags keep the receiver between frames. */
  lemma {:induction false} FlagsCarried(cap: nat, n: nat, times: nat)
    requires n <= 7
    ensures Carries(cap, IdleRx(n), Repeat(RotatedFlag(n), times), IdleRx(n), [])
  {
    if times == 0 {
      CarriesNothing(cap, IdleRx(n));
    } else {
      FlagsCarried(cap, n, times - 1);
      RotatedIs(n);
      CompleteFlag(cap, n);
      BeginFlag(cap, OPENED, n);
      CarriesMore(cap, IdleRx(n), FlagEnd(n), OPENED, [], FLAG[..8 - n], IdleRx(n), []);
      CarriesMore(cap, IdleRx(n), Repeat(RotatedFlag(n), times - 1), IdleRx(n), [], RotatedFlag(n), IdleRx(n), []);
    }
  }

  /** The same from the very beginning. */
  lemma {:induction false} FirstFlagsCarried(cap: nat, n: nat, times: nat)
    requires times > 0 && n == 8
    ensures Carries(cap, IdleRx(n), Repeat(RotatedFlag(n), times), IdleRx(0), [])
  {
    SameRotation();
    RepeatFirst(FLAG, times);
    CompleteFlag(cap, 8);
    WholeFlagEnd();
    FlagsCarried(cap, 0, times - 1);
    CarriesMore(cap, IdleRx(n), FLAG, OPENED, [], Repeat(FLAG, times - 1), IdleRx(0), []);
  }

  // ---------------------------------------------------------------------------
  // Frames

  lemma {:induction false} SentClean(cap: nat, at: Rx, b: bool)
    requires at.ones <= 4 && |Collect(at, b).frame| <= cap
    ensures Clean(cap, at, Sent(at.ones, b))
  {
    CleanOne(cap, at, b);
    if b && at.ones == 4 {
      RunOne(at, true);
      CleanOne(cap, Next(at, true), false);
      CleanAppend(cap, at, [true], [false]);
      assert [true] + [false] == [true, false];
    }
  }

  /** Stuffed data stay in the receiver's contract when the bytes they make fit. */
  lemma {:induction false} StuffedClean(cap: nat, rx: Rx, ds: seq<bool>)
    requires rx.ones == 0 && |Collected(rx, ds).frame| <= cap
    ensures Clean(cap, rx, Stuffed(ds).bits)
    decreases |ds|
  {
    if ds == [] {
    } else {
      var n := |ds| - 1;
      var s, b := Stuffed(ds[..n]), ds[n];
      StuffedClean(cap, rx, ds[..n]);
      Unstuff(rx, ds[..n]);
      assert Stuffed(ds) == Stuffing(s.bits + Sent(s.ones, b), SentOnes(s.ones, b));
      SentClean(cap, Run(rx, s.bits), b);
      CleanAppend(cap, rx, s.bits, Sent(s.ones, b));
    }
  }

  /** The receiver at the end of the stuffed bits of any bytes. */
  lemma {:induction false} BodyCarried(cap: nat, rx: Rx, bytes: seq<bv8>) returns (end: Rx)
    requires rx == OPENED && |bytes| <= cap
    ensures Carries(cap, rx, Body(bytes), end, [])
    ensures end.bits == 0 && end.ones <= 4 && end.got == (bytes != []) && end.frame == bytes
    ensures end.crc == CrcRun(0xffff, bytes)
  {
    var ds := DataBits(bytes);
    CollectBytes(bytes);
    Unstuff(rx, ds);
    StuffedClean(cap, rx, ds);
    end := Collected(rx, ds).(ones := Stuffed(ds).ones);
  }

  /** A frame and its closing flag make one report, with the payload. */
  lemma {:induction false} FrameCarried(cap: nat, rx: Rx, payload: seq<bv8>)
    requires rx == OPENED && payload != [] && |payload| + 2 <= cap
    ensures Carries(cap, rx, Body(Frame(payload)) + FLAG, rx, [Report(|payload|, payload)])
  {
    var end := BodyCarried(cap, rx, Frame(payload));
    FrameResidue(0xffff, payload);
    WholeFlag(end);
    FlagClean(cap, end, 8);
    assert FLAG[..8] == FLAG && end.frame[..|payload|] == payload;
    CarriesMore(cap, rx, Body(Frame(payload)), end, [], FLAG, rx, [Report(|payload|, payload)]);
  }

  /** What one frame adds to the line, from the end of the opening flag to a byte boundary. */
  lemma {:induction false} PaddedCarried(cap: nat, n: nat, payload: seq<bv8>, n': nat)
    requires n <= 8 && n' <= 7 && payload != [] && |payload| + 2 <= cap
    ensures Carries(cap, IdleRx(n), Padded(FlagEnd(n), Body(Frame(payload)), n'), IdleRx(n'),
            [Report(|payload|, payload)])
  {
    FrameCarried(cap, OPENED, payload);
    PaddedBytes(cap, n, Frame(payload), n', [Report(|payload|, payload)]);
  }

  lemma {:induction false} PaddedBytes(cap: nat, n: nat, bytes: seq<bv8>, n': nat, report: seq<Report>)
    requires n <= 8 && n' <= 7 && Carries(cap, OPENED, Body(bytes) + FLAG, OPENED, report)
    ensures Carries(cap, IdleRx(n), Padded(FlagEnd(n), Body(bytes), n'), IdleRx(n'), report)
  {
    var flag, body := FlagEnd(n), Body(bytes);
    CompleteFlag(cap, n);
    assert [] + report == report == report + [];
    CarriesMore(cap, IdleRx(n), flag, OPENED, [], body + FLAG, OPENED, report);
    Grouped(flag, body, FLAG);
    if n' > 0 {
      BeginFlag(cap, OPENED, n');
      CarriesMore(cap, IdleRx(n), flag + body + FLAG, OPENED, report, FLAG[..8 - n'], IdleRx(n'), []);
    }
  }

  // ---------------------------------------------------------------------------
  // Sending

  /** A bound on the line while a frame is sent. */
  ghost function Limit(base: seq<bool>, payload: seq<bv8>): nat {
    |base| + |Body(Frame(payload))| + 8
  }

  /** One more call for a frame. */
  method SendMore(e: Encoder, rest: seq<bv8>, size: nat) returns (out: seq<bv8>, rest': seq<bv8>)
    requires e.Busy() && e.Framing() && e.Waiting(7) && e.Feeds(rest, 0) && |rest| <= 0xffff && size > 0
    modifies e
    ensures e.sent == old(e.sent) + Wire(e.doBitreverse, out) && e.payload == old(e.payload) && e.base == old(e.base)
    ensures e.Framing() && e.Busy() != e.Ended() && e.Ended() == (e.state == SendFastFlag)
    ensures e.Busy() ==> e.Waiting(7) && e.Feeds(rest', 0) && |rest'| <= |rest| && |e.sent| > |old(e.sent)|
  {
    var count;
    out, count := e.Encode(rest, size);
    rest' := rest[count..];
  }

  /** The first call for a frame. */
  method SendFirst(e: Encoder, payload: seq<bv8>, size: nat) returns (out: seq<bv8>, rest: seq<bv8>)
    requires e.Idle() && payload != [] && |payload| <= 0xffff && e.Returns(payload, size) && size > 0
    modifies e
    ensures e.sent == old(e.sent) + Wire(e.doBitreverse, out)
    ensures e.payload == payload && e.base == old(e.line) + FlagEnd(old(e.dataBits))
    ensures e.Framing() && e.Busy() != e.Ended() && e.Ended() == (e.state == SendFastFlag)
    ensures e.Busy() ==> e.Waiting(7) && e.Feeds(rest, 0) && |rest| <= |payload|
  {
    var count;
    out, count := e.Encode(payload, size);
    rest := payload[count..];
  }

  /** Calls the transmitter with buffers of `size` bytes until the frame and its closing flag are out; `doClosing` stays
      set exactly if the closing flag ends on a byte boundary. */
  method SendOne(e: Encoder, payload: seq<bv8>, size: nat) returns (bytes: seq<bv8>)
    requires e.Idle() && payload != [] && |payload| <= 0xffff && e.Returns(payload, size) && size > 0
    modifies e
    ensures e.Ended() && e.sent == old(e.sent) + Wire(e.doBitreverse, bytes)
    ensures e.base == old(e.line) + FlagEnd(old(e.dataBits)) && e.body == Body(Frame(payload))
    ensures e.doClosing == ((old(e.dataBits) + |Body(Frame(payload))|) % 8 == 0)
  {
    bytes := SendCalls(e, payload, size);
    PaddedLength(|old(e.line)|, old(e.dataBits), e.base, e.body, e.dataBits, |bytes|);
  }

  method SendCalls(e: Encoder, payload: seq<bv8>, size: nat) returns (bytes: seq<bv8>)
    requires e.Idle() && payload != [] && |payload| <= 0xffff && e.Returns(payload, size) && size > 0
    modifies e
    ensures e.Ended() && e.sent == old(e.sent) + Wire(e.doBitreverse, bytes)
    ensures e.base == old(e.line) + FlagEnd(old(e.dataBits)) && e.body == Body(Frame(payload))
  {
    ghost var start := e.sent;
    var rest;
    bytes, rest := SendFirst(e, payload, size);
    ghost var base := e.base;
    while e.state != SendFastFlag
      invariant e.sent == start + Wire(e.doBitreverse, bytes) && e.payload == payload && e.base == base
      invariant e.Framing() && e.Busy() != e.Ended() && e.Ended() == (e.state == SendFastFlag)
      invariant e.Busy() ==> e.Waiting(7) && e.Feeds(rest, 0) && |rest| <= 0xffff
      decreases e.Busy(), Limit(base, payload) - |e.sent|
    {
      Within(e);
      var more;
      more, rest := SendMore(e, rest, size);
      WireTo(e.doBitreverse, start, bytes, more);
      bytes := bytes + more;
      if e.state != SendFastFlag {
        Within(e);
      }
    }
  }

  /** The bits of a frame decide where in a byte it ends. */
  lemma {:induction false} PaddedLength(start: nat, n: nat, base: seq<bool>, body: seq<bool>, n': nat, bytes: nat)
    requires n <= 8 && n' < 8 && |base| == start + n && |Padded(base, body, n')| == start + 8 * bytes
    ensures (n + |body|) % 8 == n'
  {
    if n' == 0 {
      assert n + |body| == 8 * (bytes - 1);
    } else {
      assert n + |body| == 8 * (bytes - 2) + n';
    }
  }

  /** No five ones in a row from position `i` on, after `ones` of them. */
  predicate Sparse(ones: nat, bits: seq<bool>, i: nat)
    requires i <= |bits|
    decreases |bits| - i
  {
    i == |bits| || if bits[i] then ones < 4 && Sparse(ones + 1, bits, i + 1) else Sparse(0, bits, i + 1)
  }

  lemma {:induction false} FewLeft(ones: nat, bits: seq<bool>, i: nat)
    requires i <= |bits| && ones + |bits| - i <= 4
    ensures Sparse(ones, bits, i)
    decreases |bits| - i
  {
    if i == |bits| {
    } else {
      FewLeft(if bits[i] then ones + 1 else 0, bits, i + 1);
    }
  }

  lemma {:induction false} ZeroAhead(ones: nat, bits: seq<bool>, i: nat, z: nat)
    requires i <= z < |bits| && !bits[z] && ones + |bits| - i <= 5
    ensures Sparse(ones, bits, i)
    decreases |bits| - i
  {
    if bits[i] {
      ZeroAhead(ones + 1, bits, i + 1, z);
    } else {
      FewLeft(0, bits, i + 1);
    }
  }

  /** A byte without five ones in a row that begins with three zeros gets no stuffing. */
  lemma {:induction false} PlainByte(ds: seq<bool>, b: seq<bool>, z: nat)
    requires |b| == 8 && !b[0] && !b[1] && !b[2] && 3 <= z < 8 && !b[z]
    ensures |Stuffed(ds + b).bits| == |Stuffed(ds).bits| + 8
  {
    var ones := Stuffed(ds).ones;
    ZeroAhead(0, b, 3, z);
    assert Sparse(0, b, 2) && Sparse(0, b, 1) && Sparse(ones, b, 0);
    assert ds + b[..0] == ds;
    SparsePlain(ds, b, 0);
  }

  lemma {:induction false} SparsePlain(ds: seq<bool>, b: seq<bool>, i: nat)
    requires i <= |b| && Sparse(Stuffed(ds + b[..i]).ones, b, i)
    ensures |Stuffed(ds + b).bits| == |Stuffed(ds + b[..i]).bits| + |b| - i
    decreases |b| - i
  {
    if i == |b| {
      assert b[..i] == b;
    } else {
      assert (ds + b[..i + 1])[..|ds| + i] == ds + b[..i];
      SparsePlain(ds, b, i + 1);
    }
  }

  lemma {:induction false} ThreeBytes(a: bv8, b: bv8, c: bv8)
    ensures DataBits([a, b, c]) == LsbFirst(a) + LsbFirst(b) + LsbFirst(c)
  {
    assert [a, b, c][..2] == [a, b] && [a, b][..1] == [a] && [a][..0] == [];
    assert DataBits([a, b]) == DataBits([a]) + LsbFirst(b);
    assert DataBits([a]) == DataBits([]) + LsbFirst(a);
  }

  /** A frame that ends on a byte boundary when it is the first one: a single zero byte. The transmitter does not come
      back from a call with another frame of one byte right after it. */
  lemma {:induction false} AlignedFrame()
    ensures |Body(Frame([0x00]))| == 24
  {
    var frame: seq<bv8> := [0x00, 0x78, 0xf0];
    TwoEntries();
    assert [0x00 as bv8][..0] == [];
    assert CrcRun(0xffff, [0x00]) == CrcByte(CrcRun(0xffff, []), 0x00) == 0x0f87;
    assert CheckBytes(0x0f87) == [0x78, 0xf0];
    assert Frame([0x00]) == frame;
    ThreeBytes(0x00, 0x78, 0xf0);
    PlainByte([], LsbFirst(0x00), 7);
    PlainByte([] + LsbFirst(0x00), LsbFirst(0x78), 7);
    PlainByte([] + LsbFirst(0x00) + LsbFirst(0x78), LsbFirst(0xf0), 3);
    assert [] + LsbFirst(0x00) == LsbFirst(0x00);
  }

  lemma {:induction false} Within(e: Encoder)
    requires e.Busy() && e.Framing() && e.Waiting(7)
    ensures |e.sent| <= Limit(e.base, e.payload)
  {
    e.LineBound();
  }

  lemma {:induction false} PaddedAfter(line: seq<bool>, flag: seq<bool>, body: seq<bool>, n: nat, w: seq<bool>)
    requires n <= 8 && line + w == Padded(line + flag, body, n)
    ensures w == Padded(flag, body, n)
  {
    Grouped(line, flag, body);
    Grouped(line, flag + body, FLAG);
    if n > 0 {
      Grouped(line, flag + body + FLAG, FLAG[..8 - n]);
    }
    Cancel(line, w, Padded(flag, body, n));
  }

  lemma {:induction false} Cancel(a: seq<bool>, b: seq<bool>, c: seq<bool>)
    requires a + b == a + c
    ensures b == c
  {
    assert b == (a + b)[|a|..] && c == (a + c)[|a|..];
  }

  /** A frame on the line, as the receiver sees it. */
  method SendCarried(e: Encoder, payload: seq<bv8>, size: nat, ghost cap: nat) returns (bytes: seq<bv8>)
    requires e.Idle() && payload != [] && |payload| <= 0xffff && e.Returns(payload, size) && size > 0 &&
             |payload| + 2 <= cap
    modifies e
    ensures e.Idle() && e.state == SendFastFlag && e.dataBits < 8
    ensures Carries(cap, IdleRx(old(e.dataBits)), Wire(e.doBitreverse, bytes), IdleRx(e.dataBits),
            [Report(|payload|, payload)])
  {
    bytes := SendOne(e, payload, size);
    PaddedAfter(old(e.line), FlagEnd(old(e.dataBits)), e.body, e.dataBits, Wire(e.doBitreverse, bytes));
    PaddedCarried(cap, old(e.dataBits), payload, e.dataBits);
  }

  /** Flags between frames, as the receiver sees them. */
  method FlagsSent(e: Encoder, size: nat, ghost cap: nat) returns (bytes: seq<bv8>)
    requires e.Idle() && e.state == SendFastFlag && size > 0
    modifies e
    ensures e.Idle() && e.state == SendFastFlag && e.dataBits < 8 && !e.doClosing && bytes != []
    ensures Carries(cap, IdleRx(old(e.dataBits)), Wire(e.doBitreverse, bytes), IdleRx(e.dataBits), [])
  {
    var count;
    bytes, count := e.Encode([], size);
    if old(e.dataBits) == 8 {
      FirstFlagsCarried(cap, old(e.dataBits), |bytes|);
    } else {
      FlagsCarried(cap, old(e.dataBits), |bytes|);
    }
  }

  function FrameReports(frames: seq<seq<bv8>>): seq<Report> {
    if frames == [] then []
    else
      var last := frames[|frames| - 1];
      FrameReports(frames[..|frames| - 1]) + [Report(|last|, last)]
  }

  /** The next frame, after a byte of flags where the transmitter needs one. */
  method SendNext(e: Encoder, payload: seq<bv8>, size: nat, ghost cap: nat) returns (bytes: seq<bv8>)
    requires e.Idle() && e.state == SendFastFlag && payload != [] && |payload| <= 0xffff && size > 0 &&
             |payload| + 2 <= cap
    modifies e
    ensures e.Idle() && e.state == SendFastFlag && e.dataBits < 8
    ensures Carries(cap, IdleRx(old(e.dataBits)), Wire(e.doBitreverse, bytes), IdleRx(e.dataBits),
            [Report(|payload|, payload)])
  {
    var flags := [];
    CarriesNothing(cap, IdleRx(e.dataBits));
    if |payload| == 1 && e.doClosing {
      flags := FlagsSent(e, 1, cap);
    }
    ghost var n := e.dataBits;
    var frame := SendCarried(e, payload, size, cap);
    bytes := flags + frame;
    CarriesOn(cap, IdleRx(old(e.dataBits)), e.doBitreverse, flags, IdleRx(n), [], frame, IdleRx(e.dataBits),
        [Report(|payload|, payload)]);
    assert [] + [Report(|payload|, payload)] == [Report(|payload|, payload)];
  }

  lemma {:induction false} CarriesOn(cap: nat, rx: Rx, reversed: bool, a: seq<bv8>, mid: Rx, ra: seq<Report>,
                                     b: seq<bv8>, after: Rx, rb: seq<Report>)
    requires Carries(cap, rx, Wire(reversed, a), mid, ra) && Carries(cap, mid, Wire(reversed, b), after, rb)
    ensures Carries(cap, rx, Wire(reversed, a + b), after, ra + rb)
  {
    WireAppend(reversed, a, b);
    CarriesMore(cap, rx, Wire(reversed, a), mid, ra, Wire(reversed, b), after, rb);
  }

  lemma {:induction false} OneMoreReport(frames: seq<seq<bv8>>, i: nat)
    requires i < |frames|
    ensures FrameReports(frames[..i + 1]) == FrameReports(frames[..i]) + [Report(|frames[i]|, frames[i])]
  {
    assert frames[..i + 1][..i] == frames[..i];
  }

  /** Frames the transmitter takes and a receiver with `cap` bytes has room for. */
  predicate Sendable(frames: seq<seq<bv8>>, cap: nat) {
    forall i :: 0 <= i < |frames| ==> frames[i] != [] && |frames[i]| <= 0xffff && |frames[i]| + 2 <= cap
  }

  /** Any sequence of frames in buffers of any size. */
  method SendAll(e: Encoder, frames: seq<seq<bv8>>, size: nat, ghost cap: nat) returns (bytes: seq<bv8>)
    requires e.Idle() && e.state == SendFastFlag && size > 0 && Sendable(frames, cap)
    modifies e
    ensures e.Idle() && e.state == SendFastFlag
    ensures Carries(cap, IdleRx(old(e.dataBits)), Wire(e.doBitreverse, bytes), IdleRx(e.dataBits), FrameReports(frames))
  {
    bytes := [];
    ghost var first := IdleRx(e.dataBits);
    CarriesNothing(cap, first);
    assert frames[..0] == [];
    for i := 0 to |frames|
      invariant e.Idle() && e.state == SendFastFlag
      invariant Carries(cap, first, Wire(e.doBitreverse, bytes), IdleRx(e.dataBits), FrameReports(frames[..i]))
    {
      ghost var mid := IdleRx(e.dataBits);
      var more := SendNext(e, frames[i], size, cap);
      CarriesOn(cap, first, e.doBitreverse, bytes, mid, FrameReports(frames[..i]), more, IdleRx(e.dataBits),
          [Report(|frames[i]|, frames[i])]);
      OneMoreReport(frames, i);
      bytes := bytes + more;
    }
    assert frames[..|frames|] == frames;
  }

  /** After a frame with a single zero byte, sent first of all, no call with another frame of one byte comes back. */
  method NoReturn(bitreverse: bool, size: nat) returns (e: Encoder)
    requires size > 0
    ensures fresh(e) && e.Idle() && forall v: bv8, n: nat :: n > 0 ==> !e.Returns([v], n)
  {
    e := new Encoder(bitreverse);
    AlignedFrame();
    var bytes := SendOne(e, [0x00], size);
  }

  /** A call writes more bytes than the buffer has in exactly one case: a flag call before anything was sent, into a
      buffer of one byte. */
  method OverrunsExactly(e: Encoder, src: seq<bv8>, size: nat) returns (out: seq<bv8>, count: nat)
    requires |src| <= 0xffff && e.Returns(src, size)
    requires if e.Resting() then e.Idle() else e.Busy() && e.Framing() && e.Waiting(7) && e.Feeds(src, 0)
    modifies e
    ensures |out| > size <==> old(e.state) == SendFastFlag && src == [] && old(e.dataBits) == 8 && size == 1
  {
    out, count := e.Encode(src, size);
  }

  // ---------------------------------------------------------------------------
  // The round trip

  /** With at least one byte of flags behind the frames, the bits a receiver still has pending report nothing. */
  lemma {:induction false} AllButLast(cap: nat, rx: Rx, a: seq<bool>, mid: Rx, ra: seq<Report>, b: seq<bool>, after: Rx,
                                      used: seq<bool>, pending: seq<bool>)
    requires Carries(cap, rx, a, mid, ra) && Carries(cap, mid, b, after, []) && |b| >= 8
    requires a + b == used + pending && |pending| <= 8
    ensures AllReports(rx, used) == ra
  {
    var rest := used[|a|..];
    assert used == (a + b)[..|used|] && used == a + rest && b == rest + pending;
    RunAppend(rx, a, rest);
    RunAppend(mid, rest, pending);
  }

  /** The reports a stream makes, whatever is still pending of its last byte. */
  ghost predicate Settled(cap: nat, w: seq<bool>, reports: seq<Report>) {
    && Clean(cap, START, w)
    && forall used, pending :: w == used + pending && |pending| <= 8 ==> AllReports(START, used) == reports
  }

  lemma {:induction false} Settles(cap: nat, a: seq<bool>, mid: Rx, reports: seq<Report>, b: seq<bool>, after: Rx)
    requires Carries(cap, START, a, mid, reports) && Carries(cap, mid, b, after, []) && |b| >= 8
    ensures Settled(cap, a + b, reports)
  {
    CarriesMore(cap, START, a, mid, reports, b, after, []);
    forall used, pending | a + b == used + pending && |pending| <= 8
      ensures AllReports(START, used) == reports
    {
      AllButLast(cap, START, a, mid, reports, b, after, used, pending);
    }
  }

  /** Any frames in transmit buffers of any size, followed by at least one byte of flags. */
  method Transmit(bitreverse: bool, frames: seq<seq<bv8>>, size: nat, idle: nat,
                  ghost room: nat) returns (bytes: seq<bv8>)
    requires size > 0 && idle > 0 && Sendable(frames, room)
    ensures Settled(room, Wire(bitreverse, bytes), FrameReports(frames))
  {
    var e := new Encoder(bitreverse);
    var sent := SendAll(e, frames, size, room);
    ghost var n := e.dataBits;
    var flags := FlagsSent(e, idle, room);
    bytes := sent + flags;
    WireAppend(bitreverse, sent, flags);
    Settles(room, Wire(bitreverse, sent), IdleRx(n), FrameReports(frames), Wire(bitreverse, flags), IdleRx(e.dataBits));
  }

  /** A whole stream, in any split into chunks. */
  method Receive(bitreverse: bool, chunks: seq<seq<bv8>>, room: nat,
                 ghost expected: seq<Report>) returns (reports: seq<Report>)
    requires Settled(room, Wire(bitreverse, Join(chunks)), expected)
    ensures reports == expected
  {
    var buffer := new bv8[room];
    var d := new Decoder(bitreverse, buffer);
    ghost var w := Wire(bitreverse, Join(chunks));
    assert [] + w == w;
    ghost var used;
    reports, used := DecodeChunks(d, chunks);
    assert w == used + d.Pending();
  }

  /** What is received is what was sent. */
  method RoundTrip(bitreverse: bool, frames: seq<seq<bv8>>, size: nat, idle: nat, room: nat,
                   chunks: seq<bv8> -> seq<seq<bv8>>)
    returns (reports: seq<Report>)
    requires size > 0 && idle > 0 && Sendable(frames, room)
    requires forall bytes :: Join(chunks(bytes)) == bytes
    ensures reports == FrameReports(frames)
  {
    var bytes := Transmit(bitreverse, frames, size, idle, room);
    reports := Receive(bitreverse, chunks(bytes), room, FrameReports(frames));
  }
}
