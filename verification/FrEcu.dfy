/** Error concealment for GSM full rate: src/codec/ecu_fr.c, after chapter 6 of 3GPP TS 46.011. */
module FrEcu {
  import opened FrSid

  /** osmo_gsm611_silence_frame. */
  const SILENCE: Frame := [
    0xDA, 0xA7, 0xAA, 0xA5, 0x1A,
    0x50, 0x20, 0x38, 0xE4, 0x6D, 0xB9, 0x1B,
    0x50, 0x20, 0x38, 0xE4, 0x6D, 0xB9, 0x1B,
    0x50, 0x20, 0x38, 0xE4, 0x6D, 0xB9, 0x1B,
    0x50, 0x20, 0x38, 0xE4, 0x6D, 0xB9, 0x1B]

  // ---------------------------------------------------------------------------
  // Frames with changed subframes

  /** GSM611_XMAXC_REDUCE. */
  function Reduce(x: bv8): bv8 {
    if x > 4 then x - 4 else 0
  }

  /** The position of byte `i` in its subframe. */
  function InSub(i: nat): nat {
    if i < 5 then 7 else (i - 5) % 7
  }

  /** The two bytes of a subframe that hold the block amplitude, with another one. */
  function High(b: bv8, x: bv8): bv8 {
    (b & 0xE0) | (x >> 1)
  }

  function Low(b: bv8, x: bv8): bv8 {
    (b & 0x7F) | ((x & 1) << 7)
  }

  function ReducedByte(f: Frame, i: nat): bv8
    requires i < 33
  {
    if InSub(i) == 1 then High(f[i], Reduce(((f[i] & 0x1F) << 1) | (f[i + 1] >> 7)))
    else if InSub(i) == 2 then Low(f[i], Reduce(((f[i - 1] & 0x1F) << 1) | (f[i] >> 7)))
    else f[i]
  }

  /** All four block amplitudes reduced. */
  function Reduced(f: Frame): Frame {
    seq(33, i requires 0 <= i < 33 => ReducedByte(f, i))
  }

  /** One subframe, in place; whether its amplitude stays above 0. */
  method ReduceSub(a: array<bv8>, sub: nat) returns (loud: bool)
    requires a.Length == 33 && sub < 4
    modifies a
    ensures loud <==> Xmaxc(old(a[..]), sub) > 4
    ensures a[7 * sub + 6] == High(old(a[7 * sub + 6]), Reduce(Xmaxc(old(a[..]), sub)))
    ensures a[7 * sub + 7] == Low(old(a[7 * sub + 7]), Reduce(Xmaxc(old(a[..]), sub)))
    ensures forall i :: 0 <= i < 33 && i != 7 * sub + 6 && i != 7 * sub + 7 ==> a[i] == old(a[i])
  {
    var hi, lo := 7 * sub + 6, 7 * sub + 7;
    var x := ((a[hi] & 0x1F) << 1) | (a[lo] >> 7);
    loud := x > 4;
    a[hi] := High(a[hi], Reduce(x));
    a[lo] := Low(a[lo], Reduce(x));
  }

  /** The frame with its first `n` subframes reduced. */
  ghost predicate ReducedUpTo(f: Frame, a: Frame, n: nat) {
    forall i :: 0 <= i < 33 ==> a[i] == if i < 5 + 7 * n then ReducedByte(f, i) else f[i]
  }

  lemma {:induction false} ReducedOneMore(f: Frame, a: Frame, b: Frame, sub: nat)
    requires sub < 4 && ReducedUpTo(f, a, sub)
    requires b[7 * sub + 6] == High(a[7 * sub + 6], Reduce(Xmaxc(a, sub)))
    requires b[7 * sub + 7] == Low(a[7 * sub + 7], Reduce(Xmaxc(a, sub)))
    requires forall i :: 0 <= i < 33 && i != 7 * sub + 6 && i != 7 * sub + 7 ==> b[i] == a[i]
    ensures ReducedUpTo(f, b, sub + 1)
  {
    SameAmplitude(f, a, sub);
    ReducedPair(f, sub);
    forall i | 0 <= i < 33
      ensures b[i] == if i < 5 + 7 * (sub + 1) then ReducedByte(f, i) else f[i]
    {
      if 5 + 7 * sub <= i < 5 + 7 * (sub + 1) && i != 7 * sub + 6 && i != 7 * sub + 7 {
        Positions(sub);
        assert InSub(i) == i - 5 - 7 * sub;
      }
    }
  }

  /** The two reduced bytes of a subframe. */
  lemma ReducedPair(f: Frame, sub: nat)
    requires sub < 4
    ensures ReducedByte(f, 7 * sub + 6) == High(f[7 * sub + 6], Reduce(Xmaxc(f, sub)))
    ensures ReducedByte(f, 7 * sub + 7) == Low(f[7 * sub + 7], Reduce(Xmaxc(f, sub)))
  {
    Positions(sub);
  }

  lemma {:induction false} SameAmplitude(f: Frame, a: Frame, sub: nat)
    requires sub < 4 && ReducedUpTo(f, a, sub)
    ensures Xmaxc(a, sub) == Xmaxc(f, sub)
  {
    assert a[sub * 7 + 6] == f[sub * 7 + 6] && a[sub * 7 + 7] == f[sub * 7 + 7];
  }

  /** `reduce_xmaxc`: in place, and whether all four were at most one reduction above 0. */
  method ReduceXmaxc(a: array<bv8>) returns (mute: bool)
    requires a.Length == 33
    modifies a
    ensures a[..] == Reduced(old(a[..]))
    ensures mute <==> forall sub :: 0 <= sub < 4 ==> Xmaxc(old(a[..]), sub) <= 4
  {
    ghost var f: Frame := a[..];
    mute := true;
    for sub := 0 to 4
      invariant ReducedUpTo(f, a[..], sub)
      invariant mute <==> forall k :: 0 <= k < sub ==> Xmaxc(f, k) <= 4
    {
      ghost var before: Frame := a[..];
      SameAmplitude(f, before, sub);
      var loud := ReduceSub(a, sub);
      ReducedOneMore(f, before, a[..], sub);
      if loud {
        mute := false;
      }
    }
  }

  lemma {:induction false} Positions(sub: nat)
    requires sub < 4
    ensures InSub(7 * sub + 6) == 1 && InSub(7 * sub + 7) == 2
    ensures forall i :: 5 + 7 * sub <= i < 12 + 7 * sub && i != 7 * sub + 6 && i != 7 * sub + 7 ==>
            InSub(i) != 1 && InSub(i) != 2
  {
    forall i | 5 + 7 * sub <= i < 12 + 7 * sub
      ensures InSub(i) == i - 5 - 7 * sub
    {
      assert (i - 5) % 7 == i - 5 - 7 * sub;
    }
  }

  /** Two bits for each subframe. */
  type Grid = g: seq<bv8> | |g| == 4 && forall i :: 0 <= i < 4 ==> g[i] <= 3 witness [0, 0, 0, 0]

  function GriddedByte(f: Frame, g: Grid, i: nat): bv8
    requires i < 33
  {
    if InSub(i) == 1 then (f[i] & 0x9F) | (g[(i - 5) / 7] << 5) else f[i]
  }

  /** Grid positions replaced. */
  function Gridded(f: Frame, g: Grid): Frame {
    seq(33, i requires 0 <= i < 33 => GriddedByte(f, g, i))
  }

  /** `random_grid_pos`; the bits of the pseudo-random generator are a parameter. */
  method RandomGridPos(frame: Frame, g: Grid) returns (out: Frame)
    ensures out == Gridded(frame, g)
  {
    var a := frame;
    for sub := 0 to 4
      invariant forall i :: 0 <= i < 33 ==> a[i] == if i < 5 + 7 * sub then GriddedByte(frame, g, i) else frame[i]
    {
      var at := 7 * sub + 6;
      Positions(sub);
      assert (at - 5) / 7 == sub;
      a := a[at := (a[at] & 0x9F) | (g[sub] << 5)];
    }
    out := a;
  }

  // ---------------------------------------------------------------------------
  // What the changes keep

  lemma SetAmplitude(a: bv8, b: bv8, x: bv8)
    requires x <= 0x3F
    ensures ((High(a, x) & 0x1F) << 1) | (Low(b, x) >> 7) == x
    ensures High(a, x) & 0xE0 == a & 0xE0 && Low(b, x) & 0x7F == b & 0x7F
  {
  }

  lemma SetGrid(a: bv8, g: bv8)
    requires g <= 3
    ensures ((a & 0x9F) | (g << 5)) & 0x1F == a & 0x1F
    ensures ((a & 0x9F) | (g << 5)) & 0x80 == a & 0x80
  {
  }

  lemma ReadGrid(a: bv8, g: bv8)
    requires g <= 3
    ensures (((a & 0x9F) | (g << 5)) >> 5) & 3 == g
  {
  }

  lemma AmplitudeRange(a: bv8, b: bv8)
    ensures ((a & 0x1F) << 1) | (b >> 7) <= 0x3F
  {
  }

  lemma ReduceSmaller(x: bv8, y: bv8)
    requires x <= y
    ensures Reduce(x) <= Reduce(y) && Reduce(x) <= x
  {
  }

  lemma {:induction false} XmaxcReduced(f: Frame, sub: nat)
    requires sub < 4
    ensures Xmaxc(Reduced(f), sub) == Reduce(Xmaxc(f, sub)) && Xmaxc(f, sub) <= 0x3F
  {
    var hi, lo := sub * 7 + 6, sub * 7 + 7;
    Positions(sub);
    var x := Reduce(Xmaxc(f, sub));
    AmplitudeRange(f[hi], f[lo]);
    ReduceSmaller(Xmaxc(f, sub), Xmaxc(f, sub));
    SetAmplitude(f[hi], f[lo], x);
    assert Reduced(f)[hi] == High(f[hi], x) && Reduced(f)[lo] == Low(f[lo], x);
  }

  lemma {:induction false} XmaxcGridded(f: Frame, g: Grid, sub: nat)
    requires sub < 4
    ensures Xmaxc(Gridded(f, g), sub) == Xmaxc(f, sub)
  {
    var hi, lo := sub * 7 + 6, sub * 7 + 7;
    Positions(sub);
    SetGrid(f[hi], g[(hi - 5) / 7]);
    assert Gridded(f, g)[hi] & 0x1F == f[hi] & 0x1F && Gridded(f, g)[lo] == f[lo];
  }

  /** The grid position of a subframe. */
  function GridPos(f: Frame, sub: nat): bv8
    requires sub < 4
  {
    (f[sub * 7 + 6] >> 5) & 3
  }

  lemma {:induction false} GridSet(f: Frame, g: Grid, sub: nat)
    requires sub < 4
    ensures GridPos(Gridded(f, g), sub) == g[sub]
  {
    Positions(sub);
    ReadGrid(f[7 * sub + 6], g[sub]);
    assert Gridded(f, g)[sub * 7 + 6] == GriddedByte(f, g, sub * 7 + 6) && (sub * 7 + 6 - 5) / 7 == sub;
  }

  /** The bits of a byte that are neither grid position nor block amplitude. */
  function Rest(i: nat, b: bv8): bv8 {
    if InSub(i) == 1 then b & 0x80 else if InSub(i) == 2 then b & 0x7F else b
  }

  /** Two frames that differ at most in grid positions and block amplitudes. */
  predicate SameRest(f: Frame, f': Frame) {
    forall i :: 0 <= i < 33 ==> Rest(i, f[i]) == Rest(i, f'[i])
  }

  lemma {:induction false} RestOfHigh(a: bv8, x: bv8, y: bv8)
    requires x & 0xE0 == a & 0xE0
    ensures x & 0x80 == a & 0x80
  {
    assert (x & 0xE0) & 0x80 == x & 0x80 && (a & 0xE0) & 0x80 == a & 0x80;
  }

  lemma {:induction false} ReducedRest(f: Frame)
    ensures SameRest(f, Reduced(f))
  {
    forall i | 0 <= i < 33
      ensures Rest(i, f[i]) == Rest(i, Reduced(f)[i])
    {
      assert Reduced(f)[i] == ReducedByte(f, i);
      if InSub(i) == 1 {
        var x := Reduce(((f[i] & 0x1F) << 1) | (f[i + 1] >> 7));
        AmplitudeRange(f[i], f[i + 1]);
        ReduceSmaller(((f[i] & 0x1F) << 1) | (f[i + 1] >> 7), 0x3F);
        SetAmplitude(f[i], f[i + 1], x);
        RestOfHigh(f[i], High(f[i], x), x);
      } else if InSub(i) == 2 {
        var x := Reduce(((f[i - 1] & 0x1F) << 1) | (f[i] >> 7));
        AmplitudeRange(f[i - 1], f[i]);
        ReduceSmaller(((f[i - 1] & 0x1F) << 1) | (f[i] >> 7), 0x3F);
        SetAmplitude(f[i - 1], f[i], x);
      }
    }
  }

  lemma {:induction false} GriddedRest(f: Frame, g: Grid)
    ensures SameRest(f, Gridded(f, g))
  {
    forall i | 0 <= i < 33
      ensures Rest(i, f[i]) == Rest(i, Gridded(f, g)[i])
    {
      assert Gridded(f, g)[i] == GriddedByte(f, g, i);
      if InSub(i) == 1 {
        SetGrid(f[i], g[(i - 5) / 7]);
      }
    }
  }

  // ---------------------------------------------------------------------------
  // The state machine

  datatype Principal = NoData | SpeechReady | SpeechMuting | SidReady | SidMuting

  /** `struct fr_ecu_state`. */
  datatype Ecu = Ecu(state: Principal, speech: Frame, prefix: seq<bv8>, xmaxc: bv8, count: nat)

  /** SID frame from saved parameters. */
  function SidByte(e: Ecu, i: nat): bv8
    requires i < 33 && |e.prefix| == 5
  {
    if i < 5 then e.prefix[i]
    else if InSub(i) == 1 then e.xmaxc >> 1
    else if InSub(i) == 2 then (e.xmaxc & 1) << 7
    else 0
  }

  function SidFrame(e: Ecu): Frame
    requires |e.prefix| == 5
  {
    seq(33, i requires 0 <= i < 33 => SidByte(e, i))
  }

  predicate Mute(f: Frame) {
    forall sub :: 0 <= sub < 4 ==> Xmaxc(f, sub) <= 4
  }

  /** The state after a call of fr_ecu_output. */
  function After(e: Ecu): Ecu {
    match e.state
    case NoData => e
    case SpeechReady => e.(state := SpeechMuting)
    case SpeechMuting => e.(speech := Reduced(e.speech), state := if Mute(e.speech) then NoData else SpeechMuting)
    case SidReady =>
      if e.count + 1 >= 48 then e.(count := e.count + 1, state := SidMuting, xmaxc := Reduce(e.xmaxc))
      else e.(count := e.count + 1)
    case SidMuting => e.(xmaxc := Reduce(e.xmaxc), state := if e.xmaxc > 4 then SidMuting else NoData)
  }

  /** The frame of that call. */
  function Emitted(e: Ecu, g: Grid): Frame
    requires |e.prefix| == 5
  {
    match e.state
    case NoData => SILENCE
    case SpeechReady => e.speech
    case SpeechMuting => Gridded(Reduced(e.speech), g)
    case SidReady => SidFrame(After(e))
    case SidMuting => if e.xmaxc > 4 then SidFrame(After(e)) else SILENCE
  }

  /** The state after `n` calls with no good frame in between. */
  function Later(e: Ecu, n: nat): Ecu {
    if n == 0 then e else After(Later(e, n - 1))
  }

  /** What the n-th of these calls emits, counted from 1. */
  function Call(e: Ecu, n: nat, g: Grid): Frame
    requires n >= 1 && |Later(e, n - 1).prefix| == 5
  {
    Emitted(Later(e, n - 1), g)
  }

  lemma {:induction false} PrefixKept(e: Ecu, n: nat)
    ensures Later(e, n).prefix == e.prefix
  {
    if n == 0 {
    } else {
      PrefixKept(e, n - 1);
    }
  }

  /** An amplitude of 63 after `n` reductions. */
  function Faded(n: nat): bv8 {
    if n == 0 then 63 else Reduce(Faded(n - 1))
  }

  lemma {:induction false} FifteenReductions()
    ensures Faded(15) == 3
  {
    assert Faded(1) == 59 && Faded(2) == 55 && Faded(3) == 51 && Faded(4) == 47 && Faded(5) == 43 && Faded(6) == 39;
    assert Faded(7) == 35 && Faded(8) == 31 && Faded(9) == 27 && Faded(10) == 23 && Faded(11) == 19 && Faded(12) == 15;
    assert Faded(13) == 11 && Faded(14) == 7;
  }

  /** Silence stays. */
  lemma {:induction false} StaysSilent(e: Ecu, m: nat, n: nat)
    requires m <= n && Later(e, m).state == NoData
    ensures Later(e, n).state == NoData
    decreases n
  {
    if m == n {
    } else {
      StaysSilent(e, m, n - 1);
    }
  }

  // ---------------------------------------------------------------------------
  // Speech

  /** Call 1 repeats the frame; from then on its amplitudes fall, and nothing else of it changes but the grid. */
  lemma {:induction false} SpeechFading(e: Ecu, n: nat)
    requires e.state == SpeechReady
    ensures var l := Later(e, n + 1);
            && (l.state == NoData || l.state == SpeechMuting) && SameRest(e.speech, l.speech)
            && (l.state == SpeechMuting ==> forall sub :: 0 <= sub < 4 ==> Xmaxc(l.speech, sub) <= Faded(n))
            && (forall sub :: 0 <= sub < 4 ==> Xmaxc(l.speech, sub) <= Xmaxc(e.speech, sub))
  {
    if n == 0 {
      assert Later(e, 1) == After(Later(e, 0)) == After(e);
      forall sub | 0 <= sub < 4
        ensures Xmaxc(e.speech, sub) <= 63
      {
        XmaxcReduced(e.speech, sub);
      }
    } else {
      SpeechFading(e, n - 1);
      var l := Later(e, n);
      if l.state == SpeechMuting {
        ReducedRest(l.speech);
        forall sub | 0 <= sub < 4
          ensures Xmaxc(Reduced(l.speech), sub) <= Faded(n) && Xmaxc(Reduced(l.speech), sub) <= Xmaxc(e.speech, sub)
        {
          XmaxcReduced(l.speech, sub);
          ReduceSmaller(Xmaxc(l.speech, sub), Faded(n - 1));
        }
      }
    }
  }

  /** After a speech frame, call 1 repeats it and every call from the 18th on is the silence frame. */
  lemma {:induction false} SpeechFades(e: Ecu, n: nat, g: Grid)
    requires e.state == SpeechReady && |e.prefix| == 5 && n >= 1
    ensures |Later(e, n - 1).prefix| == 5
    ensures n == 1 ==> Call(e, n, g) == e.speech
    ensures n >= 18 ==> Call(e, n, g) == SILENCE
  {
    PrefixKept(e, n - 1);
    if n >= 18 {
      SpeechFading(e, 15);
      FifteenReductions();
      var l := Later(e, 16);
      assert Later(e, 17) == After(l);
      assert Later(e, 17).state == NoData;
      StaysSilent(e, 17, n - 1);
    }
  }

  /** In between, a call emits the frame with smaller or equal amplitudes and other grid positions, or silence. */
  lemma {:induction false} SpeechKept(e: Ecu, n: nat, g: Grid)
    requires e.state == SpeechReady && |e.prefix| == 5 && n >= 1
    ensures |Later(e, n - 1).prefix| == 5
    ensures Call(e, n, g) == SILENCE ||
            (SameRest(e.speech, Call(e, n, g)) && forall sub :: 0 <= sub < 4 ==>
                Xmaxc(Call(e, n, g), sub) <= Xmaxc(e.speech, sub))
  {
    PrefixKept(e, n - 1);
    if n > 1 {
      SpeechFading(e, n - 2);
      var f := Later(e, n - 1).speech;
      ReducedRest(f);
      GriddedRest(Reduced(f), g);
      forall sub | 0 <= sub < 4
        ensures Xmaxc(Gridded(Reduced(f), g), sub) <= Xmaxc(f, sub)
      {
        XmaxcReduced(f, sub);
        XmaxcGridded(Reduced(f), g, sub);
        ReduceSmaller(Xmaxc(f, sub), Xmaxc(f, sub));
      }
    }
  }

  /** An amplitude after `n` reductions. */
  function Left(x: int, n: nat): int {
    if x > 4 * n then x - 4 * n else 0
  }

  lemma ReduceInt(x: bv8)
    ensures Reduce(x) as int == Left(x as int, 1) && (x > 4 <==> x as int > 4)
  {
  }

  /** Some subframe is louder than `n` reductions take away. */
  ghost predicate Audible(f: Frame, n: nat) {
    exists sub :: 0 <= sub < 4 && Xmaxc(f, sub) as int > 4 * n
  }

  /** Every subframe of `f'` is that of `f` after `n` reductions. */
  ghost predicate Quieter(f: Frame, f': Frame, n: nat) {
    SameRest(f, f') && forall sub :: 0 <= sub < 4 ==> Xmaxc(f', sub) as int == Left(Xmaxc(f, sub) as int, n)
  }

  lemma {:induction false} QuieterStep(f: Frame, f': Frame, n: nat)
    requires Quieter(f, f', n)
    ensures Quieter(f, Reduced(f'), n + 1) && (Mute(f') <==> !Audible(f, n + 1))
  {
    ReducedRest(f');
    forall sub | 0 <= sub < 4
      ensures Xmaxc(Reduced(f'), sub) as int == Left(Xmaxc(f, sub) as int, n + 1)
      ensures Xmaxc(f', sub) <= 4 <==> Xmaxc(f, sub) as int <= 4 * (n + 1)
    {
      XmaxcReduced(f', sub);
      ReduceInt(Xmaxc(f', sub));
    }
  }

  lemma {:induction false} SpeechLevel(e: Ecu, n: nat)
    requires e.state == SpeechReady
    ensures var l := Later(e, n + 1);
            if n == 0 || Audible(e.speech, n) then l.state == SpeechMuting && Quieter(e.speech, l.speech, n)
            else l.state == NoData
  {
    if n == 0 {
      assert Later(e, 1) == After(Later(e, 0)) == After(e);
    } else {
      SpeechLevel(e, n - 1);
      var l := Later(e, n);
      if l.state == SpeechMuting {
        QuieterStep(e.speech, l.speech, n - 1);
      }
    }
  }

  /** Exactly what call `n` emits from the second on: as long as some amplitude is left, and once more, the saved frame
      with every amplitude reduced n - 1 times and the given grid positions; then silence. */
  lemma {:induction false} SpeechExactly(e: Ecu, n: nat, g: Grid)
    requires e.state == SpeechReady && |e.prefix| == 5 && n >= 2
    ensures |Later(e, n - 1).prefix| == 5
    ensures n > 2 && !Audible(e.speech, n - 2) ==> Call(e, n, g) == SILENCE
    ensures n == 2 || Audible(e.speech, n - 2) ==>
            && Quieter(e.speech, Call(e, n, g), n - 1)
            && forall sub :: 0 <= sub < 4 ==> GridPos(Call(e, n, g), sub) == g[sub]
  {
    PrefixKept(e, n - 1);
    SpeechLevel(e, n - 2);
    var l := Later(e, n - 1);
    if l.state == SpeechMuting {
      QuieterStep(e.speech, l.speech, n - 2);
      GriddedRest(Reduced(l.speech), g);
      forall sub | 0 <= sub < 4
        ensures Xmaxc(Gridded(Reduced(l.speech), g), sub) == Xmaxc(Reduced(l.speech), sub)
        ensures GridPos(Gridded(Reduced(l.speech), g), sub) == g[sub]
      {
        XmaxcGridded(Reduced(l.speech), g, sub);
        GridSet(Reduced(l.speech), g, sub);
      }
    }
  }

  // ---------------------------------------------------------------------------
  // SID

  /** A re-emitted SID frame has no error, the saved LARc and the saved amplitude in all four subframes. */
  lemma {:induction false} SidPerfect(e: Ecu)
    requires |e.prefix| == 5 && e.xmaxc <= 63
    ensures Errors(SidFrame(e), 95) == 0 && ClassOf(Errors(SidFrame(e), 95)) == Valid && SidFrame(e)[..5] == e.prefix
    ensures forall sub :: 0 <= sub < 4 ==> Xmaxc(SidFrame(e), sub) == e.xmaxc
  {
    var f := SidFrame(e);
    forall i | 0 <= i < 33
      ensures f[i] & !SidMask(i) == 0
    {
      assert f[i] == SidByte(e, i);
      SidBits(e.xmaxc);
      AllMasked(f[i]);
    }
    PristineErrors(f, 95);
    assert forall i :: 0 <= i < 5 ==> f[i] == SidByte(e, i);
    forall sub | 0 <= sub < 4
      ensures Xmaxc(f, sub) == e.xmaxc
    {
      Positions(sub);
      assert f[sub * 7 + 6] == SidByte(e, sub * 7 + 6) && f[sub * 7 + 7] == SidByte(e, sub * 7 + 7);
      SidBits(e.xmaxc);
    }
  }

  lemma SidBits(x: bv8)
    requires x <= 63
    ensures (x >> 1) & !(0x1F as bv8) == 0 && ((x & 1) << 7) & !(0x80 as bv8) == 0
    ensures (((x >> 1) & 0x1F) << 1) | (((x & 1) << 7) >> 7) == x
  {
  }

  lemma AllMasked(v: bv8)
    ensures v & !(0xFF as bv8) == 0 && 0 & !v == 0
  {
  }

  /** The first 47 calls change nothing but the count. */
  lemma {:induction false} SidRepeats(e: Ecu, n: nat)
    requires e.state == SidReady && e.count == 0 && n <= 47
    ensures Later(e, n) == e.(count := n)
  {
    if n == 0 {
    } else {
      SidRepeats(e, n - 1);
    }
  }

  /** From the 48th on the amplitude falls. */
  lemma {:induction false} SidFading(e: Ecu, n: nat)
    requires e.state == SidReady && e.count == 0 && e.xmaxc <= 63
    ensures var l := Later(e, 48 + n);
            && (l.state == SidMuting || (l.state == NoData && l.xmaxc == 0))
            && l.xmaxc <= Faded(n + 1) && l.xmaxc <= e.xmaxc
  {
    if n == 0 {
      SidRepeats(e, 47);
      ReduceSmaller(e.xmaxc, 63);
      ReduceSmaller(e.xmaxc, e.xmaxc);
      assert Faded(1) == Reduce(Faded(0));
    } else {
      SidFading(e, n - 1);
      SidFadesOne(Later(e, 47 + n), n);
    }
  }

  lemma {:induction false} SidFadesOne(l: Ecu, n: nat)
    requires l.state == SidMuting || (l.state == NoData && l.xmaxc == 0)
    requires l.xmaxc <= Faded(n)
    ensures After(l).state == SidMuting || (After(l).state == NoData && After(l).xmaxc == 0)
    ensures After(l).xmaxc <= Faded(n + 1) && After(l).xmaxc <= l.xmaxc
  {
    ReduceSmaller(l.xmaxc, Faded(n));
    ReduceSmaller(l.xmaxc, l.xmaxc);
  }

  /** After a valid SID, calls 1 to 47 re-emit it unchanged and every call from the 63rd on is the silence frame. */
  lemma {:induction false} SidFades(e: Ecu, n: nat, g: Grid)
    requires e.state == SidReady && e.count == 0 && e.xmaxc <= 63 && |e.prefix| == 5 && n >= 1
    ensures |Later(e, n - 1).prefix| == 5
    ensures n <= 47 ==> Call(e, n, g) == SidFrame(e)
    ensures n >= 63 ==> Call(e, n, g) == SILENCE
  {
    PrefixKept(e, n - 1);
    if n <= 47 {
      SidRepeats(e, n - 1);
      SameSid(e, e.(count := n));
    } else if n >= 63 {
      SidFading(e, 14);
      FifteenReductions();
      var l := Later(e, 62);
      assert l.xmaxc <= 4;
      if n > 63 {
        assert Later(e, 63) == After(l) && Later(e, 63).state == NoData;
        StaysSilent(e, 63, n - 1);
      }
    }
  }

  lemma {:induction false} SidLevel(e: Ecu, n: nat)
    requires e.state == SidReady && e.count == 0 && e.xmaxc <= 63
    ensures var l := Later(e, 48 + n);
            && l.xmaxc <= 63
            && if n == 0 || e.xmaxc as int > 4 * (n + 1)
               then l.state == SidMuting && l.xmaxc as int == Left(e.xmaxc as int, n + 1)
               else l.state == NoData
  {
    if n == 0 {
      SidRepeats(e, 47);
      ReduceInt(e.xmaxc);
      ReduceSmaller(e.xmaxc, 63);
    } else {
      SidLevel(e, n - 1);
      ReduceInt(Later(e, 47 + n).xmaxc);
      ReduceSmaller(Later(e, 47 + n).xmaxc, 63);
    }
  }

  /** Call `n` is silent, or emits the SID frame of the state after it. */
  lemma {:induction false} SidCall(e: Ecu, n: nat, g: Grid)
    requires e.state == SidReady && e.count == 0 && e.xmaxc <= 63 && |e.prefix| == 5 && n >= 48
    ensures Later(e, n - 1).prefix == Later(e, n).prefix == e.prefix && Later(e, n).xmaxc <= 63
    ensures n > 48 && e.xmaxc as int <= 4 * (n - 47) ==> Call(e, n, g) == SILENCE
    ensures n == 48 || e.xmaxc as int > 4 * (n - 47) ==>
            Call(e, n, g) == SidFrame(Later(e, n)) && Later(e, n).xmaxc as int == Left(e.xmaxc as int, n - 47)
  {
    PrefixKept(e, n - 1);
    PrefixKept(e, n);
    SidLevel(e, n - 48);
    if n == 48 {
      SidRepeats(e, 47);
    } else {
      SidLevel(e, n - 49);
      ReduceInt(Later(e, n - 1).xmaxc);
    }
  }

  /** Exactly what call `n` emits from the 48th on: as long as some amplitude is left, the saved SID with the amplitude
      reduced n - 47 times; then silence. */
  lemma {:induction false} SidExactly(e: Ecu, n: nat, g: Grid)
    requires e.state == SidReady && e.count == 0 && e.xmaxc <= 63 && |e.prefix| == 5 && n >= 48
    ensures |Later(e, n - 1).prefix| == 5
    ensures n > 48 && e.xmaxc as int <= 4 * (n - 47) ==> Call(e, n, g) == SILENCE
    ensures n == 48 || e.xmaxc as int > 4 * (n - 47) ==>
            && Errors(Call(e, n, g), 95) == 0 && Call(e, n, g)[..5] == e.prefix
            && forall sub :: 0 <= sub < 4 ==> Xmaxc(Call(e, n, g), sub) as int == Left(e.xmaxc as int, n - 47)
  {
    SidCall(e, n, g);
    SidPerfect(Later(e, n));
  }

  lemma {:induction false} SameSid(e: Ecu, e': Ecu)
    requires |e.prefix| == 5 && e'.prefix == e.prefix && e'.xmaxc == e.xmaxc
    ensures SidFrame(e) == SidFrame(e')
  {
    forall i | 0 <= i < 33
      ensures SidFrame(e)[i] == SidFrame(e')[i]
    {
      assert SidFrame(e)[i] == SidByte(e, i) && SidFrame(e')[i] == SidByte(e', i);
    }
  }

  /** Every call after a valid SID emits silence or a perfect SID frame, with an amplitude that has not risen. */
  lemma {:induction false} SidKept(e: Ecu, n: nat, g: Grid)
    requires e.state == SidReady && e.count == 0 && e.xmaxc <= 63 && |e.prefix| == 5 && n >= 1
    ensures |Later(e, n - 1).prefix| == 5
    ensures Call(e, n, g) == SILENCE ||
            (Errors(Call(e, n, g), 95) == 0 && Call(e, n, g)[..5] == e.prefix && forall sub :: 0 <= sub < 4 ==>
                Xmaxc(Call(e, n, g), sub) <= e.xmaxc)
  {
    PrefixKept(e, n - 1);
    PrefixKept(e, n);
    SidState(e, n);
    SidPerfect(Later(e, n));
  }

  lemma {:induction false} SidState(e: Ecu, n: nat)
    requires e.state == SidReady && e.count == 0 && e.xmaxc <= 63 && n >= 1
    ensures Later(e, n).xmaxc <= e.xmaxc
    ensures Later(e, n - 1).state == SidReady || Later(e, n - 1).state == SidMuting || Later(e, n - 1).state == NoData
  {
    if n <= 47 {
      SidRepeats(e, n);
      SidRepeats(e, n - 1);
    } else {
      SidFading(e, n - 48);
      if n > 48 {
        SidFading(e, n - 49);
      } else {
        SidRepeats(e, 47);
      }
    }
  }

  // ---------------------------------------------------------------------------
  // From call to call

  /** The amplitude of the frame of the next call. */
  function Loudness(e: Ecu, sub: nat): bv8
    requires sub < 4
  {
    match e.state
    case NoData => 0
    case SpeechReady => Xmaxc(e.speech, sub)
    case SpeechMuting => Reduce(Xmaxc(e.speech, sub))
    case SidReady => After(e).xmaxc
    case SidMuting => Reduce(e.xmaxc)
  }

  lemma {:induction false} SilenceQuiet(sub: nat)
    requires sub < 4
    ensures Xmaxc(SILENCE, sub) == 0
  {
    Positions(sub);
    assert SILENCE[sub * 7 + 6] == 0x20 && SILENCE[sub * 7 + 7] == 0x38;
  }

  lemma {:induction false} EmittedLoudness(e: Ecu, g: Grid, sub: nat)
    requires |e.prefix| == 5 && e.xmaxc <= 63 && sub < 4
    ensures Xmaxc(Emitted(e, g), sub) == Loudness(e, sub)
  {
    match e.state
    case NoData => SilenceQuiet(sub);
    case SpeechReady =>
    case SpeechMuting =>
      XmaxcGridded(Reduced(e.speech), g, sub);
      XmaxcReduced(e.speech, sub);
    case SidReady =>
      ReduceSmaller(e.xmaxc, e.xmaxc);
      SidPerfect(After(e));
    case SidMuting =>
      ReduceSmaller(e.xmaxc, e.xmaxc);
      if e.xmaxc > 4 {
        SidPerfect(After(e));
      } else {
        SilenceQuiet(sub);
      }
  }

  predicate Falls(x: bv8, y: bv8) {
    y == x || y == Reduce(x) || y == 0
  }

  lemma FallsBelow(x: bv8, y: bv8)
    requires Falls(x, y)
    ensures y <= x
  {
  }

  lemma {:induction false} MutingFalls(e: Ecu, sub: nat)
    requires e.state == SpeechMuting && sub < 4
    ensures Falls(Loudness(e, sub), Loudness(After(e), sub))
  {
    XmaxcReduced(e.speech, sub);
  }

  lemma {:induction false} LoudnessFalls(e: Ecu, sub: nat)
    requires sub < 4
    ensures Falls(Loudness(e, sub), Loudness(After(e), sub)) && Falls(e.xmaxc, After(e).xmaxc)
  {
    if e.state == SpeechMuting {
      MutingFalls(e, sub);
    }
  }

  lemma {:induction false} LoudnessLater(e: Ecu, m: nat, n: nat, sub: nat)
    requires m <= n && sub < 4
    ensures Loudness(Later(e, n), sub) <= Loudness(Later(e, m), sub) && Later(e, n).xmaxc <= Later(e, m).xmaxc
    decreases n
  {
    if m == n {
    } else {
      LoudnessLater(e, m, n - 1, sub);
      var l := Later(e, n - 1);
      LoudnessFalls(l, sub);
      FallsBelow(Loudness(l, sub), Loudness(After(l), sub));
      FallsBelow(l.xmaxc, After(l).xmaxc);
    }
  }

  /** In any state, after speech as after a SID: no call is louder than an earlier one, in any subframe, whatever the
      grid positions. */
  lemma {:induction false} NeverLouder(e: Ecu, m: nat, n: nat, g: Grid, g': Grid, sub: nat)
    requires |e.prefix| == 5 && e.xmaxc <= 63 && 1 <= m <= n && sub < 4
    ensures |Later(e, m - 1).prefix| == 5 && |Later(e, n - 1).prefix| == 5
    ensures Xmaxc(Call(e, n, g'), sub) <= Xmaxc(Call(e, m, g), sub)
  {
    PrefixKept(e, m - 1);
    PrefixKept(e, n - 1);
    LoudnessLater(e, 0, m - 1, sub);
    LoudnessLater(e, m - 1, n - 1, sub);
    EmittedLoudness(Later(e, m - 1), g, sub);
    EmittedLoudness(Later(e, n - 1), g', sub);
  }

  // ---------------------------------------------------------------------------
  // The object

  class FrEcuState {
    var prState: Principal
    const speechFrame: array<bv8>
    var sidPrefix: seq<bv8>
    var sidXmaxc: bv8
    var sidReemitCount: nat
    var lastInputWasSid: bool

    ghost predicate Valid()
      reads this
    {
      speechFrame.Length == 33 && |sidPrefix| == 5 && sidXmaxc <= 63 && sidReemitCount <= 48 &&
          (prState == SidReady ==> sidReemitCount < 48)
    }

    ghost function Abs(): Ecu
      requires Valid()
      reads this, speechFrame
    {
      Ecu(prState, speechFrame[..], sidPrefix, sidXmaxc, sidReemitCount)
    }

    /** `ecu_fr_init`. */
    constructor ()
      ensures Valid() && prState == NoData && fresh(speechFrame)
    {
      prState := NoData;
      speechFrame := new bv8[33];
      sidPrefix, sidXmaxc, sidReemitCount := [0, 0, 0, 0, 0], 0, 0;
      lastInputWasSid := false;
    }

    /** `fr_ecu_input`: a good traffic frame. */
    method Input(frame: Frame)
      requires Valid()
      modifies this, speechFrame
      ensures Valid()
      ensures match ClassOf(Errors(frame, 95))
              case Speech => Abs() == old(Abs()).(state := SpeechReady, speech := frame) && !lastInputWasSid
              case Invalid => Abs() == old(Abs()).(count := 0) && lastInputWasSid
              case Valid => Abs() == old(Abs()).(state := SidReady, prefix := frame[..5], xmaxc := Xmaxc(frame, 3),
                  count := 0) && lastInputWasSid
    {
      var c := Classify(frame);
      match c {
        case Speech =>
          forall i | 0 <= i < 33 {
            speechFrame[i] := frame[i];
          }
          assert speechFrame[..] == frame;
          prState := SpeechReady;
          lastInputWasSid := false;
        case Invalid =>
          sidReemitCount := 0;
          lastInputWasSid := true;
        case Valid =>
          sidPrefix := frame[..5];
          sidXmaxc := ((frame[27] & 0x1F) << 1) | (frame[28] >> 7);
          AmplitudeRange(frame[27], frame[28]);
          prState := SidReady;
          sidReemitCount := 0;
          lastInputWasSid := true;
      }
    }

    /** `ecu_fr_frame_in`: bad frames, frames of another length and frames without the RTP signature are ignored. */
    method FrameIn(bfi: bool, frame: seq<bv8>)
      requires Valid()
      modifies this, speechFrame
      ensures Valid()
      ensures bfi || |frame| != 33 || frame[0] & 0xF0 != 0xD0 ==>
              Abs() == old(Abs()) && lastInputWasSid == old(lastInputWasSid)
      ensures !bfi && |frame| == 33 && frame[0] & 0xF0 == 0xD0 && ClassOf(Errors(frame, 95)) == Speech ==>
                Abs() == old(Abs()).(state := SpeechReady, speech := frame)
      ensures !bfi && |frame| == 33 && frame[0] & 0xF0 == 0xD0 && ClassOf(Errors(frame, 95)) == FrSid.Valid ==>
                Abs() == old(Abs()).(state := SidReady, prefix := frame[..5], xmaxc := Xmaxc(frame, 3), count := 0)
    {
      if bfi || |frame| != 33 || frame[0] & 0xF0 != 0xD0 {
        return;
      }
      Input(frame);
    }

    /** `reduce_xmaxc_sid`. */
    method ReduceXmaxcSid() returns (mute: bool)
      requires sidXmaxc <= 63
      modifies this`sidXmaxc
      ensures sidXmaxc == Reduce(old(sidXmaxc)) && sidXmaxc <= 63 && (mute <==> old(sidXmaxc) <= 4)
    {
      if sidXmaxc > 4 {
        sidXmaxc := sidXmaxc - 4;
        return false;
      }
      sidXmaxc := 0;
      return true;
    }

    /** `reemit_sid`. */
    method ReemitSid() returns (frame: Frame)
      requires Valid()
      ensures frame == SidFrame(Abs())
    {
      var p := sidPrefix;
      for sub := 0 to 4
        invariant |p| == 5 + 7 * sub
        invariant forall i :: 0 <= i < |p| ==> p[i] == SidByte(Abs(), i)
      {
        Positions(sub);
        p := p + [0, sidXmaxc >> 1, (sidXmaxc & 1) << 7, 0, 0, 0, 0];
      }
      frame := p;
    }

    /** `fr_ecu_output`: a frame for a lost one. */
    method Output(g: Grid) returns (frame: Frame)
      requires Valid()
      modifies this, speechFrame
      ensures Valid() && Abs() == After(old(Abs())) && frame == Emitted(old(Abs()), g)
    {
      match prState {
        case NoData =>
          frame := SILENCE;
        case SpeechReady =>
          frame := speechFrame[..];
          prState := SpeechMuting;
        case SpeechMuting =>
          var mute := ReduceXmaxc(speechFrame);
          frame := RandomGridPos(speechFrame[..], g);
          if mute {
            prState := NoData;
          }
        case SidReady =>
          sidReemitCount := sidReemitCount + 1;
          if sidReemitCount >= 48 {
            prState := SidMuting;
            var mute := ReduceXmaxcSid();
          }
          frame := ReemitSid();
        case SidMuting =>
          var mute := ReduceXmaxcSid();
          if mute {
            prState := NoData;
            frame := SILENCE;
          } else {
            frame := ReemitSid();
          }
      }
    }
  }
}
