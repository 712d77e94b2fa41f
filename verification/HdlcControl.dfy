/** When a call of osmo_isdnhdlc_encode in src/core/isdnhdlc.c comes back: its loop between frames, turn by turn, as
    far as it decides whether to go on. */
module HdlcControl {

  /** HDLC_SENDFLAG_ONE or HDLC_SEND_FAST_FLAG; `bit_shift`; `data_bits`; `do_closing`; `slen`; `dsize`; and whether
      the state is HDLC_SEND_DATA by now. */
  datatype Control = Control(one: bool, shift: nat, dataBits: nat, closing: bool, left: nat, room: int, started: bool)

  /** A byte is loaded at the beginning of a turn. */
  predicate CanLoad(c: Control) {
    c.shift == 0 && c.left > 0 && !c.closing
  }

  function LoadByte(c: Control): Control {
    if CanLoad(c) then c.(shift := 8, left := c.left - 1, closing := c.left == 1) else c
  }

  /** The switch: HDLC_SEND_FAST_FLAG writes a flag if nothing is left, and else falls through to HDLC_SENDFLAG_ONE,
      which starts the frame once a byte is loaded. */
  function Dispatch(c: Control): Control {
    if !c.one && c.left == 0 then c.(closing := false, room := c.room - 1)
    else c.(closing := c.one && c.closing, started := c.shift == 8)
  }

  /** The write at the end of a turn. */
  function WriteByte(c: Control): Control {
    if c.dataBits == 8 then c.(dataBits := 0, room := c.room - 1) else c
  }

  /** One turn of the loop. */
  function Turn(c: Control): Control {
    WriteByte(Dispatch(LoadByte(c)))
  }

  /** The loop is over, or the frame has begun. */
  predicate Over(c: Control) {
    c.room <= 0 || c.started
  }

  function Turns(c: Control, n: nat): Control {
    if n == 0 then c
    else
      var before := Turns(c, n - 1);
      if Over(before) then before else Turn(before)
  }

  /** The loop is over after at most `n` turns. */
  predicate OverAfter(c: Control, n: nat) {
    Over(Turns(c, n))
  }

  /** Between frames: no byte is loaded, and `do_closing` is only still set after a frame that ended on a byte
      boundary. */
  predicate Between(c: Control) {
    c.shift == 0 && c.dataBits <= 8 && !c.started && (c.closing ==> c.dataBits == 0)
  }

  /** The call comes back: not in HDLC_SENDFLAG_ONE with nothing that can be loaded, unless there is no room, or room
      for exactly the one byte that is waiting. */
  predicate CallReturns(c: Control) {
    c.room <= 0 || !c.one || (c.left > 0 && !c.closing) || (c.dataBits == 8 && c.room == 1)
  }

  /** Falls with every turn of a call that comes back. */
  function Measure(c: Control): nat {
    if c.room <= 0 then 0
    else 3 * c.room + (if c.closing then 1 else 0) + (if c.started then 0 else 2)
  }

  /** What such calls keep: also after the one byte of a frame that HDLC_SEND_FAST_FLAG loads and drops. */
  predicate Going(c: Control) {
    c.dataBits <= 8 && (c.shift == 0 || (!c.one && c.left == 0)) && (c.closing ==> c.dataBits == 0) && CallReturns(c)
  }

  lemma TurnGoes(c: Control)
    requires Going(c) && !Over(c)
    ensures Going(Turn(c)) || Over(Turn(c))
    ensures Measure(Turn(c)) < Measure(c)
  {
  }

  lemma {:induction false} TurnsFirst(c: Control, n: nat)
    requires !Over(c) && n >= 1
    ensures Turns(c, n) == Turns(Turn(c), n - 1)
  {
    if n <= 1 {
    } else {
      TurnsFirst(c, n - 1);
    }
  }

  lemma {:induction false} ComesBack(c: Control) returns (n: nat)
    requires Going(c)
    ensures Over(Turns(c, n))
    decreases Measure(c)
  {
    n := 0;
    if !Over(c) {
      TurnGoes(c);
      var m := 0;
      if !Over(Turn(c)) {
        m := ComesBack(Turn(c));
      }
      n := m + 1;
      TurnsFirst(c, n);
    }
  }

  /** Every number of turns leaves room unused. */
  predicate Stuck(c: Control) {
    Between(c) && !CallReturns(c)
  }

  lemma {:induction false} StaysStuck(c: Control, n: nat)
    requires Stuck(c)
    ensures Stuck(Turns(c, n)) && !Over(Turns(c, n)) && Turns(c, n).left == c.left
  {
    if n == 0 {
    } else {
      StaysStuck(c, n - 1);
    }
  }

  /** A call from between frames comes back, or gets to the frame, exactly under the condition. */
  lemma {:induction false} ReturnsExactly(c: Control)
    requires Between(c)
    ensures (exists n: nat :: OverAfter(c, n)) <==> CallReturns(c)
  {
    if CallReturns(c) {
      var n := ComesBack(c);
      assert OverAfter(c, n);
    } else {
      forall n: nat
        ensures !OverAfter(c, n)
      {
        StaysStuck(c, n);
      }
    }
  }

  // ---------------------------------------------------------------------------
  // Calls with nothing to send

  /** A call with nothing to send after `written` bytes. */
  predicate Flagging(start: Control, c: Control, written: nat) {
    && c.shift == 0 && c.left == 0 && !c.started && c.one == start.one && c.room == start.room - written
    && c.dataBits == (if start.dataBits == 8 && written > 0 then 0 else start.dataBits)
    && c.closing == (start.closing && written == 0)
    && (written > 0 && start.dataBits == 8 && !c.one ==> written >= 2)
  }

  /** The bytes of such a call: one too many if it is the first of all and there is room for one. */
  function FlagBytes(start: Control): nat
    requires start.room >= 0
  {
    if start.dataBits == 8 && start.room == 1 && !start.one then 2 else start.room
  }

  lemma FlaggingTurn(start: Control, c: Control, written: nat)
    requires Between(start) && start.left == 0 && CallReturns(start) && Flagging(start, c, written) && c.room > 0
    ensures var n := c.room - Turn(c).room;
            n >= 1 && Flagging(start, Turn(c), written + n) && Measure(Turn(c)) < Measure(c)
            && (Turn(c).room <= 0 ==> written + n == FlagBytes(start))
  {
  }
}
