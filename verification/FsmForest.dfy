/** Whom a termination of src/core/fsm.c reaches when callbacks terminate further instances meanwhile: everything below
    the terminated instances of a forest, unless a callback of an instance terminates one above it too early. */
module FsmForest {
  import opened Bits
  import opened FsmCascade
  import opened FsmTerm

  /** The beginning, with instances in a forest. */
  function Grown(enabled: bool, c: map<Inst, seq<Inst>>, p: map<Inst, Inst>): State {
    Start(enabled).(children := c, parent := p)
  }

  lemma {:induction false} GrownInv(enabled: bool, c: map<Inst, seq<Inst>>, p: map<Inst, Inst>)
    ensures Inv(Grown(enabled, c, p))
  {
  }

  /** Still before its cleanup: in pre_term, or in the loop over its children. */
  predicate Early(f: Frame) {
    f.pc == InPreTerm || f.pc.InChildren?
  }

  /** Terminated, and past the loop over its children. */
  ghost predicate Past(s: State, x: Inst) {
    x in s.terminating && forall i :: 0 <= i < |s.stack| && s.stack[i].fi == x ==> !Early(s.stack[i])
  }

  /** `x` is below `a` in the forest. */
  ghost predicate Below(c: map<Inst, seq<Inst>>, a: Inst, x: Inst) {
    x != a && Descendant(c, a, x)
  }

  lemma {:induction false} RankGeneration(c: map<Inst, seq<Inst>>, p: map<Inst, Inst>, rank: map<Inst, nat>, a: Inst,
                                          x: Inst, n: nat)
    requires Acyclic(c, p, rank) && a in c && Generation(c, a, x, n)
    ensures x in rank && rank[x] + n <= rank[a]
    decreases n
  {
    if n == 0 {
    } else {
      var q :| q in c && x in c[q] && Generation(c, a, q, n - 1);
      RankGeneration(c, p, rank, a, q, n - 1);
      var i :| 0 <= i < |c[q]| && c[q][i] == x;
      assert Ranked(c, p, rank, q, c[q][i]);
    }
  }

  lemma {:induction false} ChildIsBelow(c: map<Inst, seq<Inst>>, p: map<Inst, Inst>, rank: map<Inst, nat>, a: Inst,
                                        x: Inst)
    requires Acyclic(c, p, rank) && a in c && x in c[a]
    ensures Below(c, a, x) && x in c && x in p && p[x] == a
  {
    var i :| 0 <= i < |c[a]| && c[a][i] == x;
    assert Ranked(c, p, rank, a, c[a][i]);
    assert Generation(c, a, a, 0);
    assert Generation(c, a, x, 1);
  }

  /** What is below a child is below the parent. */
  lemma {:induction false} BelowChild(c: map<Inst, seq<Inst>>, p: map<Inst, Inst>, rank: map<Inst, nat>, a: Inst,
                                      kid: Inst, x: Inst)
    requires Acyclic(c, p, rank) && a in c && kid in c[a]
    ensures Below(c, kid, x) ==> Below(c, a, x)
  {
    if Below(c, kid, x) {
      ChildIsBelow(c, p, rank, a, kid);
      var n: nat :| Generation(c, kid, x, n);
      OneMoreGeneration(c, a, kid, x, n);
      RankGeneration(c, p, rank, a, x, n + 1);
    }
  }

  // ---------------------------------------------------------------------------
  // Runs

  /** No frame of the given kind belongs to an instance below `fi`. */
  ghost predicate NoneAbove(c: map<Inst, seq<Inst>>, stack: seq<Frame>, fi: Inst, all: bool) {
    forall i :: 0 <= i < |stack| && (all || Early(stack[i])) ==> !Below(c, fi, stack[i].fi)
  }

  /** The forest is left alone, and no callback terminates an instance above one that is on the stack before its
      cleanup; with `all`, above any one on the stack. */
  ghost predicate Downward(c: map<Inst, seq<Inst>>, s: State, run: seq<Label>, all: bool)
    requires Run(s, run).Some?
    decreases |run|
  {
    run == [] ||
    var n := |run| - 1;
    && Downward(c, s, run[..n], all) && !run[n].Relink?
    && (run[n].Terminate? ==> NoneAbove(c, Run(s, run[..n]).value.stack, run[n].fi, all))
  }

  /** The lists hold exactly the children that are not past their loops; the loops have seen terminated children. */
  ghost predicate Linked(c: map<Inst, seq<Inst>>, p: map<Inst, Inst>, s: State) {
    && s.parent == p && s.children.Keys == c.Keys
    && (forall q, x :: q in c && x in s.children[q] ==> x in c[q])
    && (forall q, x :: q in c && x in c[q] ==> (x in s.children[q] <==> !Past(s, x)))
    && forall i :: 0 <= i < |s.stack| && s.stack[i].pc.InChildren? && s.stack[i].pc.last.Some? ==>
         s.stack[i].pc.last.value in s.terminating
  }

  /** No early frame, or with `all` no frame, is under one of an instance above it in the forest. */
  ghost predicate Ordered(c: map<Inst, seq<Inst>>, s: State, all: bool) {
    forall i, j :: 0 <= i < j < |s.stack| && (all || Early(s.stack[i])) ==> !Below(c, s.stack[j].fi, s.stack[i].fi)
  }

  /** Past the loop, all children are past theirs. */
  ghost predicate PastDown(c: map<Inst, seq<Inst>>, s: State) {
    forall q, x :: q in c && Past(s, q) && x in c[q] ==> Past(s, x)
  }

  lemma {:induction false} WithoutIn(list: seq<Inst>, fi: Inst, x: Inst)
    ensures x in Without(list, fi) <==> x in list && x != fi
  {
    if list == [] {
    } else {
      WithoutIn(list[1..], fi, x);
    }
  }

  // ---------------------------------------------------------------------------
  // The lists, in any run that leaves the forest alone

  /** A step that neither moves a frame past its loop nor starts one changes nothing here. */
  lemma {:induction false} SamePast(s: State, s': State)
    requires s'.terminating == s.terminating && |s'.stack| == |s.stack|
    requires forall i :: 0 <= i < |s.stack| ==>
               s'.stack[i].fi == s.stack[i].fi && Early(s'.stack[i]) == Early(s.stack[i])
    ensures forall x :: Past(s', x) == Past(s, x)
  {
    forall x
      ensures Past(s', x) == Past(s, x)
    {
      if Past(s, x) {
        forall i | 0 <= i < |s'.stack| && s'.stack[i].fi == x
          ensures !Early(s'.stack[i])
        {
          assert s.stack[i].fi == x;
        }
      }
      if Past(s', x) {
        forall i | 0 <= i < |s.stack| && s.stack[i].fi == x
          ensures !Early(s.stack[i])
        {
          assert s'.stack[i].fi == x;
        }
      }
    }
  }

  lemma {:induction false} BeginPast(s: State, fi: Inst, cause: Cause)
    ensures forall x :: Past(Begin(s, fi, cause), x) == Past(s, x)
  {
    var s' := Begin(s, fi, cause);
    if fi !in s.terminating {
      forall x
        ensures Past(s', x) == Past(s, x)
      {
        assert s'.stack[|s.stack|].fi == fi && Early(s'.stack[|s.stack|]);
        assert forall i :: 0 <= i < |s.stack| ==> s'.stack[i] == s.stack[i];
        if Past(s', x) {
          forall i | 0 <= i < |s.stack| && s.stack[i].fi == x
            ensures !Early(s.stack[i])
          {
            assert s'.stack[i] == s.stack[i];
          }
        }
      }
    }
  }

  lemma {:induction false} PopPast(s: State, s': State)
    requires s.stack != [] && !Early(Top(s)) && s'.stack == s.stack[..|s.stack| - 1] && s'.terminating == s.terminating
    ensures forall x :: Past(s', x) == Past(s, x)
  {
    forall x
      ensures Past(s', x) == Past(s, x)
    {
      if Past(s', x) {
        forall i | 0 <= i < |s.stack| && s.stack[i].fi == x
          ensures !Early(s.stack[i])
        {
          if i < |s.stack| - 1 {
            assert s'.stack[i] == s.stack[i];
          }
        }
      }
    }
  }

  /** A step that neither starts a call nor turns a loop. */
  predicate Plain(s: State, l: Label) {
    Step(s, l).Some? && (l.Switch? || l == Return || (l == Continue && !Top(s).pc.InChildren?))
  }

  /** All it does to the frames: one moves on, on the same side of its cleanup, or the innermost one ends. */
  ghost predicate Moves(s: State, s': State) {
    && s'.parent == s.parent && s'.children == s.children && s'.terminating == s.terminating
    && |s'.stack| <= |s.stack|
    && (|s'.stack| < |s.stack| ==> !Early(Top(s)) && s'.stack == s.stack[..|s.stack| - 1])
    && forall i :: 0 <= i < |s'.stack| ==>
         && s'.stack[i].fi == s.stack[i].fi && Early(s'.stack[i]) == Early(s.stack[i])
         && (s'.stack[i].pc.InChildren? && s'.stack[i].pc.last.Some? ==> s'.stack[i].pc == s.stack[i].pc)
  }

  lemma {:induction false} PcMoves(s: State, pc: Pc)
    requires s.stack != [] && Early(Top(s)) == Early(Top(s).(pc := pc)) && (pc.InChildren? ==> pc.last.None?)
    ensures Moves(s, SetPc(s, pc))
  {
  }

  lemma {:induction false} PlainMoves(s: State, l: Label)
    requires Plain(s, l)
    ensures Moves(s, Step(s, l).value)
  {
    match l
    case Switch(_) =>
    case Return =>
      PcMoves(s, if Top(s).pc == InPreTerm then InChildren(None) else if Top(s).pc == InCleanup
          then EarlyFree else LateFree);
    case Continue =>
      if Top(s).pc == EarlyFree {
        PcMoves(s, Top(FreeEarly(s)).pc);
      }
  }

  lemma {:induction false} MovesPast(s: State, s': State)
    requires Moves(s, s')
    ensures forall x :: Past(s', x) == Past(s, x)
  {
    if |s'.stack| == |s.stack| {
      SamePast(s, s');
    } else {
      PopPast(s, s');
    }
  }

  /** The innermost frame leaves its loop. */
  lemma {:induction false} LeavePast(s: State, s': State)
    requires FreedOnce(s) && s.stack != [] && s'.terminating == s.terminating && s'.stack == SetPc(s, InCleanup).stack
    ensures forall x :: Past(s', x) == (Past(s, x) || x == Top(s).fi)
  {
    var top := |s.stack| - 1;
    forall x
      ensures Past(s', x) == (Past(s, x) || x == Top(s).fi)
    {
      if x == Top(s).fi {
        assert forall i :: 0 <= i < top ==> s.stack[i].fi != s.stack[top].fi;
      } else {
        assert forall i :: 0 <= i < top ==> s'.stack[i] == s.stack[i];
        assert s'.stack[top].fi != x && s.stack[top].fi != x;
        if Past(s', x) {
          forall i | 0 <= i < |s.stack| && s.stack[i].fi == x
            ensures !Early(s.stack[i])
          {
            assert s'.stack[i] == s.stack[i];
          }
        }
      }
    }
  }

  lemma {:induction false} LinkedSame(c: map<Inst, seq<Inst>>, p: map<Inst, Inst>, s: State, s': State)
    requires Linked(c, p, s) && s'.parent == s.parent && s'.children == s.children && s.terminating <= s'.terminating
    requires forall x :: Past(s', x) == Past(s, x)
    requires forall i :: 0 <= i < |s'.stack| && s'.stack[i].pc.InChildren? && s'.stack[i].pc.last.Some? ==>
               s'.stack[i].pc.last.value in s'.terminating
    ensures Linked(c, p, s')
  {
  }

  lemma {:induction false} LinkedLeave(c: map<Inst, seq<Inst>>, p: map<Inst, Inst>, rank: map<Inst, nat>, s: State)
    requires Acyclic(c, p, rank) && FreedOnce(s) && Linked(c, p, s) && s.stack != [] && Top(s).pc.InChildren?
    ensures Linked(c, p, SetPc(Unlink(s, Top(s).fi), InCleanup))
  {
    var fi := Top(s).fi;
    var s' := SetPc(Unlink(s, fi), InCleanup);
    LeavePast(s, s');
    forall q, x | q in c && x in c[q]
      ensures x in s'.children[q] <==> !Past(s', x)
    {
      ChildIsBelow(c, p, rank, q, x);
      WithoutIn(s.children[q], fi, x);
    }
    forall q, x | q in c && x in s'.children[q]
      ensures x in c[q]
    {
      WithoutIn(s.children[q], fi, x);
    }
  }

  /** The lists stay right whatever is terminated when. */
  lemma {:induction false} LinkedStep(c: map<Inst, seq<Inst>>, p: map<Inst, Inst>, rank: map<Inst, nat>, s: State,
                                      l: Label)
    requires Acyclic(c, p, rank) && FreedOnce(s) && Linked(c, p, s) && Step(s, l).Some? && !l.Relink?
    ensures Linked(c, p, Step(s, l).value)
  {
    if l.Terminate? {
      BeginPast(s, l.fi, l.cause);
      LinkedSame(c, p, s, Begin(s, l.fi, l.cause));
    } else if Plain(s, l) {
      PlainMoves(s, l);
      MovesPast(s, Step(s, l).value);
      LinkedSame(c, p, s, Step(s, l).value);
    } else {
      LinkedLoop(c, p, rank, s);
    }
  }

  function List(s: State): seq<Inst>
    requires s.stack != []
  {
    if Top(s).fi in s.children then s.children[Top(s).fi] else []
  }

  /** The loop is left: without children, or because "a child FSM is stuck". */
  predicate Leaves(s: State)
    requires s.stack != [] && Top(s).pc.InChildren?
  {
    List(s) == [] || Top(s).pc.last == Some(List(s)[0])
  }

  lemma {:induction false} LinkedLoop(c: map<Inst, seq<Inst>>, p: map<Inst, Inst>, rank: map<Inst, nat>, s: State)
    requires Acyclic(c, p, rank) && FreedOnce(s) && Linked(c, p, s) && s.stack != [] && Top(s).pc.InChildren?
    ensures Linked(c, p, NextChild(s))
  {
    if Leaves(s) {
      LinkedLeave(c, p, rank, s);
    } else {
      var s1 := SetPc(s, InChildren(Some(List(s)[0])));
      SamePast(s, s1);
      BeginPast(s1, List(s)[0], ParentTerminated);
      LinkedSame(c, p, s, NextChild(s));
    }
  }

  // ---------------------------------------------------------------------------
  // When a loop gives up

  /** The first child in the list is not past its loop; if it was seen, it is on the stack below, before its cleanup. */
  lemma {:induction false} FirstChild(c: map<Inst, seq<Inst>>, p: map<Inst, Inst>, rank: map<Inst, nat>, s: State)
    returns (i: nat)
    requires Acyclic(c, p, rank) && FreedOnce(s) && Linked(c, p, s) && s.stack != [] && Top(s).pc.InChildren?
    requires List(s) != [] && List(s)[0] in s.terminating
    ensures i < |s.stack| - 1 && s.stack[i].fi == List(s)[0] && Early(s.stack[i]) && Below(c, Top(s).fi, s.stack[i].fi)
  {
    var x := List(s)[0];
    assert x in s.children[Top(s).fi];
    ChildIsBelow(c, p, rank, Top(s).fi, x);
    assert !Past(s, x);
    i :| 0 <= i < |s.stack| && s.stack[i].fi == x && Early(s.stack[i]);
  }

  /** It breaks off, at its next turn or the one after. */
  predicate GivesUp(s: State)
    requires s.stack != [] && Top(s).pc.InChildren?
  {
    var s1 := NextChild(s);
    Leaves(s) || (s1.stack != [] && Top(s1).pc.InChildren? && Top(s1).fi == Top(s).fi && Leaves(s1))
  }

  /** The first child is being terminated further out, and is not past its own loop. */
  ghost predicate FirstPending(s: State)
    requires s.stack != [] && List(s) != []
  {
    exists i :: 0 <= i < |s.stack| - 1 && s.stack[i].fi == List(s)[0] && Early(s.stack[i])
  }

  lemma {:induction false} GivesUpHere(c: map<Inst, seq<Inst>>, p: map<Inst, Inst>, rank: map<Inst, nat>, s: State)
    requires Acyclic(c, p, rank) && FreedOnce(s) && Linked(c, p, s) && s.stack != [] && Top(s).pc.InChildren?
    requires List(s) != []
    ensures GivesUp(s) <==> FirstPending(s)
  {
    var x, s1 := List(s)[0], NextChild(s);
    if x in s.terminating {
      var i := FirstChild(c, p, rank, s);
      if !Leaves(s) {
        assert s1 == SetPc(s, InChildren(Some(x)));
        assert List(s1) == List(s);
      }
    } else {
      assert !Leaves(s);
      assert s1.stack == SetPc(s, InChildren(Some(x))).stack + [Top(s1)] && Top(s1).pc == InPreTerm;
      forall i | 0 <= i < |s.stack| - 1
        ensures s.stack[i].fi != x
      {
        assert s.stack[i].fi in s.terminating;
      }
    }
  }

  lemma {:induction false} LinkedRun(enabled: bool, c: map<Inst, seq<Inst>>, p: map<Inst, Inst>, rank: map<Inst, nat>,
                                     run: seq<Label>)
    requires Acyclic(c, p, rank) && Run(Grown(enabled, c, p), run).Some?
    requires forall i :: 0 <= i < |run| ==> !run[i].Relink?
    ensures Inv(Run(Grown(enabled, c, p), run).value) && Linked(c, p, Run(Grown(enabled, c, p), run).value)
    decreases |run|
  {
    GrownInv(enabled, c, p);
    InvRun(Grown(enabled, c, p), run);
    if run == [] {
    } else {
      var n := |run| - 1;
      LinkedRun(enabled, c, p, rank, run[..n]);
      LinkedStep(c, p, rank, Run(Grown(enabled, c, p), run[..n]).value, run[n]);
    }
  }

  /** In every run that leaves the lists alone, a loop with children left breaks off exactly if the first of them is
      being terminated further out and has not reached its cleanup. */
  lemma {:induction false} GivesUpExactly(enabled: bool, c: map<Inst, seq<Inst>>, p: map<Inst, Inst>,
                                          rank: map<Inst, nat>, run: seq<Label>, s: State)
    requires Acyclic(c, p, rank) && Run(Grown(enabled, c, p), run) == Some(s)
    requires forall i :: 0 <= i < |run| ==> !run[i].Relink?
    requires s.stack != [] && Top(s).pc.InChildren? && List(s) != []
    ensures GivesUp(s) <==> FirstPending(s)
  {
    LinkedRun(enabled, c, p, rank, run);
    GivesUpHere(c, p, rank, s);
  }

  /** It never does if no early frame is under one of an instance above it. */
  lemma {:induction false} NeverGivesUp(c: map<Inst, seq<Inst>>, p: map<Inst, Inst>, rank: map<Inst, nat>, s: State,
                                        all: bool)
    requires Acyclic(c, p, rank) && FreedOnce(s) && Linked(c, p, s) && Ordered(c, s, all)
    requires s.stack != [] && Top(s).pc.InChildren? && Leaves(s)
    ensures List(s) == []
  {
    if List(s) != [] {
      assert s.stack[|s.stack| - 1].pc.last.Some?;
      var i := FirstChild(c, p, rank, s);
      assert false;
    }
  }

  // ---------------------------------------------------------------------------
  // The order on the stack

  lemma {:induction false} OrderedShrinks(c: map<Inst, seq<Inst>>, s: State, s': State, all: bool)
    requires Ordered(c, s, all) && |s'.stack| <= |s.stack|
    requires forall i :: 0 <= i < |s'.stack| ==>
               s'.stack[i].fi == s.stack[i].fi && (Early(s'.stack[i]) ==> Early(s.stack[i]))
    ensures Ordered(c, s', all)
  {
  }

  lemma {:induction false} OrderedPush(c: map<Inst, seq<Inst>>, s: State, fi: Inst, cause: Cause, all: bool)
    requires Ordered(c, s, all) && (fi !in s.terminating ==> NoneAbove(c, s.stack, fi, all))
    ensures Ordered(c, Begin(s, fi, cause), all)
  {
  }

  /** A child that is not terminated yet has nothing below it on the stack. */
  lemma {:induction false} ChildIsFree(c: map<Inst, seq<Inst>>, p: map<Inst, Inst>, rank: map<Inst, nat>, s: State,
                                       kid: Inst, all: bool)
    requires Acyclic(c, p, rank) && FreedOnce(s) && Ordered(c, s, all) && s.stack != []
    requires Top(s).fi in c && kid in c[Top(s).fi]
    ensures NoneAbove(c, s.stack, kid, all)
  {
    var fi := Top(s).fi;
    forall i | 0 <= i < |s.stack| && (all || Early(s.stack[i]))
      ensures !Below(c, kid, s.stack[i].fi)
    {
      BelowChild(c, p, rank, fi, kid, s.stack[i].fi);
    }
  }

  lemma {:induction false} OrderedLoop(c: map<Inst, seq<Inst>>, p: map<Inst, Inst>, rank: map<Inst, nat>, s: State,
                                       all: bool)
    requires Acyclic(c, p, rank) && FreedOnce(s) && Linked(c, p, s) && Ordered(c, s, all)
    requires s.stack != [] && Top(s).pc.InChildren?
    ensures Ordered(c, NextChild(s), all)
  {
    if Leaves(s) {
      OrderedShrinks(c, s, NextChild(s), all);
    } else {
      var kid := List(s)[0];
      var s1 := SetPc(s, InChildren(Some(kid)));
      OrderedShrinks(c, s, s1, all);
      SetPcFreed(s, InChildren(Some(kid)));
      assert kid in s.children[Top(s).fi];
      ChildIsFree(c, p, rank, s1, kid, all);
      OrderedPush(c, s1, kid, ParentTerminated, all);
    }
  }

  lemma {:induction false} OrderedStep(c: map<Inst, seq<Inst>>, p: map<Inst, Inst>, rank: map<Inst, nat>, s: State,
                                       l: Label, all: bool)
    requires Acyclic(c, p, rank) && FreedOnce(s) && Linked(c, p, s) && Ordered(c, s, all) && Step(s, l).Some?
    requires !l.Relink? && (l.Terminate? ==> NoneAbove(c, s.stack, l.fi, all))
    ensures Ordered(c, Step(s, l).value, all)
  {
    if l.Terminate? {
      OrderedPush(c, s, l.fi, l.cause, all);
    } else if Plain(s, l) {
      PlainMoves(s, l);
      OrderedShrinks(c, s, Step(s, l).value, all);
    } else {
      OrderedLoop(c, p, rank, s, all);
    }
  }

  // ---------------------------------------------------------------------------
  // Nobody is forgotten

  lemma {:induction false} PastDownLeave(c: map<Inst, seq<Inst>>, p: map<Inst, Inst>, rank: map<Inst, nat>, s: State)
    requires Acyclic(c, p, rank) && FreedOnce(s) && Linked(c, p, s) && PastDown(c, s)
    requires s.stack != [] && Top(s).pc.InChildren? && List(s) == []
    ensures PastDown(c, SetPc(Unlink(s, Top(s).fi), InCleanup))
  {
    var fi := Top(s).fi;
    var s' := SetPc(Unlink(s, fi), InCleanup);
    LeavePast(s, s');
    forall q, x | q in c && Past(s', q) && x in c[q]
      ensures Past(s', x)
    {
      if q == fi {
        assert x !in s.children[q];
      }
    }
  }

  lemma {:induction false} PastDownLoop(c: map<Inst, seq<Inst>>, p: map<Inst, Inst>, rank: map<Inst, nat>, s: State,
                                        all: bool)
    requires Acyclic(c, p, rank) && FreedOnce(s) && Linked(c, p, s) && Ordered(c, s, all) && PastDown(c, s)
    requires s.stack != [] && Top(s).pc.InChildren?
    ensures PastDown(c, NextChild(s))
  {
    if Leaves(s) {
      NeverGivesUp(c, p, rank, s, all);
      PastDownLeave(c, p, rank, s);
    } else {
      var s1 := SetPc(s, InChildren(Some(List(s)[0])));
      SamePast(s, s1);
      BeginPast(s1, List(s)[0], ParentTerminated);
    }
  }

  lemma {:induction false} PastDownStep(c: map<Inst, seq<Inst>>, p: map<Inst, Inst>, rank: map<Inst, nat>, s: State,
                                        l: Label, all: bool)
    requires Acyclic(c, p, rank) && FreedOnce(s) && Linked(c, p, s) && Ordered(c, s, all) && PastDown(c, s)
    requires Step(s, l).Some? && !l.Relink?
    ensures PastDown(c, Step(s, l).value)
  {
    if l.Terminate? {
      BeginPast(s, l.fi, l.cause);
    } else if Plain(s, l) {
      PlainMoves(s, l);
      MovesPast(s, Step(s, l).value);
    } else {
      PastDownLoop(c, p, rank, s, all);
    }
  }

  ghost predicate Kept(c: map<Inst, seq<Inst>>, p: map<Inst, Inst>, s: State, all: bool) {
    Inv(s) && Linked(c, p, s) && Ordered(c, s, all) && PastDown(c, s)
  }

  lemma {:induction false} KeptRun(enabled: bool, c: map<Inst, seq<Inst>>, p: map<Inst, Inst>, rank: map<Inst, nat>,
                                   run: seq<Label>, all: bool)
    requires Acyclic(c, p, rank) && Run(Grown(enabled, c, p), run).Some?
    requires Downward(c, Grown(enabled, c, p), run, all)
    ensures Kept(c, p, Run(Grown(enabled, c, p), run).value, all)
    decreases |run|
  {
    GrownInv(enabled, c, p);
    InvRun(Grown(enabled, c, p), run);
    if run == [] {
    } else {
      var n := |run| - 1;
      KeptRun(enabled, c, p, rank, run[..n], all);
      var s, l := Run(Grown(enabled, c, p), run[..n]).value, run[n];
      LinkedStep(c, p, rank, s, l);
      OrderedStep(c, p, rank, s, l, all);
      PastDownStep(c, p, rank, s, l, all);
    }
  }

  lemma {:induction false} DescendantPast(c: map<Inst, seq<Inst>>, s: State, a: Inst, x: Inst, n: nat)
    requires PastDown(c, s) && Past(s, a) && Generation(c, a, x, n)
    ensures Past(s, x)
    decreases n
  {
    if n == 0 {
    } else {
      var q :| q in c && x in c[q] && Generation(c, a, q, n - 1);
      DescendantPast(c, s, a, q, n - 1);
    }
  }

  /** Callbacks may terminate whatever they like, but nothing above an instance that is still before its cleanup: then
      everything below a terminated instance is terminated and freed when the calls are done. */
  lemma {:induction false} DescendantsFreed(enabled: bool, c: map<Inst, seq<Inst>>, p: map<Inst, Inst>,
                                            rank: map<Inst, nat>, run: seq<Label>, a: Inst, x: Inst)
    requires Acyclic(c, p, rank) && Run(Grown(enabled, c, p), run).Some?
    requires Downward(c, Grown(enabled, c, p), run, false) && Run(Grown(enabled, c, p), run).value.stack == []
    requires a in Run(Grown(enabled, c, p), run).value.terminating && Descendant(c, a, x)
    ensures x in Run(Grown(enabled, c, p), run).value.freed
  {
    KeptRun(enabled, c, p, rank, run, false);
    var s := Run(Grown(enabled, c, p), run).value;
    var n: nat :| Generation(c, a, x, n);
    DescendantPast(c, s, a, x, n);
  }

  // ---------------------------------------------------------------------------
  // Children before parents

  /** What was freed has all its children before it; a frame past its loop has its children freed. */
  ghost predicate FreedFirst(c: map<Inst, seq<Inst>>, s: State) {
    && (forall q, x :: q in c && x in c[q] && q in s.freed ==> Before(s.freed, x, q))
    && (forall i, x :: 0 <= i < |s.stack| && !Early(s.stack[i]) && s.stack[i].fi in c && x in c[s.stack[i].fi] ==>
          x in s.freed)
  }

  lemma BeforeMore(list: seq<Inst>, x: Inst, q: Inst, y: Inst)
    requires Before(list, x, q)
    ensures Before(list + [y], x, q)
  {
    var i, j :| 0 <= i < j < |list| && list[i] == x && list[j] == q;
    assert (list + [y])[i] == x && (list + [y])[j] == q;
  }

  lemma BeforeLast(list: seq<Inst>, x: Inst, q: Inst)
    requires x in list
    ensures Before(list + [q], x, q)
  {
    var i :| 0 <= i < |list| && list[i] == x;
    assert (list + [q])[i] == x && (list + [q])[|list|] == q;
  }

  lemma {:induction false} FirstSame(c: map<Inst, seq<Inst>>, s: State, s': State)
    requires FreedFirst(c, s) && s'.freed == s.freed
    requires forall i :: 0 <= i < |s'.stack| && !Early(s'.stack[i]) ==>
               i < |s.stack| && !Early(s.stack[i]) && s'.stack[i].fi == s.stack[i].fi
    ensures FreedFirst(c, s')
  {
  }

  lemma {:induction false} FirstFree(c: map<Inst, seq<Inst>>, s: State, s': State)
    requires FreedFirst(c, s) && s.stack != [] && !Early(Top(s)) && s'.freed == s.freed + [Top(s).fi]
    requires |s'.stack| <= |s.stack|
    requires forall i :: 0 <= i < |s'.stack| ==>
               s'.stack[i].fi == s.stack[i].fi && Early(s'.stack[i]) == Early(s.stack[i])
    ensures FreedFirst(c, s')
  {
    forall q, x | q in c && x in c[q] && q in s'.freed
      ensures Before(s'.freed, x, q)
    {
      if q in s.freed {
        BeforeMore(s.freed, x, q, Top(s).fi);
      } else {
        BeforeLast(s.freed, x, q);
      }
    }
  }

  lemma {:induction false} FirstLeave(c: map<Inst, seq<Inst>>, p: map<Inst, Inst>, rank: map<Inst, nat>, s: State)
    requires Acyclic(c, p, rank) && Kept(c, p, s, true) && FreedFirst(c, s)
    requires s.stack != [] && Top(s).pc.InChildren? && List(s) == []
    ensures FreedFirst(c, SetPc(Unlink(s, Top(s).fi), InCleanup))
  {
    var fi, top := Top(s).fi, |s.stack| - 1;
    var s' := SetPc(Unlink(s, fi), InCleanup);
    forall i, x | 0 <= i < |s'.stack| && !Early(s'.stack[i]) && s'.stack[i].fi in c && x in c[s'.stack[i].fi]
      ensures x in s'.freed
    {
      if i == top {
        ChildIsBelow(c, p, rank, fi, x);
        assert x !in s.children[fi];
        assert Past(s, x);
        assert forall j :: 0 <= j < top ==> s.stack[j].fi != x;
      } else {
        assert s'.stack[i] == s.stack[i];
      }
    }
  }

  lemma {:induction false} FirstLoop(c: map<Inst, seq<Inst>>, p: map<Inst, Inst>, rank: map<Inst, nat>, s: State)
    requires Acyclic(c, p, rank) && Kept(c, p, s, true) && FreedFirst(c, s) && s.stack != [] && Top(s).pc.InChildren?
    ensures FreedFirst(c, NextChild(s))
  {
    if Leaves(s) {
      NeverGivesUp(c, p, rank, s, true);
      FirstLeave(c, p, rank, s);
    } else {
      FirstSame(c, s, NextChild(s));
    }
  }

  lemma {:induction false} FirstPlain(c: map<Inst, seq<Inst>>, s: State, l: Label)
    requires FreedFirst(c, s) && Plain(s, l)
    ensures FreedFirst(c, Step(s, l).value)
  {
    var s' := Step(s, l).value;
    PlainMoves(s, l);
    if s'.freed == s.freed {
      FirstSame(c, s, s');
    } else {
      FirstFree(c, s, s');
    }
  }

  lemma {:induction false} FirstStep(c: map<Inst, seq<Inst>>, p: map<Inst, Inst>, rank: map<Inst, nat>, s: State,
                                     l: Label)
    requires Acyclic(c, p, rank) && Kept(c, p, s, true) && FreedFirst(c, s) && Step(s, l).Some? && !l.Relink?
    ensures FreedFirst(c, Step(s, l).value)
  {
    if l.Terminate? {
      FirstSame(c, s, Begin(s, l.fi, l.cause));
    } else if Plain(s, l) {
      FirstPlain(c, s, l);
    } else {
      FirstLoop(c, p, rank, s);
    }
  }

  /** If callbacks terminate nothing above any instance on the stack, every instance is freed after everything below
      it. */
  lemma {:induction false} ChildrenFreedFirst(enabled: bool, c: map<Inst, seq<Inst>>, p: map<Inst, Inst>,
                                              rank: map<Inst, nat>, run: seq<Label>)
    requires Acyclic(c, p, rank) && Run(Grown(enabled, c, p), run).Some?
    requires Downward(c, Grown(enabled, c, p), run, true)
    ensures FreedFirst(c, Run(Grown(enabled, c, p), run).value)
    decreases |run|
  {
    if run == [] {
    } else {
      var n := |run| - 1;
      ChildrenFreedFirst(enabled, c, p, rank, run[..n]);
      KeptRun(enabled, c, p, rank, run[..n], true);
      FirstStep(c, p, rank, Run(Grown(enabled, c, p), run[..n]).value, run[n]);
    }
  }
}
