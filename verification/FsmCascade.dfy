/** Termination of FSM instances in src/core/fsm.c as single steps, with callbacks that may do anything: terminate other
    instances, switch the safe-termination feature, rearrange the parent/child lists. */
module FsmCascade {
  import opened Bits

  type Inst = nat

  datatype Cause = ParentTerminated | OtherCause

  // ---------------------------------------------------------------------------
  // Deallocation: `osmo_fsm_inst_free` with `osmo_fsm_defer_free`

  /** The fsm_term_safely record: the depth of the cascade, the instances in `collect_ctx`, and everything released so
      far (by talloc_free, or by talloc_steal to the context set with osmo_fsm_set_dealloc_ctx). */
  datatype Dealloc = Dealloc(depth: nat, collected: seq<Inst>, released: seq<Inst>)

  /** In a cascade the instance is only collected. Outside of one it is released, and after it what was collected. */
  function Free(d: Dealloc, fi: Inst): Dealloc {
    if d.depth > 0 then d.(collected := d.collected + [fi])
    else d.(collected := [], released := d.released + [fi] + d.collected)
  }

  // ---------------------------------------------------------------------------
  // States

  /** Where a call of _osmo_fsm_inst_term is: in the pre_term callback, in the loop of _osmo_fsm_inst_term_children with
      the last child seen, in the cleanup callback, before the early free, in the callback of the parent's event, or
      before the late free. */
  datatype Pc = InPreTerm | InChildren(last: Option<Inst>) | InCleanup | EarlyFree | InNotify | LateFree

  /** A call of _osmo_fsm_inst_term. For the proof: whether it incremented the depth. */
  datatype Frame = Frame(fi: Inst, cause: Cause, pc: Pc, counted: bool)

  /** `freed` are the calls of osmo_fsm_inst_free. */
  datatype State = State(enabled: bool, dealloc: Dealloc, terminating: set<Inst>,
                         children: map<Inst, seq<Inst>>, parent: map<Inst, Inst>,
                         stack: seq<Frame>, freed: seq<Inst>)

  function Start(enabled: bool): State {
    State(enabled, Dealloc(0, [], []), {}, map[], map[], [], [])
  }

  function Top(s: State): Frame
    requires s.stack != []
  {
    s.stack[|s.stack| - 1]
  }

  function SetPc(s: State, pc: Pc): State
    requires s.stack != []
  {
    s.(stack := s.stack[|s.stack| - 1 := Top(s).(pc := pc)])
  }

  /** User code runs: outside of every termination, or in a callback of the innermost one. */
  predicate UserCode(s: State) {
    s.stack == [] || Top(s).pc == InPreTerm || Top(s).pc == InCleanup || Top(s).pc == InNotify
  }

  // ---------------------------------------------------------------------------
  // Steps

  datatype Label =
    | Terminate(fi: Inst, cause: Cause)
    | Switch(on: bool)
    | Relink(children: map<Inst, seq<Inst>>, parent: map<Inst, Inst>)
    | Return
    | Continue

  /** The beginning of _osmo_fsm_inst_term. */
  function Begin(s: State, fi: Inst, cause: Cause): State {
    if fi in s.terminating then s
    else
      var counted := s.enabled || s.dealloc.depth > 0;
      s.(terminating := s.terminating + {fi},
         dealloc := if counted then s.dealloc.(depth := s.dealloc.depth + 1) else s.dealloc,
         stack := s.stack + [Frame(fi, cause, InPreTerm, counted)])
  }

  /** "delete ourselves from the parent". */
  function Unlink(s: State, fi: Inst): State {
    if fi in s.parent && s.parent[fi] in s.children then
      var p := s.parent[fi];
      s.(children := s.children[p := Without(s.children[p], fi)])
    else s
  }

  function Without(list: seq<Inst>, fi: Inst): seq<Inst> {
    if list == [] then [] else (if list[0] == fi then [] else [list[0]]) + Without(list[1..], fi)
  }

  /** One turn of the loop in _osmo_fsm_inst_term_children, or its end. */
  function NextChild(s: State): State
    requires s.stack != [] && Top(s).pc.InChildren?
  {
    var fi := Top(s).fi;
    var list := if fi in s.children then s.children[fi] else [];
    if list == [] || Top(s).pc.last == Some(list[0]) then SetPc(Unlink(s, fi), InCleanup)
    else Begin(SetPc(s, InChildren(Some(list[0]))), list[0], ParentTerminated)
  }

  /** Early free, and on to the parent's event unless it would be dropped. */
  function FreeEarly(s: State): State
    requires s.stack != []
  {
    var fi := Top(s).fi;
    var s1 := if s.dealloc.depth > 0 then s else s.(dealloc := Free(s.dealloc, fi), freed := s.freed + [fi]);
    var notify := fi in s.parent && Top(s).cause != ParentTerminated && s.parent[fi] !in s.terminating;
    SetPc(s1, if notify then InNotify else LateFree)
  }

  /** Late free and return. */
  function FreeLate(s: State): State
    requires s.stack != []
  {
    var fi := Top(s).fi;
    var s1 := s.(stack := s.stack[..|s.stack| - 1]);
    if s.dealloc.depth == 0 then s1
    else s1.(dealloc := Free(s.dealloc.(depth := s.dealloc.depth - 1), fi), freed := s.freed + [fi])
  }

  function Step(s: State, l: Label): Option<State> {
    match l
    case Terminate(fi, cause) => if UserCode(s) && fi !in s.dealloc.released then Some(Begin(s, fi, cause)) else None
    case Switch(on) => if UserCode(s) then Some(s.(enabled := on)) else None
    case Relink(children, parent) => if UserCode(s) then Some(s.(children := children, parent := parent)) else None
    case Return =>
      if s.stack == [] then None
      else
        (match Top(s).pc
         case InPreTerm => Some(SetPc(s, InChildren(None)))
         case InCleanup => Some(SetPc(s, EarlyFree))
         case InNotify => Some(SetPc(s, LateFree))
         case _ => None)
    case Continue =>
      if s.stack == [] then None
      else
        (match Top(s).pc
         case InChildren(_) => Some(NextChild(s))
         case EarlyFree => Some(FreeEarly(s))
         case LateFree => Some(FreeLate(s))
         case _ => None)
  }

  /** The state after a whole run, if every step of it was possible. */
  function Run(s: State, run: seq<Label>): Option<State> {
    if run == [] then Some(s)
    else
      var before := Run(s, run[..|run| - 1]);
      if before == None then None else Step(before.value, run[|run| - 1])
  }

  // ---------------------------------------------------------------------------
  // The invariant

  function CountedFrames(stack: seq<Frame>): nat {
    if stack == [] then 0
    else CountedFrames(stack[..|stack| - 1]) + if stack[|stack| - 1].counted then 1 else 0
  }

  /** The depth is the number of counted frames, and every frame above a counted one is counted. */
  ghost predicate DepthKept(s: State) {
    && s.dealloc.depth == CountedFrames(s.stack)
    && forall i, j :: 0 <= i < j < |s.stack| && s.stack[i].counted ==> s.stack[j].counted
  }

  /** The frame's instance was already given to osmo_fsm_inst_free. */
  predicate GivenBack(f: Frame) {
    !f.counted && (f.pc == InNotify || f.pc == LateFree)
  }

  /** Every terminating instance is in exactly one place: the calls of osmo_fsm_inst_free, once, or a frame that has
      yet to make that call. */
  ghost predicate FreedOnce(s: State) {
    && (forall i, j :: 0 <= i < j < |s.freed| ==> s.freed[i] != s.freed[j])
    && (forall i, j :: 0 <= i < j < |s.stack| ==> s.stack[i].fi != s.stack[j].fi)
    && (forall i :: 0 <= i < |s.stack| ==>
       s.stack[i].fi in s.terminating && (s.stack[i].fi in s.freed <==> GivenBack(s.stack[i])))
    && (forall fi :: fi in s.freed ==> fi in s.terminating)
    && (forall fi :: fi in s.terminating ==> fi in s.freed || exists i :: 0 <= i < |s.stack| && s.stack[i].fi == fi)
  }

  /** What was freed is released or collected; nothing is collected outside of a cascade. */
  ghost predicate Accounted(s: State) {
    && multiset(s.dealloc.released) + multiset(s.dealloc.collected) == multiset(s.freed)
    && (s.dealloc.depth == 0 ==> s.dealloc.collected == [])
  }

  ghost predicate Inv(s: State) {
    DepthKept(s) && FreedOnce(s) && Accounted(s)
  }

  // ---------------------------------------------------------------------------
  // Depth

  lemma {:induction false} NoneCounted(stack: seq<Frame>)
    requires forall i :: 0 <= i < |stack| ==> !stack[i].counted
    ensures CountedFrames(stack) == 0
  {
    if stack == [] {
    } else {
      NoneCounted(stack[..|stack| - 1]);
    }
  }

  /** The innermost call tells from the depth whether it was counted. */
  lemma {:induction false} DepthTells(s: State)
    requires DepthKept(s) && s.stack != []
    ensures Top(s).counted <==> s.dealloc.depth > 0
  {
    if !Top(s).counted {
      NoneCounted(s.stack);
    }
  }

  lemma {:induction false} SetPcDepth(s: State, pc: Pc)
    requires DepthKept(s) && s.stack != []
    ensures DepthKept(SetPc(s, pc))
  {
    var stack, n := SetPc(s, pc).stack, |s.stack| - 1;
    assert stack[..n] == s.stack[..n];
    assert forall i :: 0 <= i <= n ==> stack[i].counted == s.stack[i].counted;
  }

  lemma {:induction false} BeginDepth(s: State, fi: Inst, cause: Cause)
    requires DepthKept(s)
    ensures DepthKept(Begin(s, fi, cause))
  {
    var s1 := Begin(s, fi, cause);
    if fi !in s.terminating {
      assert s1.stack[..|s1.stack| - 1] == s.stack;
      if exists i :: 0 <= i < |s.stack| && s.stack[i].counted {
        DepthTells(s);
      }
    }
  }

  lemma {:induction false} DepthStep(s: State, l: Label)
    requires DepthKept(s) && Step(s, l).Some?
    ensures DepthKept(Step(s, l).value)
  {
    match l
    case Terminate(fi, cause) => BeginDepth(s, fi, cause);
    case Switch(_) =>
    case Relink(_, _) =>
    case Return => SetPcDepth(s, if Top(s).pc == InPreTerm then InChildren(None) else if Top(s).pc == InCleanup
        then EarlyFree else LateFree);
    case Continue =>
      match Top(s).pc
      case InChildren(last) => ChildDepth(s);
      case EarlyFree => EarlyDepth(s);
      case LateFree =>
        DepthTells(s);
        assert CountedFrames(s.stack) == CountedFrames(s.stack[..|s.stack| - 1]) + if Top(s).counted then 1 else 0;
  }

  lemma {:induction false} ChildDepth(s: State)
    requires DepthKept(s) && s.stack != [] && Top(s).pc.InChildren?
    ensures DepthKept(NextChild(s))
  {
    var fi := Top(s).fi;
    var list := if fi in s.children then s.children[fi] else [];
    if list == [] || Top(s).pc.last == Some(list[0]) {
      SetPcDepth(Unlink(s, fi), InCleanup);
    } else {
      SetPcDepth(s, InChildren(Some(list[0])));
      BeginDepth(SetPc(s, InChildren(Some(list[0]))), list[0], ParentTerminated);
    }
  }

  lemma {:induction false} EarlyDepth(s: State)
    requires DepthKept(s) && s.stack != [] && Top(s).pc == EarlyFree
    ensures DepthKept(FreeEarly(s))
  {
    SetPcDepth(s, FreeEarly(s).stack[|s.stack| - 1].pc);
  }

  // ---------------------------------------------------------------------------
  // Frees

  lemma {:induction false} SetPcFreed(s: State, pc: Pc)
    requires FreedOnce(s) && s.stack != [] && GivenBack(Top(s)) == GivenBack(Top(s).(pc := pc))
    ensures FreedOnce(SetPc(s, pc))
  {
    var s1 := SetPc(s, pc);
    assert forall i :: 0 <= i < |s.stack| ==>
        s1.stack[i].fi == s.stack[i].fi && GivenBack(s1.stack[i]) == GivenBack(s.stack[i]);
    forall fi | fi in s1.terminating
      ensures fi in s1.freed || exists i :: 0 <= i < |s1.stack| && s1.stack[i].fi == fi
    {
      if fi !in s.freed {
        var i :| 0 <= i < |s.stack| && s.stack[i].fi == fi;
        assert s1.stack[i].fi == fi;
      }
    }
  }

  lemma {:induction false} BeginFreed(s: State, fi: Inst, cause: Cause)
    requires FreedOnce(s)
    ensures FreedOnce(Begin(s, fi, cause))
  {
    var s1 := Begin(s, fi, cause);
    if fi !in s.terminating {
      assert s1.stack[|s.stack|].fi == fi;
      forall x | x in s1.terminating
        ensures x in s1.freed || exists i :: 0 <= i < |s1.stack| && s1.stack[i].fi == x
      {
        if x != fi && x !in s.freed {
          var i :| 0 <= i < |s.stack| && s.stack[i].fi == x;
          assert s1.stack[i].fi == x;
        }
      }
    }
  }

  lemma {:induction false} EarlyFreed(s: State)
    requires DepthKept(s) && FreedOnce(s) && s.stack != [] && Top(s).pc == EarlyFree
    ensures FreedOnce(FreeEarly(s))
  {
    DepthTells(s);
    var s1 := FreeEarly(s);
    var pc := s1.stack[|s.stack| - 1].pc;
    if s.dealloc.depth > 0 {
      SetPcFreed(s, pc);
    } else {
      GivenBackNow(s, s1, pc);
    }
  }

  /** The innermost, uncounted call gives its instance to osmo_fsm_inst_free. */
  lemma {:induction false} GivenBackNow(s: State, s1: State, pc: Pc)
    requires FreedOnce(s) && s.stack != [] && !GivenBack(Top(s)) && GivenBack(Top(s).(pc := pc))
    requires s1.stack == SetPc(s, pc).stack && s1.freed == s.freed + [Top(s).fi] && s1.terminating == s.terminating
    ensures FreedOnce(s1)
  {
    forall fi | fi in s1.terminating
      ensures fi in s1.freed || exists i :: 0 <= i < |s1.stack| && s1.stack[i].fi == fi
    {
      if fi !in s.freed {
        var i :| 0 <= i < |s.stack| && s.stack[i].fi == fi;
        assert s1.stack[i].fi == fi;
      }
    }
  }

  lemma {:induction false} LateFreed(s: State)
    requires DepthKept(s) && FreedOnce(s) && s.stack != [] && Top(s).pc == LateFree
    ensures FreedOnce(FreeLate(s))
  {
    DepthTells(s);
    var s1, n := FreeLate(s), |s.stack| - 1;
    assert s1.freed == s.freed || s1.freed == s.freed + [Top(s).fi];
    forall fi | fi in s1.terminating
      ensures fi in s1.freed || exists i :: 0 <= i < |s1.stack| && s1.stack[i].fi == fi
    {
      if fi !in s.freed {
        var i :| 0 <= i < |s.stack| && s.stack[i].fi == fi;
        if i < n {
          assert s1.stack[i].fi == fi;
        }
      }
    }
  }

  lemma {:induction false} ChildFreed(s: State)
    requires FreedOnce(s) && s.stack != [] && Top(s).pc.InChildren?
    ensures FreedOnce(NextChild(s))
  {
    var fi := Top(s).fi;
    var list := if fi in s.children then s.children[fi] else [];
    if list == [] || Top(s).pc.last == Some(list[0]) {
      SetPcFreed(Unlink(s, fi), InCleanup);
    } else {
      SetPcFreed(s, InChildren(Some(list[0])));
      BeginFreed(SetPc(s, InChildren(Some(list[0]))), list[0], ParentTerminated);
    }
  }

  lemma {:induction false} FreedStep(s: State, l: Label)
    requires DepthKept(s) && FreedOnce(s) && Step(s, l).Some?
    ensures FreedOnce(Step(s, l).value)
  {
    match l
    case Terminate(fi, cause) => BeginFreed(s, fi, cause);
    case Switch(_) =>
    case Relink(_, _) =>
    case Return => SetPcFreed(s, if Top(s).pc == InPreTerm then InChildren(None) else if Top(s).pc == InCleanup
        then EarlyFree else LateFree);
    case Continue =>
      match Top(s).pc
      case InChildren(_) => ChildFreed(s);
      case EarlyFree => EarlyFreed(s);
      case LateFree => LateFreed(s);
  }

  lemma FreeAccounted(d: Dealloc, freed: seq<Inst>, fi: Inst)
    requires multiset(d.released) + multiset(d.collected) == multiset(freed)
    ensures var d' := Free(d, fi); multiset(d'.released) + multiset(d'.collected) == multiset(freed + [fi])
  {
  }

  lemma {:induction false} EarlyAccounted(s: State)
    requires s.stack != [] && Accounted(s)
    ensures Accounted(FreeEarly(s))
  {
    FreeAccounted(s.dealloc, s.freed, Top(s).fi);
  }

  lemma {:induction false} LateAccounted(s: State)
    requires s.stack != [] && Accounted(s)
    ensures Accounted(FreeLate(s))
  {
    if s.dealloc.depth > 0 {
      FreeAccounted(s.dealloc.(depth := s.dealloc.depth - 1), s.freed, Top(s).fi);
    }
  }

  /** Every other step frees nothing and leaves a cascade only if it was not in one. */
  lemma NothingFreed(s: State, l: Label)
    requires Step(s, l).Some? && (l == Continue ==> Top(s).pc.InChildren?)
    ensures var s' := Step(s, l).value;
            && s'.freed == s.freed && s'.dealloc.released == s.dealloc.released &&
               s'.dealloc.collected == s.dealloc.collected
            && (s'.dealloc.depth == 0 ==> s.dealloc.depth == 0)
  {
  }

  lemma {:induction false} AccountedStep(s: State, l: Label)
    requires Accounted(s) && Step(s, l).Some?
    ensures Accounted(Step(s, l).value)
  {
    if l != Continue || Top(s).pc.InChildren? {
      NothingFreed(s, l);
    } else if Top(s).pc == EarlyFree {
      EarlyAccounted(s);
    } else {
      LateAccounted(s);
    }
  }

  lemma {:induction false} InvStep(s: State, l: Label)
    requires Inv(s) && Step(s, l).Some?
    ensures Inv(Step(s, l).value)
  {
    DepthStep(s, l);
    FreedStep(s, l);
    AccountedStep(s, l);
  }

  lemma {:induction false} InvRun(s: State, run: seq<Label>)
    requires Inv(s) && Run(s, run).Some?
    ensures Inv(Run(s, run).value)
    decreases |run|
  {
    if run == [] {
    } else {
      InvRun(s, run[..|run| - 1]);
      InvStep(Run(s, run[..|run| - 1]).value, run[|run| - 1]);
    }
  }

  // ---------------------------------------------------------------------------
  // What it means, for every run and however the feature is switched

  /** The depth counts the counted calls, and whenever the calls begun since are done again it has the value it had. */
  lemma {:induction false} DepthRestored(enabled: bool, run: seq<Label>, more: seq<Label>)
    requires Run(Start(enabled), run).Some? && Run(Run(Start(enabled), run).value, more).Some?
    ensures var s := Run(Start(enabled), run).value;
            var s' := Run(s, more).value;
            && s.dealloc.depth == CountedFrames(s.stack)
            && (s'.stack == s.stack ==> s'.dealloc.depth == s.dealloc.depth)
  {
    InvRun(Start(enabled), run);
    InvRun(Run(Start(enabled), run).value, more);
  }

  /** When all calls are done, every terminated instance was given to osmo_fsm_inst_free exactly once, and exactly those
      were released. */
  lemma {:induction false} AllReleasedOnce(enabled: bool, run: seq<Label>)
    requires Run(Start(enabled), run).Some? && Run(Start(enabled), run).value.stack == []
    ensures var s := Run(Start(enabled), run).value;
            && s.dealloc.depth == 0 && s.dealloc.collected == []
            && (forall fi :: fi in s.terminating <==> multiset(s.freed)[fi] == 1)
            && (forall fi :: multiset(s.freed)[fi] <= 1)
            && multiset(s.dealloc.released) == multiset(s.freed)
  {
    InvRun(Start(enabled), run);
    var s := Run(Start(enabled), run).value;
    forall fi
      ensures multiset(s.freed)[fi] == if fi in s.terminating then 1 else 0
    {
      OnceOnly(s.freed, fi);
    }
  }

  lemma {:induction false} OnceOnly(list: seq<Inst>, fi: Inst)
    requires forall i, j :: 0 <= i < j < |list| ==> list[i] != list[j]
    ensures multiset(list)[fi] == if fi in list then 1 else 0
  {
    if list == [] {
    } else {
      var n := |list| - 1;
      OnceOnly(list[..n], fi);
      assert list == list[..n] + [list[n]];
    }
  }

  // ---------------------------------------------------------------------------
  // With the feature on throughout

  predicate NeverOff(run: seq<Label>) {
    forall i :: 0 <= i < |run| ==> run[i] != Switch(false)
  }

  ghost predicate AllCounted(s: State) {
    s.enabled && forall i :: 0 <= i < |s.stack| ==> s.stack[i].counted
  }

  /** A release happens only in the last step of the outermost call. */
  lemma {:induction false} ReleaseStep(s: State, l: Label)
    requires Inv(s) && AllCounted(s) && l != Switch(false) && Step(s, l).Some?
    ensures var s' := Step(s, l).value;
            AllCounted(s') && (s'.dealloc.released != s.dealloc.released ==> s'.stack == [])
  {
    if l != Continue || Top(s).pc.InChildren? {
      NothingFreed(s, l);
    } else {
      DepthTells(s);
      if Top(s).pc == LateFree && |s.stack| >= 2 {
        StillDeep(s.stack);
      }
    }
  }

  /** Below a call that is not the outermost there is another counted one. */
  lemma {:induction false} StillDeep(stack: seq<Frame>)
    requires |stack| >= 2 && forall i :: 0 <= i < |stack| ==> stack[i].counted
    ensures CountedFrames(stack) >= 2
  {
    var below := stack[..|stack| - 1];
    assert CountedFrames(below) == CountedFrames(below[..|below| - 1]) + 1;
  }

  lemma {:induction false} AllCountedRun(run: seq<Label>)
    requires Run(Start(true), run).Some? && NeverOff(run)
    ensures Inv(Run(Start(true), run).value) && AllCounted(Run(Start(true), run).value)
    decreases |run|
  {
    InvRun(Start(true), run);
    if run == [] {
    } else {
      AllCountedRun(run[..|run| - 1]);
      InvRun(Start(true), run[..|run| - 1]);
      ReleaseStep(Run(Start(true), run[..|run| - 1]).value, run[|run| - 1]);
    }
  }

  /** Nothing is released before the depth is 0 again; no call ever works on a released instance. */
  lemma {:induction false} SafeTermination(run: seq<Label>, l: Label)
    requires Run(Start(true), run).Some? && NeverOff(run + [l]) && Step(Run(Start(true), run).value, l).Some?
    ensures var s := Run(Start(true), run).value;
            var s' := Step(s, l).value;
            && (s'.dealloc.released != s.dealloc.released ==> s'.stack == [] && s'.dealloc.depth == 0)
            && (forall i :: 0 <= i < |s'.stack| ==> s'.stack[i].fi !in s'.dealloc.released)
  {
    assert run == (run + [l])[..|run|];
    assert (run + [l])[|run|] == l;
    AllCountedRun(run);
    var s := Run(Start(true), run).value;
    ReleaseStep(s, l);
    InvStep(s, l);
    var s' := Step(s, l).value;
    forall i | 0 <= i < |s'.stack|
      ensures s'.stack[i].fi !in s'.dealloc.released
    {
      var fi := s'.stack[i].fi;
      assert fi !in multiset(s'.freed);
      assert multiset(s'.dealloc.released) <= multiset(s'.freed);
      assert fi !in multiset(s'.dealloc.released);
    }
  }
}
