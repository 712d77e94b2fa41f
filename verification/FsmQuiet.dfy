/** Callbacks that only return: the steps of FsmCascade then do what the recursion of FsmTerm does. */
module FsmQuiet {
  import opened Bits
  import opened FsmCascade
  import opened FsmForest
  import opened FsmTerm

  predicate QuietSteps(run: seq<Label>) {
    forall i :: 0 <= i < |run| ==> run[i] == Return || run[i] == Continue
  }

  /** One termination, and callbacks that only return. */
  predicate Quiet(run: seq<Label>, fi: Inst, cause: Cause) {
    run != [] && run[0] == Terminate(fi, cause) && QuietSteps(run[1..])
  }

  /** The state as one of FsmTerm.Instances. What happened to the events is not part of the steps. */
  function Shot(s: State, events: seq<(Inst, Inst)>): Snapshot {
    Snapshot(s.children, s.parent, s.terminating, s.enabled, s.dealloc, s.freed, s.freed, events)
  }

  // ---------------------------------------------------------------------------
  // Runs

  lemma {:induction false} OneMore(s: State, run: seq<Label>, before: State, l: Label, after: State)
    requires Run(s, run) == Some(before) && Step(before, l) == Some(after)
    ensures Run(s, run + [l]) == Some(after)
  {
    assert (run + [l])[..|run|] == run;
  }

  lemma {:induction false} RunAppend(s: State, first: seq<Label>, second: seq<Label>)
    requires Run(s, first).Some?
    ensures Run(s, first + second) == Run(Run(s, first).value, second)
    decreases |second|
  {
    if second == [] {
      assert first + second == first;
    } else {
      var n := |second| - 1;
      RunAppend(s, first, second[..n]);
      assert (first + second)[..|first + second| - 1] == first + second[..n];
    }
  }

  // ---------------------------------------------------------------------------
  // The callbacks of a run

  datatype Call = PreTermOf(fi: Inst) | CleanupOf(fi: Inst) | EventTo(parent: Inst, fi: Inst)

  /** The callback that returns with this step. */
  function CallOf(s: State, l: Label): seq<Call> {
    if l != Return || s.stack == [] then []
    else
      var fi := Top(s).fi;
      match Top(s).pc
      case InPreTerm => [PreTermOf(fi)]
      case InCleanup => [CleanupOf(fi)]
      case InNotify => if fi in s.parent then [EventTo(s.parent[fi], fi)] else []
      case _ => []
  }

  function Calls(s: State, run: seq<Label>): seq<Call>
    requires Run(s, run).Some?
  {
    if run == [] then []
    else
      var front := run[..|run| - 1];
      Calls(s, front) + CallOf(Run(s, front).value, run[|run| - 1])
  }

  /** All callbacks of the termination of a tree: pre_term before the children, cleanup after them. */
  function TreeCalls(t: Tree, event: seq<Call>): seq<Call>
    decreases t, |t.kids| + 1
  {
    [PreTermOf(t.id)] + KidsCalls(t, |t.kids|) + ([CleanupOf(t.id)] + event)
  }

  function KidsCalls(t: Tree, n: nat): seq<Call>
    requires n <= |t.kids|
    decreases t, n
  {
    if n == 0 then [] else KidsCalls(t, n - 1) + TreeCalls(t.kids[n - 1], [])
  }

  /** The event to the parent, if there is one. */
  function Event(e: seq<(Inst, Inst)>): seq<Call> {
    if e == [] then [] else [EventTo(e[0].0, e[0].1)]
  }

  lemma {:induction false} CallsAppend(s: State, first: seq<Label>, second: seq<Label>)
    requires Run(s, first).Some? && Run(Run(s, first).value, second).Some?
    ensures Run(s, first + second) == Run(Run(s, first).value, second)
    ensures Calls(s, first + second) == Calls(s, first) + Calls(Run(s, first).value, second)
    decreases |second|
  {
    RunAppend(s, first, second);
    if second == [] {
      assert first + second == first;
      NothingAfter(Calls(s, first));
    } else {
      var n := |second| - 1;
      var s1 := Run(s, first).value;
      CallsAppend(s, first, second[..n]);
      assert (first + second)[..|first + second| - 1] == first + second[..n];
      Regroup(Calls(s, first), Calls(s1, second[..n]), CallOf(Run(s1, second[..n]).value, second[n]));
    }
  }

  lemma NothingAfter(a: seq<Call>)
    ensures a + [] == a
  {
  }

  lemma Regroup(a: seq<Call>, b: seq<Call>, c: seq<Call>)
    ensures a + b + c == a + (b + c)
  {
  }

  /** The quiet run leads from one state to the other, through these callbacks. */
  ghost predicate Reaches(s: State, run: seq<Label>, calls: seq<Call>, s': State) {
    QuietSteps(run) && Run(s, run) == Some(s') && Calls(s, run) == calls
  }

  lemma {:induction false} ReachesOne(s: State, l: Label, s': State)
    requires (l == Return || l == Continue) && Step(s, l) == Some(s')
    ensures Reaches(s, [l], CallOf(s, l), s')
  {
    RunOne(s, l);
    assert [l][..0] == [];
    NothingBefore(CallOf(s, l));
  }

  lemma NothingBefore(a: seq<Call>)
    ensures [] + a == a
  {
  }

  lemma {:induction false} RunOne(s: State, l: Label)
    ensures Run(s, [l]) == Step(s, l)
  {
    assert [l][..0] == [];
  }

  lemma {:induction false} ReachesMore(s: State, a: seq<Label>, x: seq<Call>, s1: State, b: seq<Label>, y: seq<Call>,
                                       s2: State)
    requires Reaches(s, a, x, s1) && Reaches(s1, b, y, s2)
    ensures Reaches(s, a + b, x + y, s2)
  {
    CallsAppend(s, a, b);
  }

  /** The same when nothing is called before, or after. */
  lemma {:induction false} ReachesAfter(s: State, a: seq<Label>, s1: State, b: seq<Label>, y: seq<Call>, s2: State)
    requires Reaches(s, a, [], s1) && Reaches(s1, b, y, s2)
    ensures Reaches(s, a + b, y, s2)
  {
    ReachesMore(s, a, [], s1, b, y, s2);
    NothingBefore(y);
  }

  lemma {:induction false} ReachesBefore(s: State, a: seq<Label>, x: seq<Call>, s1: State, b: seq<Label>, s2: State)
    requires Reaches(s, a, x, s1) && Reaches(s1, b, [], s2)
    ensures Reaches(s, a + b, x, s2)
  {
    ReachesMore(s, a, x, s1, b, [], s2);
    NothingAfter(x);
  }

  // ---------------------------------------------------------------------------
  // A run

  /** From the end of the loop to before the early free. */
  lemma {:induction false} CleanupRun(s: State) returns (run: seq<Label>)
    requires s.stack != [] && Top(s).pc.InChildren? && Leaves(s)
    ensures Reaches(s, run, [CleanupOf(Top(s).fi)], SetPc(Unlink(s, Top(s).fi), EarlyFree))
  {
    var s1 := SetPc(Unlink(s, Top(s).fi), InCleanup);
    ReachesOne(s, Continue, s1);
    ReachesOne(s1, Return, SetPc(s1, EarlyFree));
    assert SetPc(s1, EarlyFree).stack == SetPc(s, EarlyFree).stack;
    ReachesAfter(s, [Continue], s1, [Return], [CleanupOf(Top(s).fi)], SetPc(s1, EarlyFree));
    run := [Continue] + [Return];
  }

  /** The parent's event, for the innermost call. */
  function Told(s: State): seq<Call>
    requires s.stack != []
  {
    Event(Events(Shot(s, []), Top(s).fi, Top(s).cause))
  }

  /** From there to before the late free. */
  lemma {:induction false} NotifyRun(s: State) returns (run: seq<Label>)
    requires s.stack != [] && Top(s).pc == EarlyFree
    ensures Reaches(s, run, Told(s), SetPc(FreeEarly(s), LateFree))
  {
    var s1 := FreeEarly(s);
    ReachesOne(s, Continue, s1);
    run := [Continue];
    if Top(s1).pc == InNotify {
      ReachesOne(s1, Return, SetPc(s1, LateFree));
      ReachesAfter(s, run, s1, [Return], CallOf(s1, Return), SetPc(s1, LateFree));
      run := run + [Return];
    } else {
      assert SetPc(s1, LateFree).stack == s1.stack;
    }
  }

  /** From there to the end of the call. */
  lemma {:induction false} FreeRun(s: State) returns (run: seq<Label>, s': State)
    requires s.stack != [] && Top(s).pc == EarlyFree
    ensures Reaches(s, run, Told(s), s')
    ensures s' == s.(stack := s.stack[..|s.stack| - 1], freed := s.freed + [Top(s).fi],
                     dealloc := Left(s.dealloc, Top(s).fi))
  {
    var s1 := SetPc(FreeEarly(s), LateFree);
    run := NotifyRun(s);
    s' := FreeLate(s1);
    ReachesOne(s1, Continue, s');
    ReachesBefore(s, run, Told(s), s1, [Continue], s');
    run := run + [Continue];
    assert s'.stack == s.stack[..|s.stack| - 1];
  }

  /** After the children: cleanup, the frees, the parent's event. */
  lemma {:induction false} FinishRun(s: State) returns (run: seq<Label>, s': State)
    requires s.stack != [] && Top(s).pc.InChildren? && Leaves(s)
    ensures Reaches(s, run, [CleanupOf(Top(s).fi)] + Told(s), s')
    ensures s' == s.(children := Detached(s.children, s.parent, Top(s).fi), stack := s.stack[..|s.stack| - 1],
                     freed := s.freed + [Top(s).fi], dealloc := Left(s.dealloc, Top(s).fi))
  {
    var s1 := SetPc(Unlink(s, Top(s).fi), EarlyFree);
    var first := CleanupRun(s);
    var last;
    last, s' := FreeRun(s1);
    ReachesMore(s, first, [CleanupOf(Top(s).fi)], s1, last, Told(s), s');
    run := first + last;
    assert s1.stack[..|s.stack| - 1] == s.stack[..|s.stack| - 1];
  }

  /** The innermost call is in its loop with `n` children gone since `s`. */
  ghost predicate InLoop(s: State, s': State, t: Tree, n: nat)
    requires n <= |t.kids|
  {
    && s.stack != [] && Top(s).fi == t.id && Top(s).pc == InChildren(None)
    && s'.stack == SetPc(s, InChildren(if n == 0 then None else Some(t.kids[n - 1].id))).stack
    && KidsIntact(Shot(s, []), t) && KidsGone(Shot(s, []), Shot(s', []), t, n)
  }

  /** The next turn begins to terminate the next child. */
  lemma {:induction false} NextTurn(s: State, s': State, t: Tree, n: nat)
    requires n < |t.kids| && InLoop(s, s', t, n)
    ensures var s1 := SetPc(s', InChildren(Some(t.kids[n].id)));
            && Reaches(s', [Continue], [], Begin(s1, t.kids[n].id, ParentTerminated))
            && s1.stack == SetPc(s, InChildren(Some(t.kids[n].id))).stack
            && Intact(Shot(s1, []), t.kids[n]) && (s1.dealloc.depth == 0 ==> s1.dealloc.collected == [])
  {
    NextKid(Shot(s, []), Shot(s', []), t, n);
    ReachesOne(s', Continue, NextChild(s'));
  }

  /** The first `n` children of the innermost call. */
  lemma {:induction false} KidsRun(s: State, t: Tree, n: nat) returns (run: seq<Label>, s': State)
    requires n <= |t.kids| && InLoop(s, s, t, 0)
    ensures Reaches(s, run, KidsCalls(t, n), s') && InLoop(s, s', t, n)
    decreases t, 0, n
  {
    if n == 0 {
      run, s' := [], s;
    } else {
      var first, s1 := KidsRun(s, t, n - 1);
      var rest;
      rest, s' := KidRun(s, s1, t, n - 1);
      ReachesMore(s, first, KidsCalls(t, n - 1), s1, rest, TreeCalls(t.kids[n - 1], []), s');
      run := first + rest;
    }
  }

  lemma {:induction false} KidRun(s: State, s1: State, t: Tree, n: nat) returns (run: seq<Label>, s': State)
    requires n < |t.kids| && InLoop(s, s1, t, n)
    ensures Reaches(s1, run, TreeCalls(t.kids[n], []), s') && InLoop(s, s', t, n + 1)
    decreases t, 0, 0
  {
    NextTurn(s, s1, t, n);
    var kid := t.kids[n];
    var s2 := SetPc(s1, InChildren(Some(kid.id)));
    var rest;
    rest, s' := TreeRun(s2, kid, ParentTerminated);
    ReachesAfter(s1, [Continue], Begin(s2, kid.id, ParentTerminated), rest, TreeCalls(kid, []), s');
    run := [Continue] + rest;
    KidsGoneMore(Shot(s, []), Shot(s1, []), Shot(s', []), t, n);
  }

  /** The call reaches its loop. */
  lemma {:induction false} LoopRun(s: State, t: Tree, cause: Cause) returns (s': State)
    requires Intact(Shot(s, []), t) && (s.dealloc.depth == 0 ==> s.dealloc.collected == [])
    ensures Reaches(Begin(s, t.id, cause), [Return], [PreTermOf(t.id)], s') && InLoop(s', s', t, 0)
    ensures s'.stack[..|s'.stack| - 1] == s.stack && Top(s').cause == cause
    ensures Shot(s', []) == Shot(s, []).(terminating := s.terminating + {t.id},
                                         dealloc := Entered(s.enabled, s.dealloc))
  {
    RootIn(t);
    KidsReady(Shot(s, []), t);
    var s0 := Begin(s, t.id, cause);
    s' := SetPc(s0, InChildren(None));
    ReachesOne(s0, Return, s');
    KidsGoneNone(Shot(s', []), t);
  }

  /** The call leaves its loop and ends. */
  lemma {:induction false} EndRun(s: State, s1: State, t: Tree) returns (run: seq<Label>, s': State)
    requires InLoop(s, s1, t, |t.kids|)
    ensures s1.stack != [] && Reaches(s1, run, [CleanupOf(t.id)] + Told(s1), s')
    ensures s' == s1.(children := Detached(s1.children, s1.parent, t.id), stack := s.stack[..|s.stack| - 1],
                      freed := s1.freed + [t.id], dealloc := Left(s1.dealloc, t.id))
  {
    NextKid(Shot(s, []), Shot(s1, []), t, |t.kids|);
    run, s' := FinishRun(s1);
    assert s1.stack[..|s.stack| - 1] == s.stack[..|s.stack| - 1];
  }

  /** Whether the parent gets its event does not depend on what is below. */
  lemma {:induction false} SameEvents(s: Snapshot, s1: Snapshot, t: Tree, cause: Cause)
    requires var s0 := s.(terminating := s.terminating + {t.id}, dealloc := Entered(s.enabled, s.dealloc));
             Intact(s, t) && KidsGone(s0, s1, t, |t.kids|)
    ensures Events(s1, t.id, cause) == Events(s, t.id, cause)
  {
    RootIn(t);
  }

  /** A whole call. */
  lemma {:induction false} TreeRun(s: State, t: Tree, cause: Cause) returns (run: seq<Label>, s': State)
    requires Intact(Shot(s, []), t) && (s.dealloc.depth == 0 ==> s.dealloc.collected == [])
    ensures Reaches(Begin(s, t.id, cause), run, TreeCalls(t, Event(Events(Shot(s, []), t.id, cause))), s')
    ensures s'.stack == s.stack && TreeGone(Shot(s, []), Shot(s', Events(Shot(s, []), t.id, cause)), t, cause)
    decreases t, 1
  {
    var s0 := Begin(s, t.id, cause);
    var s1 := LoopRun(s, t, cause);
    var middle, s2 := KidsRun(s1, t, |t.kids|);
    var last;
    last, s' := EndRun(s1, s2, t);
    SameEvents(Shot(s, []), Shot(s2, []), t, cause);
    var pre, kids, post := [PreTermOf(t.id)], KidsCalls(t, |t.kids|), [CleanupOf(t.id)] + Told(s2);
    ReachesMore(s0, [Return], pre, s1, middle, kids, s2);
    ReachesMore(s0, [Return] + middle, pre + kids, s2, last, post, s');
    run := [Return] + middle + last;
    WholeTree(Shot(s, []), Shot(s2, []), Shot(s', Events(Shot(s, []), t.id, cause)), t, cause);
  }

  // ---------------------------------------------------------------------------
  // The only one

  /** In every state at most one of the two steps is possible. */
  lemma OneWay(s: State, k: Label, l: Label)
    requires (k == Return || k == Continue) && (l == Return || l == Continue) && Step(s, k).Some? && Step(s, l).Some?
    ensures k == l
  {
  }

  /** Two quiet runs go the same way. */
  lemma {:induction false} SameWay(s: State, a: seq<Label>, b: seq<Label>, n: nat)
    requires QuietSteps(a) && QuietSteps(b) && Run(s, a).Some? && Run(s, b).Some? && n <= |a| && n <= |b|
    ensures a[..n] == b[..n]
    decreases n
  {
    if n == 0 {
    } else {
      SameWay(s, a, b, n - 1);
      NextStep(s, a, n);
      NextStep(s, b, n);
      OneWay(Run(s, a[..n - 1]).value, a[n - 1], b[n - 1]);
      PrefixMore(a, b, n);
    }
  }

  lemma PrefixMore(a: seq<Label>, b: seq<Label>, n: nat)
    requires 0 < n <= |a| && n <= |b| && a[..n - 1] == b[..n - 1] && a[n - 1] == b[n - 1]
    ensures a[..n] == b[..n]
  {
    assert a[..n] == a[..n - 1] + [a[n - 1]] && b[..n] == b[..n - 1] + [b[n - 1]];
  }

  /** The step of a run at `n - 1` is possible there. */
  lemma {:induction false} NextStep(s: State, run: seq<Label>, n: nat)
    requires Run(s, run).Some? && 0 < n <= |run|
    ensures Run(s, run[..n - 1]).Some? && Step(Run(s, run[..n - 1]).value, run[n - 1]).Some?
  {
    RunPrefix(s, run, n);
    assert run[..n][..n - 1] == run[..n - 1];
  }

  lemma {:induction false} RunPrefix(s: State, run: seq<Label>, n: nat)
    requires Run(s, run).Some? && n <= |run|
    ensures Run(s, run[..n]).Some?
    decreases |run|
  {
    if n == |run| {
      assert run[..n] == run;
    } else {
      RunPrefix(s, run[..|run| - 1], n);
      assert run[..|run| - 1][..n] == run[..n];
    }
  }

  /** A quiet run that ends all calls cannot go on. */
  lemma {:induction false} NoLonger(s: State, a: seq<Label>, b: seq<Label>)
    requires QuietSteps(a) && QuietSteps(b) && Run(s, a).Some? && Run(s, b).Some? && Run(s, a).value.stack == []
    ensures |b| <= |a|
  {
    if |b| > |a| {
      SameWay(s, a, b, |a|);
      assert a[..|a|] == a;
      NextStep(s, b, |a| + 1);
    }
  }

  lemma {:induction false} SameEnd(s: State, a: seq<Label>, b: seq<Label>)
    requires QuietSteps(a) && QuietSteps(b) && Run(s, a).Some? && Run(s, b).Some?
    requires Run(s, a).value.stack == [] && Run(s, b).value.stack == []
    ensures a == b
  {
    NoLonger(s, a, b);
    NoLonger(s, b, a);
    SameWay(s, a, b, |a|);
    assert a[..|a|] == a && b[..|b|] == b;
  }

  predicate Ends(s: State, run: seq<Label>) {
    Run(s, run).Some? && Run(s, run).value.stack == []
  }

  /** Nothing returns with the first step. */
  lemma {:induction false} FirstStep(s: State, l: Label, later: seq<Call>)
    requires l.Terminate? && Run(s, [l]).Some?
    ensures Calls(s, [l]) + later == later
  {
    assert [l][..0] == [];
    NothingBefore([]);
    NothingBefore(later);
  }

  /** A termination whose callbacks do not interfere ends, step by step, in one way only, and as the recursive one does:
      everything below the instance is freed in post-order and released in the same order, the lists are cut, and
      pre_term, cleanup and the one event are called in their order. */
  lemma {:induction false} QuietTermination(enabled: bool, c: map<Inst, seq<Inst>>, p: map<Inst, Inst>,
                                            rank: map<Inst, nat>, fi: Inst, cause: Cause)
    returns (t: Tree, run: seq<Label>, s: State)
    requires Acyclic(c, p, rank) && fi in c && (fi in p ==> p[fi] in c && fi in c[p[fi]])
    ensures t.id == fi && Matches(c, p, t) && Quiet(run, fi, cause) && Run(Grown(enabled, c, p), run) == Some(s)
    ensures s.stack == [] && s.freed == PostOrder(t) && s.dealloc == FreedTree(enabled, Dealloc(0, [], []), t)
    ensures TreeCut(c, s.children, p, t) && forall x :: x in s.terminating <==> x in PostOrder(t)
    ensures Calls(Grown(enabled, c, p), run) ==
            TreeCalls(t, if fi in p && cause != ParentTerminated then [EventTo(p[fi], fi)] else [])
    ensures forall other :: Quiet(other, fi, cause) && Ends(Grown(enabled, c, p), other) ==> other == run
  {
    var start := Grown(enabled, c, p);
    t := IntactTree(c, p, rank, fi, Shot(start, []));
    var steps;
    steps, s := TreeRun(start, t, cause);
    var begun := Begin(start, fi, cause);
    RunOne(start, Terminate(fi, cause));
    CallsAppend(start, [Terminate(fi, cause)], steps);
    FirstStep(start, Terminate(fi, cause), Calls(begun, steps));
    run := [Terminate(fi, cause)] + steps;
    assert run[1..] == steps;
    forall other | Quiet(other, fi, cause) && Ends(start, other)
      ensures other == run
    {
      RunPrefix(start, other, 1);
      assert other == [other[0]] + other[1..] && other[..1] == [other[0]];
      RunAppend(start, [other[0]], other[1..]);
      SameEnd(begun, other[1..], steps);
    }
  }
}
