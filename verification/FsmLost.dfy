/** What a termination of src/core/fsm.c loses when a callback of an instance terminates its parent too early: the loop
    of the parent meets the child that is being terminated a second time, and gives up on the others. */
module FsmLost {
  import opened Bits
  import opened FsmCascade
  import opened FsmForest
  import opened FsmQuiet
  import opened FsmTerm

  /** Instance 2 is terminated, and its pre_term callback terminates its parent 1: the loop of 1 gives up, and 1
      ends. */
  lemma {:induction false} ParentGone(start: State) returns (run: seq<Label>, s: State)
    requires start == Grown(true, map[1 := [2, 3], 2 := [], 3 := []], map[2 := 1, 3 := 1])
    ensures Run(start, run) == Some(s) && s.children == start.children && s.parent == start.parent
    ensures s.dealloc == Dealloc(1, [1], []) && s.terminating == {1, 2} && s.freed == [1]
    ensures s.stack == [Frame(2, OtherCause, InPreTerm, true)]
  {
    var s1 := Begin(start, 2, OtherCause);
    var s2 := Begin(s1, 1, OtherCause);
    RunOne(start, Terminate(2, OtherCause));
    OneMore(start, [Terminate(2, OtherCause)], s1, Terminate(1, OtherCause), s2);
    var first := [Terminate(2, OtherCause)] + [Terminate(1, OtherCause)];
    var middle, s3 := GivesUp(s2);
    var last;
    last, s := FinishRun(s3);
    RunAppend(s2, middle, last);
    RunAppend(start, first, middle + last);
    run := first + (middle + last);
  }

  lemma {:induction false} GivesUp(s: State) returns (run: seq<Label>, s': State)
    requires s.stack != [] && Top(s).pc == InPreTerm && 2 in s.terminating
    requires Top(s).fi in s.children && s.children[Top(s).fi] == [2, 3]
    ensures Run(s, run) == Some(s') && s' == s.(stack := s'.stack) && s'.stack == SetPc(s, InChildren(Some(2))).stack
    ensures Top(s').pc.InChildren? && Leaves(s')
  {
    var s1 := SetPc(s, InChildren(None));
    s' := SetPc(s1, InChildren(Some(2)));
    RunOne(s, Return);
    OneMore(s, [Return], s1, Continue, s');
    run := [Return] + [Continue];
  }

  /** Then 2 ends as if nothing had happened. */
  lemma {:induction false} ChildEnds(s: State) returns (run: seq<Label>, s': State)
    requires s.children == map[1 := [2, 3], 2 := [], 3 := []] && s.parent == map[2 := 1, 3 := 1]
    requires s.dealloc == Dealloc(1, [1], []) && s.terminating == {1, 2} && s.freed == [1]
    requires s.stack == [Frame(2, OtherCause, InPreTerm, true)]
    ensures Run(s, run) == Some(s') && s'.stack == [] && s'.freed == [1, 2] && s'.terminating == {1, 2}
  {
    var s1 := SetPc(s, InChildren(None));
    RunOne(s, Return);
    var rest;
    rest, s' := FinishRun(s1);
    RunAppend(s, [Return], rest);
    run := [Return] + rest;
  }

  /** All in all 1 and 2 are freed, and 3, a child of 1, is not even terminated. */
  lemma {:induction false} ChildLost() returns (c: map<Inst, seq<Inst>>, p: map<Inst, Inst>, rank: map<Inst, nat>,
                                                run: seq<Label>, s: State)
    ensures Acyclic(c, p, rank) && Run(Grown(true, c, p), run) == Some(s) && s.stack == []
    ensures s.freed == [1, 2] && Below(c, 1, 3) && 3 !in s.terminating
  {
    c, p, rank := map[1 := [2, 3], 2 := [], 3 := []], map[2 := 1, 3 := 1], map[1 := 1, 2 := 0, 3 := 0];
    assert Ranked(c, p, rank, 1, c[1][0]) && Ranked(c, p, rank, 1, c[1][1]);
    ChildIsBelow(c, p, rank, 1, 3);
    var first, half := ParentGone(Grown(true, c, p));
    var second;
    second, s := ChildEnds(half);
    run := first + second;
    RunAppend(Grown(true, c, p), first, second);
  }
}
