/** What osmo_it_q_flush of src/core/it_q.c does among other threads: it empties the queue under the mutex, and what it
    found there never reaches the callback. */
module ItFlush {
  import opened Bits
  import opened ItQueue

  /** The state after the first `i` steps of a run. */
  function After(s: State, run: seq<Label>, i: nat): State
    requires i <= |run| && Run(s, run[..i]).Some?
  {
    Run(s, run[..i]).value
  }

  lemma {:induction false} RunPrefix(s: State, run: seq<Label>, i: nat)
    requires i <= |run| && Run(s, run).Some?
    ensures Run(s, run[..i]).Some?
    decreases |run|
  {
    if i == |run| {
      assert run[..i] == run;
    } else {
      RunPrefix(s, run[..|run| - 1], i);
      assert run[..|run| - 1][..i] == run[..i];
    }
  }

  /** Fates of items that a flush takes. */
  function Drops(items: seq<Item>): (f: seq<Fate>)
    ensures |f| == |items|
  {
    seq(|items|, i requires 0 <= i < |items| => Dropped(items[i]))
  }

  // ---------------------------------------------------------------------------
  // Nobody else gets in between

  /** While worker `t` holds the mutex, no step of another thread touches the list. */
  lemma {:induction false} OthersWait(s: State, t: nat, l: Label)
    requires Exclusive(s) && s.mutex == ByWorker(t) && t in s.workers && Step(s, l).Some? && l != Advance(t)
    ensures var s' := Step(s, l).value;
            && s'.list == s.list && s'.taken == s.taken && s'.length == s.length && s'.mutex == s.mutex
            && t in s'.workers && s'.workers[t] == s.workers[t]
  {
    assert HoldsMutex(s.workers[t]);
  }

  /** A worker that is not moved stays where it is. */
  lemma WorkerStays(s: State, t: nat, l: Label)
    requires t in s.workers && s.workers[t] != Outside && Step(s, l).Some? && l != Advance(t)
    ensures t in Step(s, l).value.workers && Step(s, l).value.workers[t] == s.workers[t]
  {
  }

  // ---------------------------------------------------------------------------
  // A flush in any run

  /** Worker `t` takes the mutex for a flush. */
  ghost predicate Locks(s: State, t: nat, l: Label) {
    l == Advance(t) && t in s.workers && s.workers[t] == Flush && s.mutex == Free
  }

  /** It is emptying the list it found in `locked`. */
  ghost predicate Emptying(locked: State, s: State, t: nat) {
    && s.mutex == ByWorker(t) && t in s.workers && s.workers[t] == Empty
    && s.taken + Drops(s.list) == locked.taken + Drops(locked.list)
  }

  /** It is done, and still holds the mutex. */
  ghost predicate Emptied(locked: State, s: State, t: nat) {
    && s.mutex == ByWorker(t) && t in s.workers && s.workers[t] == LeaveFlush && s.list == [] && s.length == 0
    && s.taken == locked.taken + Drops(locked.list)
  }

  lemma {:induction false} EmptyStep(locked: State, s: State, t: nat)
    requires Emptying(locked, s, t)
    ensures Step(s, Advance(t)).Some?
    ensures var s' := Step(s, Advance(t)).value;
            if s.list == [] then Emptied(locked, s', t) else Emptying(locked, s', t) && s'.list == s.list[1..]
  {
    if s.list == [] {
      assert s.taken + Drops([]) == s.taken;
    } else {
      assert Drops(s.list) == [Dropped(s.list[0])] + Drops(s.list[1..]);
      assert s.taken + [Dropped(s.list[0])] + Drops(s.list[1..])
          == s.taken + ([Dropped(s.list[0])] + Drops(s.list[1..]));
    }
  }

  /** How far a flush has got. */
  datatype Phase = Waiting | Working(locked: nat) | Done(locked: nat, emptied: nat)

  ghost predicate InPhase(s: State, t: nat, run: seq<Label>, ph: Phase)
    requires Run(s, run).Some?
  {
    match ph
    case Waiting => t in Run(s, run).value.workers && Run(s, run).value.workers[t] == Flush
    case Working(j) =>
      && j < |run| && Run(s, run[..j]).Some? && Locks(After(s, run, j), t, run[j])
      && Emptying(After(s, run, j), Run(s, run).value, t)
    case Done(j, k) =>
      && j < k <= |run| && Run(s, run[..j]).Some? && Run(s, run[..k]).Some? && Locks(After(s, run, j), t, run[j])
      && Emptied(After(s, run, j), After(s, run, k), t)
  }

  lemma {:induction false} PhaseStep(s: State, t: nat, run: seq<Label>, ph: Phase) returns (ph': Phase)
    requires run != [] && Run(s, run).Some? && Exclusive(Run(s, run[..|run| - 1]).value)
    requires InPhase(s, t, run[..|run| - 1], ph)
    ensures InPhase(s, t, run, ph')
  {
    var n := |run| - 1;
    var now, l := Run(s, run[..n]).value, run[n];
    match ph {
      case Waiting =>
        if l == Advance(t) {
          ph' := Working(n);
        } else {
          ph' := Waiting;
          WorkerStays(now, t, l);
        }
      case Working(j) =>
        assert run[..n][..j] == run[..j];
        if l == Advance(t) {
          EmptyStep(After(s, run, j), now, t);
          if now.list == [] {
            ph' := Done(j, |run|);
            assert run[..|run|] == run;
          } else {
            ph' := ph;
          }
        } else {
          ph' := ph;
          OthersWait(now, t, l);
        }
      case Done(j, k) =>
        ph' := ph;
        assert run[..n][..j] == run[..j] && run[..n][..k] == run[..k];
    }
  }

  lemma {:induction false} ExclusiveRun(s: State, run: seq<Label>)
    requires Exclusive(s) && Run(s, run).Some?
    ensures Exclusive(Run(s, run).value)
    decreases |run|
  {
    if run == [] {
    } else {
      ExclusiveRun(s, run[..|run| - 1]);
      ExclusiveKept(Run(s, run[..|run| - 1]).value, run[|run| - 1]);
    }
  }

  lemma {:induction false} FlushPhase(s: State, t: nat, run: seq<Label>) returns (ph: Phase)
    requires Exclusive(s) && t in s.workers && s.workers[t] == Flush && Run(s, run).Some?
    ensures InPhase(s, t, run, ph)
    decreases |run|
  {
    if run == [] {
      ph := Waiting;
    } else {
      var n := |run| - 1;
      ph := FlushPhase(s, t, run[..n]);
      ExclusiveRun(s, run[..n]);
      ph := PhaseStep(s, t, run, ph);
    }
  }

  /** When a call of osmo_it_q_flush has returned, it has taken the mutex, found some items, and passed a state in which
      it still held the mutex, the list was empty, `current_length` was 0, and exactly those items had gone, dropped. */
  lemma {:induction false} FlushEmpties(s: State, t: nat, run: seq<Label>) returns (j: nat, k: nat)
    requires Exclusive(s) && t in s.workers && s.workers[t] == Flush && Run(s, run).Some?
    requires t in Run(s, run).value.workers ==>
               Run(s, run).value.workers[t] != Flush && Run(s, run).value.workers[t] != Empty
    ensures j < k <= |run| && Run(s, run[..j]).Some? && Run(s, run[..k]).Some?
    ensures Locks(After(s, run, j), t, run[j]) && Emptied(After(s, run, j), After(s, run, k), t)
  {
    var ph := FlushPhase(s, t, run);
    j, k := ph.locked, ph.emptied;
  }

  // ---------------------------------------------------------------------------
  // For good

  lemma TakenGrows(s: State, l: Label)
    requires Step(s, l).Some?
    ensures s.taken <= Step(s, l).value.taken
  {
  }

  lemma {:induction false} TakenStays(s: State, run: seq<Label>)
    requires Run(s, run).Some?
    ensures s.taken <= Run(s, run).value.taken
    decreases |run|
  {
    if run == [] {
    } else {
      TakenStays(s, run[..|run| - 1]);
      TakenGrows(Run(s, run[..|run| - 1]).value, run[|run| - 1]);
    }
  }

  /** The items a flush finds are dropped, whatever happens later: what the callback gets are the other items, each once
      and in order, from the very beginning. */
  lemma {:induction false} FlushedForGood(max: nat, threads: set<nat>, before: seq<Label>, t: nat, run: seq<Label>)
    returns (j: nat)
    requires Run(Alloc(max, threads), before).Some?
    requires var s := Run(Alloc(max, threads), before).value;
             && t in s.workers && s.workers[t] == Flush && Run(s, run).Some?
             && t in Run(s, run).value.workers && Run(s, run).value.workers[t] == Outside
    ensures var s := Run(Alloc(max, threads), before).value;
            var end := Run(s, run).value;
            && j < |run| && Run(s, run[..j]).Some? && Locks(After(s, run, j), t, run[j])
            && After(s, run, j).taken + Drops(After(s, run, j).list) <= end.taken
            && end.delivered + InHand(end.reader) == ReaderItems(end.taken)
            && end.enqueued == Items(end.taken) + end.list
  {
    var s := Run(Alloc(max, threads), before).value;
    LiveRun(max, threads, before);
    var k;
    j, k := FlushEmpties(s, t, run);
    assert run == run[..k] + run[k..];
    RunSplit(s, run[..k], run[k..]);
    TakenStays(After(s, run, k), run[k..]);
    RunSplit(Alloc(max, threads), before, run);
    LiveRun(max, threads, before + run);
  }

  // ---------------------------------------------------------------------------
  // Alone

  /** `n` steps of worker `t`. */
  function Turns(t: nat, n: nat): seq<Label> {
    seq(n, i => Advance(t))
  }

  lemma {:induction false} OneTurn(s: State, t: nat, s1: State, n: nat, s2: State)
    requires Step(s, Advance(t)) == Some(s1) && Run(s1, Turns(t, n)) == Some(s2)
    ensures Run(s, Turns(t, n + 1)) == Some(s2)
  {
    var first := Extended(s, [], s, Advance(t), s1);
    var all := Joined(s, first, s1, Turns(t, n), s2);
    assert Turns(t, n + 1) == all;
  }

  function Flushed(s: State, t: nat): State
    requires t in s.workers
  {
    Move(s.(list := [], length := 0, mutex := Free, taken := s.taken + Drops(s.list)), t, Outside)
  }

  lemma {:induction false} EmptyingRuns(s: State, t: nat)
    requires t in s.workers && s.workers[t] == Empty && s.mutex == ByWorker(t)
    ensures Run(s, Turns(t, |s.list| + 2)) == Some(Flushed(s, t))
    decreases |s.list|
  {
    if s.list == [] {
      var s1 := Step(s, Advance(t)).value;
      assert s.taken + Drops([]) == s.taken;
      assert s.workers[t := LeaveFlush][t := Outside] == s.workers[t := Outside];
      assert Turns(t, 0) == [];
      OneTurn(s1, t, Flushed(s, t), 0, Flushed(s, t));
      OneTurn(s, t, s1, 1, Flushed(s, t));
    } else {
      var s1 := Step(s, Advance(t)).value;
      EmptyingRuns(s1, t);
      assert Drops(s.list) == [Dropped(s.list[0])] + Drops(s.list[1..]);
      assert s.taken + [Dropped(s.list[0])] + Drops(s.list[1..])
          == s.taken + ([Dropped(s.list[0])] + Drops(s.list[1..]));
      OneTurn(s, t, s1, |s.list| + 1, Flushed(s, t));
    }
  }

  /** With the mutex free a flush ends after |list| + 3 of its own steps, and leaves nothing. */
  lemma {:induction false} FlushRuns(s: State, t: nat)
    requires t in s.workers && s.workers[t] == Flush && s.mutex == Free
    ensures Run(s, Turns(t, |s.list| + 3)) == Some(Flushed(s, t))
  {
    var s1 := Step(s, Advance(t)).value;
    EmptyingRuns(s1, t);
    assert s.workers[t := Empty][t := Outside] == s.workers[t := Outside];
    OneTurn(s, t, s1, |s.list| + 2, Flushed(s, t));
  }

  /** An enqueue above the maximum is refused, and nothing is changed. */
  lemma {:induction false} Refuses(s: State, t: nat, item: Item)
    requires t in s.workers && s.workers[t] == Enter(item) && s.mutex == Free && (s.length + 1) % UINT_RANGE > s.max
    ensures Run(s, Turns(t, 3)) == Some(Move(s, t, Outside))
  {
    var s1 := Move(s.(mutex := ByWorker(t)), t, Check(item));
    var s2 := Move(s.(mutex := ByWorker(t)), t, Refuse);
    assert s.workers[t := Check(item)][t := Refuse] == s.workers[t := Refuse];
    assert s.workers[t := Refuse][t := Outside] == s.workers[t := Outside];
    assert Turns(t, 0) == [];
    OneTurn(s2, t, Move(s, t, Outside), 0, Move(s, t, Outside));
    OneTurn(s1, t, s2, 1, Move(s, t, Outside));
    OneTurn(s, t, s1, 2, Move(s, t, Outside));
  }
}
