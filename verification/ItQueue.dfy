/** The inter-thread queue of src/core/it_q.c as interleaved steps of any number of worker threads, which enqueue and
    flush, and of the reader thread, which is woken through the eventfd. */
module ItQueue {
  import opened Bits

  /** `unsigned int`. */
  const UINT_RANGE := 0x1_0000_0000

  type Item = int

  // ---------------------------------------------------------------------------
  // States

  /** Where a worker thread is: outside, in _osmo_it_q_enqueue, or in osmo_it_q_flush. Enter and Flush wait for the
      mutex; Check, Append, Count, Leave, Refuse, Empty and LeaveFlush hold it; Signal has released it and not yet
      incremented the eventfd. */
  datatype Worker =
    | Outside
    | Enter(item: Item) | Check(item: Item) | Append(item: Item) | Count | Leave | Refuse | Signal
    | Flush | Empty | LeaveFlush

  /** Where the reader is in osmo_it_q_fd_cb: `left` iterations of its loop are not yet done. Pop, Uncount and Release
      hold the mutex. */
  datatype Reader =
    | Select
    | Loop(left: nat) | Pop(left: nat) | Uncount(left: nat, item: Item)
    | Release(left: nat, popped: Option<Item>) | Callback(left: nat, item: Item)

  datatype Owner = Free | ByReader | ByWorker(t: nat)

  /** What became of an item that is no longer in the list. */
  datatype Fate = ToReader(item: Item) | Dropped(item: Item)

  /** The queue, its eventfd counter and the threads, with the items enqueued, those handed to the callback, and those
      taken from the list by the reader or by a flush. */
  datatype State = State(list: seq<Item>, length: nat, max: nat, counter: nat, mutex: Owner,
                         workers: map<nat, Worker>, reader: Reader,
                         enqueued: seq<Item>, delivered: seq<Item>, taken: seq<Fate>)

  /** `osmo_it_q_alloc`, with the threads that will use the queue. */
  function Alloc(max: nat, threads: set<nat>): State {
    State([], 0, max, 0, Free, map t | t in threads :: Outside, Select, [], [], [])
  }

  // ---------------------------------------------------------------------------
  // Steps

  datatype Label =
    | CallEnqueue(t: nat, item: Item) | CallFlush(t: nat) | Advance(t: nat)
    | Read

  /** One step of a worker that is inside a call. */
  function WorkerStep(s: State, t: nat): Option<State>
    requires t in s.workers
  {
    match s.workers[t]
    case Outside => None
    case Enter(item) => if s.mutex == Free then Some(Move(s.(mutex := ByWorker(t)), t, Check(item))) else None
    case Check(item) => Some(Move(s, t, if (s.length + 1) % UINT_RANGE > s.max then Refuse else Append(item)))
    case Append(item) => Some(Move(s.(list := s.list + [item], enqueued := s.enqueued + [item]), t, Count))
    case Count => Some(Move(s.(length := (s.length + 1) % UINT_RANGE), t, Leave))
    case Leave => Some(Move(s.(mutex := Free), t, Signal))
    case Refuse => Some(Move(s.(mutex := Free), t, Outside))
    case Signal => Some(Move(s.(counter := s.counter + 1), t, Outside))
    case Flush => if s.mutex == Free then Some(Move(s.(mutex := ByWorker(t)), t, Empty)) else None
    case Empty =>
      if s.list != [] then Some(s.(list := s.list[1..], taken := s.taken + [Dropped(s.list[0])]))
          else Some(Move(s.(length := 0), t, LeaveFlush))
    case LeaveFlush => Some(Move(s.(mutex := Free), t, Outside))
  }

  function Move(s: State, t: nat, w: Worker): State
    requires t in s.workers
  {
    s.(workers := s.workers[t := w])
  }

  /** One step of the reader; the read blocks while the counter is 0. */
  function ReaderStep(s: State): Option<State> {
    match s.reader
    case Select => if s.counter == 0 then None else Some(s.(counter := 0, reader := Loop(s.counter)))
    case Loop(left) =>
      if left == 0 then Some(s.(reader := Select))
      else if s.mutex == Free then Some(s.(mutex := ByReader, reader := Pop(left)))
      else None
    case Pop(left) =>
      if s.list == [] then Some(s.(reader := Release(left, None)))
      else Some(s.(list := s.list[1..], reader := Uncount(left, s.list[0]), taken := s.taken + [ToReader(s.list[0])]))
    case Uncount(left, item) =>
      Some(s.(length := (s.length + UINT_RANGE - 1) % UINT_RANGE, reader := Release(left, Some(item))))
    case Release(left, popped) =>
      Some(s.(mutex := Free, reader := if popped == None ||
          left == 0 then Select else Callback(left - 1, popped.value)))
    case Callback(left, item) => Some(s.(delivered := s.delivered + [item], reader := Loop(left)))
  }

  function Step(s: State, l: Label): Option<State> {
    match l
    case CallEnqueue(t, item) => if t in s.workers &&
        s.workers[t] == Outside then Some(Move(s, t, Enter(item))) else None
    case CallFlush(t) => if t in s.workers && s.workers[t] == Outside then Some(Move(s, t, Flush)) else None
    case Advance(t) => if t in s.workers then WorkerStep(s, t) else None
    case Read => ReaderStep(s)
  }

  /** The state after a whole interleaving, if every step of it was possible. */
  function Run(s: State, run: seq<Label>): Option<State> {
    if run == [] then Some(s)
    else
      var before := Run(s, run[..|run| - 1]);
      if before == None then None else Step(before.value, run[|run| - 1])
  }

  // ---------------------------------------------------------------------------
  // The invariant

  /** An item of this worker is in the list without its eventfd increment. */
  predicate Owes(w: Worker) {
    w == Count || w == Leave || w == Signal
  }

  ghost function Owing(workers: map<nat, Worker>): set<nat> {
    set t | t in workers && Owes(workers[t])
  }

  predicate HoldsMutex(w: Worker) {
    w.Check? || w.Append? || w == Count || w == Leave || w == Refuse || w == Empty || w == LeaveFlush
  }

  predicate ReaderHolds(r: Reader) {
    r.Pop? || r.Uncount? || r.Release?
  }

  /** Iterations of the reader's loop that will still try to take an item. */
  function Iterations(r: Reader): nat {
    match r
    case Select => 0
    case Loop(left) => left
    case Pop(left) => left
    case Uncount(left, _) => if left == 0 then 0 else left - 1
    case Release(left, popped) => if popped == None || left == 0 then 0 else left - 1
    case Callback(left, _) => left
  }

  /** The item on its way from the list to the callback. */
  function InHand(r: Reader): seq<Item> {
    match r
    case Uncount(_, item) => [item]
    case Release(_, Some(item)) => [item]
    case Callback(_, item) => [item]
    case _ => []
  }

  /** The mutex is held by whoever is in a critical section. */
  ghost predicate Exclusive(s: State) {
    && (forall t :: t in s.workers ==> (HoldsMutex(s.workers[t]) <==> s.mutex == ByWorker(t)))
    && (ReaderHolds(s.reader) <==> s.mutex == ByReader)
    && (s.mutex.ByWorker? ==> s.mutex.t in s.workers)
  }

  /** What `current_length` is, as the thread in the critical section has left it. */
  ghost predicate LengthKept(s: State) {
    match s.mutex
    case Free => s.length == |s.list|
    case ByReader => s.length <= s.max && s.length == if s.reader.Uncount? then |s.list| + 1 else |s.list|
    case ByWorker(t) =>
      t in s.workers &&
      match s.workers[t]
      case Append(_) => s.length == |s.list| < s.max
      case Count => s.length + 1 == |s.list|
      case Empty => |s.list| <= s.length <= s.max
      case LeaveFlush => s.list == [] && s.length == 0
      case _ => s.length == |s.list|
  }

  /** Every queued item will be looked for: by an iteration of the reader's loop, after a wake-up that is already in
      the counter, or after one that an enqueuer still owes. */
  ghost predicate WakeUpsKept(s: State) {
    && |s.list| <= s.counter + |Owing(s.workers)| + Iterations(s.reader)
    && (s.reader.Release? && s.reader.popped == None ==> s.list == [])
    && (s.reader.Pop? || s.reader.Uncount? || s.reader.Release? ==> s.reader.left > 0)
  }

  /** The items of a list of fates, those for the reader, and those flushed. */
  function Items(fates: seq<Fate>): seq<Item> {
    seq(|fates|, i requires 0 <= i < |fates| => fates[i].item)
  }

  function ReaderItems(fates: seq<Fate>): seq<Item> {
    if fates == [] then []
    else
      var n := |fates| - 1;
      ReaderItems(fates[..n]) + if fates[n].ToReader? then [fates[n].item] else []
  }

  function FlushedItems(fates: seq<Fate>): seq<Item> {
    if fates == [] then []
    else
      var n := |fates| - 1;
      FlushedItems(fates[..n]) + if fates[n].Dropped? then [fates[n].item] else []
  }

  /** Items leave the list in the order they came, each to the reader or to a flush. */
  ghost predicate OrderKept(s: State) {
    s.enqueued == Items(s.taken) + s.list && s.delivered + InHand(s.reader) == ReaderItems(s.taken)
  }

  ghost predicate Inv(s: State) {
    Exclusive(s) && s.length < UINT_RANGE && |s.list| <= s.max && LengthKept(s) && WakeUpsKept(s) && OrderKept(s)
  }

  // ---------------------------------------------------------------------------
  // Every step keeps it

  lemma {:induction false} OwingMove(workers: map<nat, Worker>, t: nat, w: Worker)
    requires t in workers
    ensures |Owing(workers[t := w])| ==
            |Owing(workers)| + (if Owes(w) then 1 else 0) - (if Owes(workers[t]) then 1 else 0)
  {
    var a, b := Owing(workers), Owing(workers[t := w]);
    assert a - {t} == b - {t};
    Without(a, t);
    Without(b, t);
  }

  lemma {:induction false} Without(a: set<nat>, t: nat)
    ensures |a| == |a - {t}| + if t in a then 1 else 0
  {
    if t in a {
      assert a == (a - {t}) + {t};
    } else {
      assert a == a - {t};
    }
  }

  /** At most one thread is in a critical section. */
  lemma ExclusiveKept(s: State, l: Label)
    requires Exclusive(s) && Step(s, l).Some?
    ensures Exclusive(Step(s, l).value)
  {
  }

  lemma {:induction false} WorkerLength(s: State, t: nat)
    requires s.max + 1 < UINT_RANGE && Exclusive(s) && |s.list| <= s.max && LengthKept(s) && t in s.workers &&
             WorkerStep(s, t).Some?
    ensures var s' := WorkerStep(s, t).value;
            |s'.list| <= s'.max && s'.length < UINT_RANGE && LengthKept(s')
  {
    match s.workers[t]
    case Check(_) =>
      assert s.mutex == ByWorker(t) && (s.length + 1) % UINT_RANGE == s.length + 1;
    case Count =>
      assert s.mutex == ByWorker(t) && (s.length + 1) % UINT_RANGE == s.length + 1;
    case _ =>
  }

  lemma {:induction false} ReaderLength(s: State)
    requires s.max + 1 < UINT_RANGE && Exclusive(s) && |s.list| <= s.max && LengthKept(s) && ReaderStep(s).Some?
    ensures var s' := ReaderStep(s).value;
            |s'.list| <= s'.max && (s.length < UINT_RANGE ==> s'.length < UINT_RANGE) && LengthKept(s')
  {
    match s.reader
    case Uncount(_, _) =>
      assert s.mutex == ByReader && s.length == |s.list| + 1;
      assert (s.length + UINT_RANGE - 1) % UINT_RANGE == s.length - 1 by { WrapDown(s.length); }
    case _ =>
  }

  lemma WrapDown(n: nat)
    requires 1 <= n <= UINT_RANGE
    ensures (n + UINT_RANGE - 1) % UINT_RANGE == n - 1
  {
  }

  lemma {:induction false} LengthStep(s: State, l: Label)
    requires s.max + 1 < UINT_RANGE && s.length < UINT_RANGE && Step(s, l).Some?
    requires Exclusive(s) && |s.list| <= s.max && LengthKept(s)
    ensures var s' := Step(s, l).value;
            s'.max == s.max && |s'.list| <= s'.max && s'.length < UINT_RANGE && LengthKept(s')
  {
    match l
    case Advance(t) => WorkerLength(s, t);
    case Read => ReaderLength(s);
    case _ =>
  }

  lemma {:induction false} WakeUpWorker(s: State, t: nat)
    requires Exclusive(s) && WakeUpsKept(s) && t in s.workers && WorkerStep(s, t).Some?
    ensures WakeUpsKept(WorkerStep(s, t).value)
  {
    var s' := WorkerStep(s, t).value;
    OwingMove(s.workers, t, s'.workers[t]);
    assert s'.workers == s.workers[t := s'.workers[t]];
  }

  lemma {:induction false} WakeUpStep(s: State, l: Label)
    requires Exclusive(s) && WakeUpsKept(s) && Step(s, l).Some?
    ensures WakeUpsKept(Step(s, l).value)
  {
    match l
    case Read =>
    case Advance(t) => WakeUpWorker(s, t);
    case CallEnqueue(t, item) => OwingMove(s.workers, t, Enter(item));
    case CallFlush(t) => OwingMove(s.workers, t, Flush);
  }

  lemma {:induction false} OrderStep(s: State, l: Label)
    requires OrderKept(s) && Step(s, l).Some? && WakeUpsKept(s)
    ensures OrderKept(Step(s, l).value)
  {
    if l == Read && s.reader.Pop? && s.list != [] {
      OneTaken(s.taken, s.list, ToReader(s.list[0]));
    } else if l.Advance? && s.workers[l.t] == Empty && s.list != [] {
      OneTaken(s.taken, s.list, Dropped(s.list[0]));
    } else {
      NoneTaken(s, l);
    }
  }

  lemma {:induction false} OneTaken(taken: seq<Fate>, list: seq<Item>, f: Fate)
    requires list != [] && f.item == list[0]
    ensures Items(taken + [f]) + list[1..] == Items(taken) + list
    ensures ReaderItems(taken + [f]) == ReaderItems(taken) + if f.ToReader? then [f.item] else []
    ensures FlushedItems(taken + [f]) == FlushedItems(taken) + if f.Dropped? then [f.item] else []
  {
    assert (taken + [f])[..|taken|] == taken;
  }

  /** Every other step takes nothing from the list. */
  lemma NoneTaken(s: State, l: Label)
    requires Step(s, l).Some? && WakeUpsKept(s)
    requires !(l == Read && s.reader.Pop? && s.list != [])
    requires !(l.Advance? && s.workers[l.t] == Empty && s.list != [])
    ensures var s' := Step(s, l).value;
            && s'.taken == s.taken && s'.delivered + InHand(s'.reader) == s.delivered + InHand(s.reader)
            && exists more :: s'.list == s.list + more && s'.enqueued == s.enqueued + more
  {
    var s' := Step(s, l).value;
    if l.Advance? && s.workers[l.t].Append? {
      assert s'.list == s.list + [s.workers[l.t].item];
    } else {
      assert s'.list == s.list + [] && s'.enqueued == s.enqueued + [];
    }
  }

  lemma {:induction false} InvStep(s: State, l: Label)
    requires s.max + 1 < UINT_RANGE && Inv(s) && Step(s, l).Some?
    ensures Inv(Step(s, l).value) && Step(s, l).value.max == s.max
  {
    ExclusiveKept(s, l);
    LengthStep(s, l);
    WakeUpStep(s, l);
    OrderStep(s, l);
  }

  /** Every interleaving of every run keeps the invariant. */
  lemma {:induction false} InvRun(max: nat, threads: set<nat>, run: seq<Label>)
    requires max + 1 < UINT_RANGE && Run(Alloc(max, threads), run).Some?
    ensures Inv(Run(Alloc(max, threads), run).value) && Run(Alloc(max, threads), run).value.max == max
    decreases |run|
  {
    if run == [] {
      assert Owing(Alloc(max, threads).workers) == {};
    } else {
      InvRun(max, threads, run[..|run| - 1]);
      InvStep(Run(Alloc(max, threads), run[..|run| - 1]).value, run[|run| - 1]);
    }
  }

  // ---------------------------------------------------------------------------
  // What it means

  /** What does not depend on the maximum, nor on the number of items. */
  ghost predicate Live(s: State) {
    Exclusive(s) && WakeUpsKept(s) && OrderKept(s)
  }

  lemma {:induction false} LiveRun(max: nat, threads: set<nat>, run: seq<Label>)
    requires Run(Alloc(max, threads), run).Some?
    ensures Live(Run(Alloc(max, threads), run).value)
    decreases |run|
  {
    if run == [] {
      assert Owing(Alloc(max, threads).workers) == {};
    } else {
      LiveRun(max, threads, run[..|run| - 1]);
      var s, l := Run(Alloc(max, threads), run[..|run| - 1]).value, run[|run| - 1];
      ExclusiveKept(s, l);
      WakeUpStep(s, l);
      OrderStep(s, l);
    }
  }

  /** No wake-up is lost, whatever the maximum: with an item in the queue the reader is at work or readable, or an
      enqueuer is about to make it so. With the mutex free, only enqueuers between unlock and increment are. */
  lemma {:induction false} NoLostWakeUp(max: nat, threads: set<nat>, run: seq<Label>)
    requires Run(Alloc(max, threads), run).Some?
    ensures var s := Run(Alloc(max, threads), run).value;
            && |s.list| <= s.counter + |Owing(s.workers)| + Iterations(s.reader)
            && (s.list != [] && s.reader == Select && s.counter == 0 ==>
               exists t :: t in s.workers && Owes(s.workers[t]))
            && (s.mutex == Free ==> forall t :: t in Owing(s.workers) ==> s.workers[t] == Signal)
  {
    LiveRun(max, threads, run);
    var s := Run(Alloc(max, threads), run).value;
    if s.list != [] && s.reader == Select && s.counter == 0 {
      assert Owing(s.workers) != {};
      var t :| t in Owing(s.workers);
    }
  }

  /** `current_length` is the length of the list whenever the mutex is free; neither exceeds the maximum; without flush
      the callback sees a prefix of the items in the order they were enqueued. */
  lemma {:induction false} QueueSound(max: nat, threads: set<nat>, run: seq<Label>)
    requires max + 1 < UINT_RANGE && Run(Alloc(max, threads), run).Some?
    ensures var s := Run(Alloc(max, threads), run).value;
            && (s.mutex == Free ==> s.length == |s.list|) && |s.list| <= max && s.length <= max
            && (FlushedItems(s.taken) == [] ==> s.delivered <= s.enqueued)
  {
    InvRun(max, threads, run);
    SoundState(Run(Alloc(max, threads), run).value);
  }

  lemma {:induction false} SoundState(s: State)
    requires Inv(s)
    ensures s.mutex == Free ==> s.length == |s.list|
    ensures s.length <= s.max && (FlushedItems(s.taken) == [] ==> s.delivered <= s.enqueued)
  {
    if FlushedItems(s.taken) == [] {
      NoneFlushed(s.taken);
      assert s.enqueued == s.delivered + (InHand(s.reader) + s.list);
    }
  }

  lemma {:induction false} NoneFlushed(fates: seq<Fate>)
    requires FlushedItems(fates) == []
    ensures ReaderItems(fates) == Items(fates)
    decreases |fates|
  {
    if fates == [] {
    } else {
      NoneFlushed(fates[..|fates| - 1]);
    }
  }

  /** `c` consists of `a` and `b`, each in its order. */
  predicate Interleaves(a: seq<Item>, b: seq<Item>, c: seq<Item>)
    decreases |c|
  {
    var n := |c| - 1;
    if c == [] then a == [] && b == []
    else
      || (a != [] && a[|a| - 1] == c[n] && Interleaves(a[..|a| - 1], b, c[..n]))
      || (b != [] && b[|b| - 1] == c[n] && Interleaves(a, b[..|b| - 1], c[..n]))
  }

  lemma {:induction false} FatesInterleave(fates: seq<Fate>)
    ensures Interleaves(ReaderItems(fates), FlushedItems(fates), Items(fates))
    decreases |fates|
  {
    if fates == [] {
    } else {
      var n := |fates| - 1;
      FatesInterleave(fates[..n]);
      assert Items(fates)[..n] == Items(fates[..n]);
      var a, b := ReaderItems(fates), FlushedItems(fates);
      if fates[n].ToReader? {
        assert a[..|a| - 1] == ReaderItems(fates[..n]) && b == FlushedItems(fates[..n]);
      } else {
        assert b[..|b| - 1] == FlushedItems(fates[..n]) && a == ReaderItems(fates[..n]);
      }
    }
  }

  /** Every item that was ever enqueued is still queued, or went to the callback, or was flushed: exactly one of them,
      and in the order of the enqueues, whatever the maximum. */
  lemma {:induction false} EachOnce(max: nat, threads: set<nat>, run: seq<Label>)
    requires Run(Alloc(max, threads), run).Some?
    ensures var s := Run(Alloc(max, threads), run).value;
            && |s.taken| + |s.list| == |s.enqueued| && s.enqueued[|s.taken|..] == s.list
            && Interleaves(s.delivered + InHand(s.reader), FlushedItems(s.taken), s.enqueued[..|s.taken|])
  {
    LiveRun(max, threads, run);
    var s := Run(Alloc(max, threads), run).value;
    FatesInterleave(s.taken);
    assert s.enqueued[..|s.taken|] == Items(s.taken);
  }

  // ---------------------------------------------------------------------------
  // Draining

  lemma {:induction false} RunSplit(s: State, a: seq<Label>, b: seq<Label>)
    requires Run(s, a).Some?
    ensures Run(s, a + b) == Run(Run(s, a).value, b)
    decreases |b|
  {
    if b == [] {
      assert a + b == a;
    } else {
      assert (a + b)[..|a + b| - 1] == a + b[..|b| - 1];
      RunSplit(s, a, b[..|b| - 1]);
    }
  }

  /** A run with one more step. */
  lemma {:induction false} Extended(s: State, run: seq<Label>, s1: State, l: Label, s2: State)
    returns (run': seq<Label>)
    requires Run(s, run) == Some(s1) && Step(s1, l) == Some(s2)
    ensures run' == run + [l] && Run(s, run') == Some(s2)
  {
    run' := run + [l];
    assert run'[..|run|] == run;
  }

  lemma {:induction false} Joined(s: State, run1: seq<Label>, s1: State, run2: seq<Label>, s2: State)
    returns (run: seq<Label>)
    requires Run(s, run1) == Some(s1) && Run(s1, run2) == Some(s2)
    ensures run == run1 + run2 && Run(s, run) == Some(s2)
  {
    RunSplit(s, run1, run2);
    run := run1 + run2;
  }

  /** `n` steps of the reader. */
  function Reads(n: nat): seq<Label> {
    seq(n, i => Read)
  }

  /** No worker is in a critical section or owes an increment. */
  ghost predicate Quiet(s: State) {
    Live(s) && !s.mutex.ByWorker? && Owing(s.workers) == {}
  }

  /** The reader waits for the eventfd, and there is nothing to read. */
  predicate Asleep(s: State) {
    s.reader == Select && s.counter == 0
  }

  /** Steps left in osmo_it_q_fd_cb. */
  function StepsLeft(r: Reader): nat {
    match r
    case Select => 0
    case Loop(left) => 6 * left + 1
    case Pop(left) => 6 * left
    case Uncount(left, _) => if left == 0 then 0 else 6 * left - 1
    case Release(left, _) => if left == 0 then 0 else 6 * left - 2
    case Callback(left, _) => 6 * left + 2
  }

  /** The items handed over, in hand and queued. */
  function InOrder(s: State): seq<Item> {
    s.delivered + InHand(s.reader) + s.list
  }

  /** With the workers quiet the reader is never blocked, drops nothing, and gets on. */
  lemma {:induction false} QuietStep(s: State)
    requires Quiet(s) && !Asleep(s)
    ensures ReaderStep(s).Some?
    ensures var s' := ReaderStep(s).value;
            && Quiet(s') && InOrder(s') == InOrder(s) && s'.workers == s.workers
            && s'.enqueued == s.enqueued && FlushedItems(s'.taken) == FlushedItems(s.taken)
            && (s'.counter < s.counter || (s'.counter == s.counter && StepsLeft(s'.reader) < StepsLeft(s.reader)))
  {
    assert Step(s, Read) == ReaderStep(s);
    ExclusiveKept(s, Read);
    WakeUpStep(s, Read);
    OrderStep(s, Read);
    NothingLost(s);
  }

  lemma {:induction false} NothingLost(s: State)
    requires ReaderStep(s).Some? && WakeUpsKept(s)
    ensures InOrder(ReaderStep(s).value) == InOrder(s)
    ensures FlushedItems(ReaderStep(s).value.taken) == FlushedItems(s.taken)
  {
    if s.reader.Pop? && s.list != [] {
      assert s.list == [s.list[0]] + s.list[1..];
      OneTaken(s.taken, s.list, ToReader(s.list[0]));
    }
  }

  lemma {:induction false} ReadsDrain(s: State) returns (n: nat)
    requires Quiet(s)
    ensures Run(s, Reads(n)).Some?
    ensures var end := Run(s, Reads(n)).value;
            && Asleep(end) && end.list == [] && end.delivered == InOrder(s)
            && end.enqueued == s.enqueued && FlushedItems(end.taken) == FlushedItems(s.taken)
    decreases s.counter, StepsLeft(s.reader)
  {
    if Asleep(s) {
      n := 0;
    } else {
      QuietStep(s);
      var s' := ReaderStep(s).value;
      var m := ReadsDrain(s');
      n := m + 1;
      var first := Extended(s, [], s, Read, s');
      assert first == [Read];
      var all := Joined(s, [Read], s', Reads(m), Run(s', Reads(m)).value);
      assert Reads(n) == all;
    }
  }

  /** From every state that a run reaches, wherever the reader is, once no worker is in a critical section or owes an
      increment the reader alone gets back to sleep with every queued item handed over, in order: without flush, all
      the items that were ever enqueued. */
  lemma {:induction false} Drains(max: nat, threads: set<nat>, run: seq<Label>, s: State) returns (n: nat)
    requires Run(Alloc(max, threads), run) == Some(s)
    requires !s.mutex.ByWorker? && Owing(s.workers) == {}
    ensures Run(s, Reads(n)).Some?
    ensures var end := Run(s, Reads(n)).value;
            && Asleep(end) && end.list == [] && end.delivered == s.delivered + InHand(s.reader) + s.list
            && (FlushedItems(s.taken) == [] ==> end.delivered == s.enqueued)
  {
    LiveRun(max, threads, run);
    n := ReadsDrain(s);
    if FlushedItems(s.taken) == [] {
      NoneFlushed(s.taken);
    }
  }

  // ---------------------------------------------------------------------------
  // The largest maximum

  /** Thread 0 at work in an enqueue. */
  function At(s: State, w: Worker): State
    requires 0 in s.workers
  {
    Move(s, 0, w)
  }

  /** The steps of a worker on the way through an enqueue. */
  lemma {:induction false} Entering(s: State, item: Item)
    requires 0 in s.workers && s.mutex == Free
    ensures Step(At(s, Enter(item)), Advance(0)) == Some(At(s.(mutex := ByWorker(0)), Check(item)))
  {
    assert s.workers[0 := Enter(item)][0 := Check(item)] == s.workers[0 := Check(item)];
  }

  lemma {:induction false} Checking(s: State, item: Item)
    requires 0 in s.workers && (s.length + 1) % UINT_RANGE <= s.max
    ensures Step(At(s, Check(item)), Advance(0)) == Some(At(s, Append(item)))
  {
    assert s.workers[0 := Check(item)][0 := Append(item)] == s.workers[0 := Append(item)];
  }

  lemma {:induction false} Appending(s: State, item: Item)
    requires 0 in s.workers
    ensures Step(At(s, Append(item)), Advance(0)) ==
            Some(At(s.(list := s.list + [item], enqueued := s.enqueued + [item]), Count))
  {
    assert s.workers[0 := Append(item)][0 := Count] == s.workers[0 := Count];
  }

  lemma {:induction false} Counting(s: State)
    requires 0 in s.workers
    ensures Step(At(s, Count), Advance(0)) == Some(At(s.(length := (s.length + 1) % UINT_RANGE), Leave))
  {
    assert s.workers[0 := Count][0 := Leave] == s.workers[0 := Leave];
  }

  lemma {:induction false} Leaving(s: State)
    requires 0 in s.workers
    ensures Step(At(s, Leave), Advance(0)) == Some(At(s.(mutex := Free), Signal))
  {
    assert s.workers[0 := Leave][0 := Signal] == s.workers[0 := Signal];
  }

  lemma {:induction false} Signalling(s: State)
    requires 0 in s.workers && s.workers[0] == Outside
    ensures Step(At(s, Signal), Advance(0)) == Some(s.(counter := s.counter + 1))
  {
    assert s.workers[0 := Signal][0 := Outside] == s.workers;
  }

  function WithItem(s: State, item: Item): State {
    s.(list := s.list + [item], enqueued := s.enqueued + [item], length := (s.length + 1) % UINT_RANGE,
        counter := s.counter + 1)
  }

  function Added(s: State, item: Item): State {
    s.(mutex := ByWorker(0), list := s.list + [item], enqueued := s.enqueued + [item])
  }

  function LetGo(s: State): State {
    s.(length := (s.length + 1) % UINT_RANGE, mutex := Free, counter := s.counter + 1)
  }

  lemma AddedLetGo(s: State, item: Item)
    requires s.mutex == Free
    ensures LetGo(Added(s, item)) == WithItem(s, item)
  {
  }

  /** The critical section, up to the count. */
  lemma {:induction false} TakenIn(s: State, item: Item) returns (run: seq<Label>)
    requires 0 in s.workers && s.workers[0] == Outside && s.mutex == Free && (s.length + 1) % UINT_RANGE <= s.max
    ensures Run(s, run) == Some(At(Added(s, item), Count))
  {
    var held := s.(mutex := ByWorker(0));
    Entering(s, item);
    Checking(held, item);
    Appending(held, item);
    run := Extended(s, [], s, CallEnqueue(0, item), At(s, Enter(item)));
    run := Extended(s, run, At(s, Enter(item)), Advance(0), At(held, Check(item)));
    run := Extended(s, run, At(held, Check(item)), Advance(0), At(held, Append(item)));
    run := Extended(s, run, At(held, Append(item)), Advance(0), At(Added(s, item), Count));
  }

  /** The count, the unlock and the increment. */
  lemma {:induction false} LetOut(s: State) returns (run: seq<Label>)
    requires 0 in s.workers && s.workers[0] == Outside
    ensures Run(At(s, Count), run) == Some(LetGo(s))
  {
    var counted := s.(length := (s.length + 1) % UINT_RANGE);
    var free := counted.(mutex := Free);
    Counting(s);
    Leaving(counted);
    Signalling(free);
    run := Extended(At(s, Count), [], At(s, Count), Advance(0), At(counted, Leave));
    run := Extended(At(s, Count), run, At(counted, Leave), Advance(0), At(free, Signal));
    run := Extended(At(s, Count), run, At(free, Signal), Advance(0), LetGo(s));
  }

  /** One enqueue by thread 0 from call to return. */
  lemma {:induction false} OneEnqueue(s: State, item: Item) returns (run: seq<Label>)
    requires 0 in s.workers && s.workers[0] == Outside && s.mutex == Free && (s.length + 1) % UINT_RANGE <= s.max
    ensures Run(s, run) == Some(WithItem(s, item))
  {
    var run1 := TakenIn(s, item);
    var run2 := LetOut(Added(s, item));
    run := Joined(s, run1, At(Added(s, item), Count), run2, LetGo(Added(s, item)));
    AddedLetGo(s, item);
  }

  /** Only thread 0 is at work and `n` items were enqueued. */
  ghost predicate Filled(s: State, n: nat) {
    && 0 in s.workers && s.workers[0] == Outside && s.mutex == Free && s.max == UINT_RANGE - 1
    && |s.list| == n && s.length == n % UINT_RANGE
  }

  /** Without the reader, `n` enqueues leave `n` items, and `current_length` modulo its range. */
  lemma {:induction false} Fills(s: State, n: nat) returns (run: seq<Label>)
    requires Filled(s, 0)
    ensures Run(s, run).Some? && Filled(Run(s, run).value, n)
  {
    run := [];
    if n == 0 {
    } else {
      run := Fills(s, n - 1);
      var before := Run(s, run).value;
      var more := FillsOne(before, n - 1);
      run := Joined(s, run, before, more, Run(before, more).value);
    }
  }

  lemma {:induction false} FillsOne(s: State, n: nat) returns (run: seq<Label>)
    requires Filled(s, n)
    ensures Run(s, run).Some? && Filled(Run(s, run).value, n + 1)
  {
    run := OneEnqueue(s, 0);
    WrapUp(n);
  }

  lemma WrapUp(n: nat)
    ensures (n % UINT_RANGE + 1) % UINT_RANGE == (n + 1) % UINT_RANGE
  {
  }

  /** No run makes the list longer than `max_length`. */
  ghost predicate Bounded(max: nat) {
    forall threads, run :: Run(Alloc(max, threads), run).Some? ==> |Run(Alloc(max, threads), run).value.list| <= max
  }

  /** The bound holds for every `max_length` but UINT_MAX, where `current_length + 1` wraps around. */
  lemma {:induction false} BoundedExactly(max: nat)
    requires max < UINT_RANGE
    ensures Bounded(max) <==> max != UINT_RANGE - 1
  {
    if max + 1 < UINT_RANGE {
      forall threads, run | Run(Alloc(max, threads), run).Some?
        ensures |Run(Alloc(max, threads), run).value.list| <= max
      {
        InvRun(max, threads, run);
      }
    } else {
      var run := Fills(Alloc(max, {0}), UINT_RANGE);
    }
  }
}
