/** Path metrics of the accelerated decoder (src/core/conv_acc_generic.c) as mathematics: exact sums,
    the 16-bit sums with normalisation that the code keeps, and when the two make the same decisions. */
module AccSums {
  import opened Bits

  /** Storing into an `int16_t`. */
  function Wrap16(x: int): (y: int)
    ensures -32768 <= y <= 32767
    ensures -32768 <= x <= 32767 ==> y == x
  {
    (x + 32768) % 65536 - 32768
  }

  /** Path metric of state `r` over predecessor 2 * (r % h) + q, where `h` is half the number of states:
      the four edges of a butterfly carry the metric or its negation. */
  function Cand(h: nat, sums: seq<int>, metrics: seq<int>, r: nat, q: Bit): int
    requires h > 0 && |sums| == 2 * h && |metrics| == h && r < 2 * h
  {
    var i := if r < h then r else r - h;
    sums[2 * i + q] + (if (q == 0) == (r < h) then metrics[i] else -metrics[i])
  }

  function AcsSum(h: nat, sums: seq<int>, metrics: seq<int>, r: nat): int
    requires h > 0 && |sums| == 2 * h && |metrics| == h && r < 2 * h
  {
    if Cand(h, sums, metrics, r, 0) >= Cand(h, sums, metrics, r, 1)
    then Cand(h, sums, metrics, r, 0) else Cand(h, sums, metrics, r, 1)
  }

  /** The selection, stored as -1 for the even predecessor and 0 for the odd one. */
  function AcsPath(h: nat, sums: seq<int>, metrics: seq<int>, r: nat): (p: int)
    requires h > 0 && |sums| == 2 * h && |metrics| == h && r < 2 * h
    ensures p == -1 || p == 0
  {
    if Cand(h, sums, metrics, r, 0) >= Cand(h, sums, metrics, r, 1) then -1 else 0
  }

  function Paths(h: nat, sums: seq<int>, metrics: seq<int>): (p: seq<int>)
    requires h > 0 && |sums| == 2 * h && |metrics| == h
    ensures |p| == 2 * h
  {
    seq(2 * h, r requires 0 <= r < 2 * h => AcsPath(h, sums, metrics, r))
  }

  /** Unbounded sums after one step. */
  function Exact(h: nat, sums: seq<int>, metrics: seq<int>): (s: seq<int>)
    requires h > 0 && |sums| == 2 * h && |metrics| == h
    ensures |s| == 2 * h
  {
    seq(2 * h, r requires 0 <= r < 2 * h => AcsSum(h, sums, metrics, r))
  }

  function Min(s: seq<int>): int
    requires |s| > 0
  {
    if |s| == 1 then s[0]
    else
      var m := Min(s[..|s| - 1]);
      if s[|s| - 1] < m then s[|s| - 1] else m
  }

  /** The sums the code keeps after one step: 16-bit stores, then perhaps normalisation. */
  function Kept(h: nat, sums: seq<int>, metrics: seq<int>, norm: bool): (s: seq<int>)
    requires h > 0 && |sums| == 2 * h && |metrics| == h
    ensures |s| == 2 * h
  {
    if norm then Normalised(Stored(h, sums, metrics)) else Stored(h, sums, metrics)
  }

  function Stored(h: nat, sums: seq<int>, metrics: seq<int>): (s: seq<int>)
    requires h > 0 && |sums| == 2 * h && |metrics| == h
    ensures |s| == 2 * h
  {
    seq(2 * h, r requires 0 <= r < 2 * h => Wrap16(AcsSum(h, sums, metrics, r)))
  }

  /** Subtracts the minimum, in 16 bits. */
  function Normalised(stored: seq<int>): (s: seq<int>)
    requires |stored| > 0
    ensures |s| == |stored|
  {
    seq(|stored|, r requires 0 <= r < |stored| => Wrap16(stored[r] - Min(stored)))
  }

  /** Branch metrics of all steps: one row of h metrics each. */
  ghost predicate Rows(h: nat, ms: seq<seq<int>>) {
    forall i :: 0 <= i < |ms| ==> |ms[i]| == h
  }

  function ExactSums(h: nat, ms: seq<seq<int>>, sums: seq<int>, i: nat): (s: seq<int>)
    requires h > 0 && |sums| == 2 * h && Rows(h, ms) && i <= |ms|
    ensures |s| == 2 * h
  {
    if i == 0 then sums else Exact(h, ExactSums(h, ms, sums, i - 1), ms[i - 1])
  }

  lemma CandBelow(h: nat, ms: seq<seq<int>>, sums: seq<int>, i: nat, r: nat, q: Bit)
    requires h > 0 && |sums| == 2 * h && Rows(h, ms) && i < |ms| && r < 2 * h
    ensures ExactSums(h, ms, sums, i + 1)[r] >= Cand(h, ExactSums(h, ms, sums, i), ms[i], r, q)
  {
  }

  function KeptSums(h: nat, ms: seq<seq<int>>, intrvl: nat, sums: seq<int>, i: nat): (s: seq<int>)
    requires h > 0 && intrvl > 0 && |sums| == 2 * h && Rows(h, ms) && i <= |ms|
    ensures |s| == 2 * h
  {
    if i == 0 then sums
    else Kept(h, KeptSums(h, ms, intrvl, sums, i - 1), ms[i - 1], Phase(intrvl, i - 1) == 0)
  }

  /** The path selections of step `k`. */
  function PathRow(h: nat, ms: seq<seq<int>>, intrvl: nat, sums: seq<int>, k: nat): (p: seq<int>)
    requires h > 0 && intrvl > 0 && |sums| == 2 * h && Rows(h, ms) && k < |ms|
    ensures |p| == 2 * h
  {
    Paths(h, KeptSums(h, ms, intrvl, sums, k), ms[k])
  }

  /** The path selections of the first `i` steps. */
  function PathRows(h: nat, ms: seq<seq<int>>, intrvl: nat, sums: seq<int>, i: nat): (p: seq<seq<int>>)
    requires h > 0 && intrvl > 0 && |sums| == 2 * h && Rows(h, ms) && i <= |ms|
    ensures |p| == i
  {
    if i == 0 then [] else PathRows(h, ms, intrvl, sums, i - 1) + [PathRow(h, ms, intrvl, sums, i - 1)]
  }

  lemma {:induction false} PathRowsAt(h: nat, ms: seq<seq<int>>, intrvl: nat, sums: seq<int>, i: nat, k: nat)
    requires h > 0 && intrvl > 0 && |sums| == 2 * h && Rows(h, ms) && k < i <= |ms|
    ensures PathRows(h, ms, intrvl, sums, i)[k] == PathRow(h, ms, intrvl, sums, k)
    decreases i
  {
    var rows := PathRows(h, ms, intrvl, sums, i - 1);
    assert PathRows(h, ms, intrvl, sums, i) == rows + [PathRow(h, ms, intrvl, sums, i - 1)];
    if k < i - 1 {
      PathRowsAt(h, ms, intrvl, sums, i - 1, k);
    }
  }

  /** i % n, counted up step by step. */
  function Phase(n: nat, i: nat): (p: nat)
    requires n > 0
    ensures p < n && p <= i
  {
    if i == 0 || Phase(n, i - 1) + 1 == n then 0 else Phase(n, i - 1) + 1
  }

  // ---------------------------------------------------------------------------
  // How the exact sums move

  predicate Small(x: int, d: nat) {
    -x <= d && x <= d
  }

  /** All branch metrics have magnitude at most `d`. */
  ghost predicate Bounded(ms: seq<seq<int>>, d: nat) {
    forall i, j :: 0 <= i < |ms| && 0 <= j < |ms[i]| ==> Small(ms[i][j], d)
  }

  ghost predicate Within(s: seq<int>, lo: int, hi: int) {
    forall r :: 0 <= r < |s| ==> lo <= s[r] <= hi
  }

  /** A butterfly step never lowers the minimum and raises the maximum by at most one metric. */
  lemma {:induction false} StepRange(h: nat, sums: seq<int>, metrics: seq<int>, d: nat, lo: int, hi: int)
    requires h > 0 && |sums| == 2 * h && |metrics| == h
    requires forall j :: 0 <= j < h ==> Small(metrics[j], d)
    requires Within(sums, lo, hi)
    ensures Within(Exact(h, sums, metrics), lo, hi + d)
  {
    forall r | 0 <= r < 2 * h
      ensures lo <= AcsSum(h, sums, metrics, r) <= hi + d
    {
      var i := if r < h then r else r - h;
      assert lo <= sums[2 * i] <= hi && lo <= sums[2 * i + 1] <= hi && Small(metrics[i], d);
      var c0, c1 := Cand(h, sums, metrics, r, 0), Cand(h, sums, metrics, r, 1);
      assert c0 + c1 == sums[2 * i] + sums[2 * i + 1];
    }
  }

  lemma {:induction false} RunRange(h: nat, ms: seq<seq<int>>, sums: seq<int>, d: nat, i: nat, n: nat, lo: int, hi: int)
    requires h > 0 && |sums| == 2 * h && Rows(h, ms) && Bounded(ms, d) && i + n <= |ms|
    requires Within(ExactSums(h, ms, sums, i), lo, hi)
    ensures Within(ExactSums(h, ms, sums, i + n), lo, hi + Times(d, n))
    decreases n
  {
    if n == 0 {
    } else {
      RunRange(h, ms, sums, d, i, n - 1, lo, hi);
      StepRange(h, ExactSums(h, ms, sums, i + n - 1), ms[i + n - 1], d, lo, hi + Times(d, n - 1));
    }
  }

  function Half(p: nat, n: nat): nat {
    if n == 0 then p else Half(p, n - 1) / 2
  }

  /** The register of `r` still shows the bits of `p` after n of k shifts. */
  ghost predicate Shows(k: nat, p: nat, n: nat, r: nat)
    requires n <= k
  {
    r % Pow2(k - n) == Half(p, n)
  }

  /** The predecessor `q` of state `r`. */
  function Pred(h: nat, r: nat, q: Bit): nat
    requires r < 2 * h
  {
    2 * (if r < h then r else r - h) + q
  }

  lemma {:induction false} StepLower(h: nat, sums: seq<int>, metrics: seq<int>, d: nat, r: nat, q: Bit)
    requires h > 0 && |sums| == 2 * h && |metrics| == h && r < 2 * h
    requires forall j :: 0 <= j < h ==> Small(metrics[j], d)
    ensures Exact(h, sums, metrics)[r] >= sums[Pred(h, r, q)] - d
  {
    var half := if r < h then r else r - h;
    assert Small(metrics[half], d);
    assert AcsSum(h, sums, metrics, r) >= Cand(h, sums, metrics, r, q);
  }

  /** From `p` every state that still shows p's bits is reached; each step costs at most d. */
  lemma {:induction false} Reaches(k: nat, h: nat, ms: seq<seq<int>>, sums: seq<int>, d: nat, i: nat, p: nat, n: nat,
                                   r: nat)
    requires k >= 1 && h == Pow2(k - 1) && |sums| == 2 * h && Rows(h, ms) && Bounded(ms, d)
    requires n <= k && i + n <= |ms| && p < 2 * h && r < 2 * h && Shows(k, p, n, r)
    ensures ExactSums(h, ms, sums, i + n)[r] >= ExactSums(h, ms, sums, i)[p] - Times(d, n)
    decreases n
  {
    if n == 0 {
      ShowsAll(k, p, r);
    } else {
      var q: Bit := Half(p, n - 1) % 2;
      ShowsBefore(k, p, n, r);
      Reaches(k, h, ms, sums, d, i, p, n - 1, Pred(h, r, q));
      LastLower(h, ms, sums, d, i + n, r, q);
      assert Times(d, n) == Times(d, n - 1) + d;
    }
  }

  lemma {:induction false} ShowsAll(k: nat, p: nat, r: nat)
    requires r < Pow2(k) && Shows(k, p, 0, r)
    ensures r == p
  {
    SmallMod(r, Pow2(k));
  }

  lemma {:induction false} LastLower(h: nat, ms: seq<seq<int>>, sums: seq<int>, d: nat, i: nat, r: nat, q: Bit)
    requires h > 0 && |sums| == 2 * h && Rows(h, ms) && Bounded(ms, d) && 1 <= i <= |ms| && r < 2 * h
    ensures ExactSums(h, ms, sums, i)[r] >= ExactSums(h, ms, sums, i - 1)[Pred(h, r, q)] - d
  {
    StepLower(h, ExactSums(h, ms, sums, i - 1), ms[i - 1], d, r, q);
  }

  /** The predecessor of `r` that takes p's next bit shows one bit more of p. */
  lemma {:induction false} ShowsBefore(k: nat, p: nat, n: nat, r: nat)
    requires 1 <= n <= k && r < Pow2(k) && Shows(k, p, n, r)
    ensures Shows(k, p, n - 1, Pred(Pow2(k - 1), r, Half(p, n - 1) % 2))
  {
    var half := if r < Pow2(k - 1) then r else r - Pow2(k - 1);
    HalfRegister(k, r, k - n);
    HalfMod(half, k - n + 1);
  }

  /** Dropping the top bit of a register does not change its low bits. */
  lemma {:induction false} HalfRegister(k: nat, r: nat, m: nat)
    requires k >= 1 && r < Pow2(k) && m <= k - 1
    ensures (if r < Pow2(k - 1) then r else r - Pow2(k - 1)) % Pow2(m) == r % Pow2(m)
  {
    var h := Pow2(k - 1);
    ModUnique(r, h, if r < h then 0 else 1, if r < h then r else r - h);
    ModOfMod(r, k - 1, m);
  }

  ghost predicate Spread(s: seq<int>, w: int) {
    forall r, r' :: 0 <= r < |s| && 0 <= r' < |s| ==> s[r] - s[r'] <= w
  }

  function MaxIndex(s: seq<int>): (m: nat)
    requires |s| > 0
    ensures m < |s| && forall r :: 0 <= r < |s| ==> s[r] <= s[m]
  {
    if |s| == 1 then 0
    else
      var m := MaxIndex(s[..|s| - 1]);
      if s[m] < s[|s| - 1] then |s| - 1 else m
  }

  lemma {:induction false} HalfAll(p: nat, k: nat)
    requires p < Pow2(k)
    ensures Half(p, k) == 0
  {
    if k == 0 {
    } else {
      HalfFirst(p, k);
      HalfAll(p / 2, k - 1);
    }
  }

  lemma {:induction false} HalfFirst(p: nat, n: nat)
    requires n >= 1
    ensures Half(p, n) == Half(p / 2, n - 1)
  {
    if n <= 1 {
    } else {
      HalfFirst(p, n - 1);
    }
  }

  /** After k = K-1 steps every state is reached from everywhere: the spread is at most 2 * d * k. */
  lemma {:induction false} SpreadBound(k: nat, h: nat, ms: seq<seq<int>>, sums: seq<int>, d: nat, i: nat)
    requires k >= 1 && h == Pow2(k - 1) && |sums| == 2 * h && Rows(h, ms) && Bounded(ms, d)
    requires i + k <= |ms|
    ensures Spread(ExactSums(h, ms, sums, i + k), 2 * Times(d, k))
  {
    var from, to := ExactSums(h, ms, sums, i), ExactSums(h, ms, sums, i + k);
    var p := MaxIndex(from);
    var lo := Min(from);
    MinLeast(from);
    RunRange(h, ms, sums, d, i, k, lo, from[p]);
    forall r' | 0 <= r' < 2 * h
      ensures to[r'] >= from[p] - Times(d, k)
    {
      HalfAll(p, k);
      Reaches(k, h, ms, sums, d, i, p, k, r');
    }
  }

  lemma {:induction false} MinOfFront(s: seq<int>, n: nat)
    requires |s| == n + 1 > 1 && Min(s[..n]) in s[..n] && forall r :: 0 <= r < n ==> Min(s[..n]) <= s[..n][r]
    ensures Min(s) in s && forall r :: 0 <= r < |s| ==> Min(s) <= s[r]
  {
    var i :| 0 <= i < n && s[..n][i] == Min(s[..n]);
    assert s[i] == Min(s) || s[n] == Min(s);
    forall r | 0 <= r < |s|
      ensures Min(s) <= s[r]
    {
      assert r < n ==> s[..n][r] == s[r];
    }
  }

  lemma {:induction false} MinLeast(s: seq<int>)
    requires |s| > 0
    ensures forall r :: 0 <= r < |s| ==> Min(s) <= s[r]
    ensures Min(s) in s
  {
    if |s| == 1 {
      assert s[0] == Min(s);
    } else {
      var n := |s| - 1;
      MinLeast(s[..n]);
      MinOfFront(s, n);
    }
  }

  // ---------------------------------------------------------------------------
  // When the 16-bit sums are exact

  /** The kept sums are the exact ones less a common offset. */
  ghost predicate Tracks(kept: seq<int>, exact: seq<int>, off: int) {
    |kept| == |exact| && forall r :: 0 <= r < |kept| ==> kept[r] == exact[r] - off
  }

  /** A common offset changes no decision. */
  lemma {:induction false} SameDecisions(h: nat, kept: seq<int>, exact: seq<int>, off: int, metrics: seq<int>)
    requires h > 0 && |kept| == |exact| == 2 * h && |metrics| == h && Tracks(kept, exact, off)
    ensures Paths(h, kept, metrics) == Paths(h, exact, metrics)
    ensures forall r :: 0 <= r < 2 * h ==> AcsSum(h, kept, metrics, r) == AcsSum(h, exact, metrics, r) - off
    ensures Offset(Stored(h, kept, metrics), Exact(h, exact, metrics), off)
  {
    forall r | 0 <= r < 2 * h
      ensures AcsSum(h, kept, metrics, r) == AcsSum(h, exact, metrics, r) - off
      ensures AcsPath(h, kept, metrics, r) == AcsPath(h, exact, metrics, r)
    {
      assert Cand(h, kept, metrics, r, 0) == Cand(h, exact, metrics, r, 0) - off;
      assert Cand(h, kept, metrics, r, 1) == Cand(h, exact, metrics, r, 1) - off;
    }
    assert Paths(h, kept, metrics) == Paths(h, exact, metrics);
  }

  /** 16-bit images of the exact sums less an offset. */
  ghost predicate Offset(stored: seq<int>, next: seq<int>, off: int) {
    |stored| == |next| && forall r :: 0 <= r < |stored| ==> stored[r] == Wrap16(next[r] - off)
  }

  /** A step without normalisation is exact if every new sum fits. */
  lemma PlainStep(stored: seq<int>, next: seq<int>, off: int)
    requires Offset(stored, next, off) && Within(next, off - 32768, off + 32767)
    ensures Tracks(stored, next, off)
  {
  }

  lemma WrapDifference(a: int, b: int)
    requires -32767 <= a - b <= 32767
    ensures Wrap16(Wrap16(a) - Wrap16(b)) == a - b
  {
  }

  /** A step with normalisation is exact if the new sums lie close together, even when storing them wraps:
      the subtraction wraps back. If nothing wrapped, the smallest sum becomes 0. */
  lemma {:induction false} NormStep(stored: seq<int>, next: seq<int>, off: int) returns (k: nat)
    requires |stored| > 0 && Offset(stored, next, off) && Spread(next, 32767)
    ensures k < |next| && Tracks(Normalised(stored), next, next[k])
    ensures Within(next, off, off + 32767) ==> next[k] == Min(next)
  {
    MinLeast(stored);
    k :| 0 <= k < |stored| && stored[k] == Min(stored);
    NormTracks(stored, next, off, k);
    if Within(next, off, off + 32767) {
      PlainStep(stored, next, off);
      SameMinimum(stored, next, off, k);
    }
  }

  lemma {:induction false} NormTracks(stored: seq<int>, next: seq<int>, off: int, k: nat)
    requires k < |stored| && Offset(stored, next, off) && Spread(next, 32767) && stored[k] == Min(stored)
    ensures Tracks(Normalised(stored), next, next[k])
  {
    forall r | 0 <= r < |stored|
      ensures Normalised(stored)[r] == next[r] - next[k]
    {
      assert next[r] - next[k] <= 32767 && next[k] - next[r] <= 32767;
      WrapDifference(next[r] - off, next[k] - off);
    }
  }

  lemma {:induction false} SameMinimum(stored: seq<int>, next: seq<int>, off: int, k: nat)
    requires k < |stored| == |next| && forall r :: 0 <= r < |stored| ==> stored[r] == next[r] - off
    requires stored[k] == Min(stored)
    ensures next[k] == Min(next)
  {
    MinLeast(stored);
    MinLeast(next);
    var r :| 0 <= r < |next| && next[r] == Min(next);
    assert stored[k] <= stored[r];
  }

  function Lesser(a: nat, b: nat): nat {
    if a < b then a else b
  }

  /** Room for the sums between normalisations: start sums up to `b`, metrics up to `d`, `t` steps. The
      stores of the normalising steps themselves need no room. */
  ghost predicate Room(k: nat, intrvl: nat, d: nat, b: nat, t: nat) {
    && 1 <= k <= intrvl
    && b + Times(d, Lesser(intrvl, t)) <= 32767
    && (t > intrvl ==> 2 * Times(d, k) + Times(d, Lesser(intrvl - 1, t - 1 - intrvl)) <= 32767)
  }

  /** Room for every store, also those of the normalising steps, in a run of any length. */
  ghost predicate FullRoom(k: nat, intrvl: nat, d: nat, b: nat) {
    && 1 <= k <= intrvl
    && b + Times(d, intrvl + 1) <= 32767
    && 2 * Times(d, k) + Times(d, intrvl) <= 32767
  }

  lemma {:induction false} PhaseIsMod(n: nat, i: nat)
    requires n > 0
    ensures Phase(n, i) == i % n
  {
    if i == 0 {
      SmallMod(0, n);
    } else {
      PhaseIsMod(n, i - 1);
      ModStep(i - 1, n);
    }
  }

  lemma {:induction false} ModStep(i: nat, n: nat)
    requires n > 0
    ensures (i + 1) % n == if i % n + 1 == n then 0 else i % n + 1
  {
    var q, r := i / n, i % n;
    assert i == q * n + r;
    if r + 1 == n {
      assert (q + 1) * n == q * n + n;
      ModUnique(i + 1, n, q + 1, 0);
    } else {
      ModUnique(i + 1, n, q, r + 1);
    }
  }

  lemma {:induction false} PhaseZero(n: nat, i: nat)
    requires n > 0 && Phase(n, i) == 0
    ensures i == 0 || i >= n
  {
    if i > 0 {
      assert Phase(n, i - 1) + 1 == n;
    }
  }

  /** The sums just after the last normalisation before time i, at time j, lie in a window of width w. */
  function Window(k: nat, d: nat, b: nat, j: nat): int {
    if j <= 1 then b + d else 2 * Times(d, k)
  }

  /** The set-up shared by the lemmas below. */
  ghost predicate Setup(k: nat, h: nat, ms: seq<seq<int>>, intrvl: nat, sums: seq<int>, d: nat, b: nat) {
    && 1 <= k <= intrvl && h == Pow2(k - 1) && |sums| == 2 * h
    && Rows(h, ms) && Bounded(ms, d) && Within(sums, 0, b)
  }

  /** Width of the window at a normalisation. */
  lemma {:induction false} WindowAt(k: nat, h: nat, ms: seq<seq<int>>, intrvl: nat, sums: seq<int>, d: nat, b: nat,
                                    j: nat)
    requires Setup(k, h, ms, intrvl, sums, d, b) && 1 <= j <= |ms| && (j == 1 || j > intrvl)
    ensures Spread(ExactSums(h, ms, sums, j), Window(k, d, b, j))
  {
    if j == 1 {
      RunRange(h, ms, sums, d, 0, 1, 0, b);
      assert Within(ExactSums(h, ms, sums, 1), 0, b + d);
    } else {
      SpreadBound(k, h, ms, sums, d, j - k);
    }
  }

  /** Sums u steps after a normalisation, relative to any sum at the normalisation. */
  lemma {:induction false} AfterWindow(k: nat, h: nat, ms: seq<seq<int>>, intrvl: nat, sums: seq<int>, d: nat, b: nat,
                                       j: nat, u: nat, kk: nat)
    requires Setup(k, h, ms, intrvl, sums, d, b) && 1 <= j && j + u <= |ms| && (j == 1 || j > intrvl) && kk < 2 * h
    ensures var off, w := ExactSums(h, ms, sums, j)[kk], Window(k, d, b, j);
            Within(ExactSums(h, ms, sums, j + u), off - w, off + w + Times(d, u))
    ensures var lo := Min(ExactSums(h, ms, sums, j));
            Within(ExactSums(h, ms, sums, j + u), lo, lo + Window(k, d, b, j) + Times(d, u))
  {
    var at, w := ExactSums(h, ms, sums, j), Window(k, d, b, j);
    WindowAt(k, h, ms, intrvl, sums, d, b, j);
    MinLeast(at);
    RunRange(h, ms, sums, d, j, u, at[kk] - w, at[kk] + w);
    RunRange(h, ms, sums, d, j, u, Min(at), Min(at) + w);
  }

  /** At time i the offset is the exact sum of state kk at time j, just after the last normalisation;
      with full room it is the smallest sum of that time. */
  ghost predicate Anchored(k: nat, h: nat, ms: seq<seq<int>>, intrvl: nat, sums: seq<int>, d: nat, b: nat,
                           i: nat, off: int, j: nat, kk: nat)
    requires Setup(k, h, ms, intrvl, sums, d, b) && i <= |ms|
  {
    if i == 0 then off == 0
    else
      && 1 <= j <= i && (j == 1 || j > intrvl) && i - j == Phase(intrvl, i - 1)
      && kk < 2 * h && off == ExactSums(h, ms, sums, j)[kk]
      && (FullRoom(k, intrvl, d, b) ==> off == Min(ExactSums(h, ms, sums, j)))
  }

  /** Exactness over a whole run: the kept sums are the exact ones less an offset. */
  lemma {:induction false} ExactRun(k: nat, h: nat, ms: seq<seq<int>>, intrvl: nat, sums: seq<int>, d: nat, b: nat,
                                    i: nat)
    returns (off: int, j: nat, kk: nat)
    requires Setup(k, h, ms, intrvl, sums, d, b) && Room(k, intrvl, d, b, |ms|) && i <= |ms|
    ensures Tracks(KeptSums(h, ms, intrvl, sums, i), ExactSums(h, ms, sums, i), off)
    ensures Anchored(k, h, ms, intrvl, sums, d, b, i, off, j, kk)
    decreases i
  {
    if i == 0 {
      off, j, kk := 0, 0, 0;
    } else {
      off, j, kk := ExactRun(k, h, ms, intrvl, sums, d, b, i - 1);
      SameDecisions(h, KeptSums(h, ms, intrvl, sums, i - 1), ExactSums(h, ms, sums, i - 1), off, ms[i - 1]);
      var stored, next := Stored(h, KeptSums(h, ms, intrvl, sums, i - 1), ms[i - 1]), ExactSums(h, ms, sums, i);
      if Phase(intrvl, i - 1) == 0 {
        NormHere(k, h, ms, intrvl, sums, d, b, i, off, j, kk);
        kk := NormStep(stored, next, off);
        j, off := i, next[kk];
      } else {
        PlainHere(k, h, ms, intrvl, sums, d, b, i, off, j, kk);
        PlainStep(stored, next, off);
      }
    }
  }

  lemma {:induction false} WindowFits(k: nat, intrvl: nat, d: nat, b: nat, t: nat, i: nat)
    requires Room(k, intrvl, d, b, t) && 1 <= i <= t && (i == 1 || i > intrvl)
    ensures Window(k, d, b, i) <= 32767
  {
    TimesMono(d, 1, Lesser(intrvl, t));
  }

  lemma SpreadMono(s: seq<int>, w: int, w': int)
    requires Spread(s, w) && w <= w'
    ensures Spread(s, w')
  {
  }

  lemma {:induction false} NormHere(k: nat, h: nat, ms: seq<seq<int>>, intrvl: nat, sums: seq<int>, d: nat, b: nat,
                                    i: nat, off: int, j: nat, kk: nat)
    requires Setup(k, h, ms, intrvl, sums, d, b) && Room(k, intrvl, d, b, |ms|) && 1 <= i <= |ms|
    requires Phase(intrvl, i - 1) == 0 && Anchored(k, h, ms, intrvl, sums, d, b, i - 1, off, j, kk)
    ensures i == 1 || i > intrvl
    ensures Spread(ExactSums(h, ms, sums, i), 32767)
    ensures FullRoom(k, intrvl, d, b) ==> Within(ExactSums(h, ms, sums, i), off, off + 32767)
  {
    PhaseZero(intrvl, i - 1);
    WindowAt(k, h, ms, intrvl, sums, d, b, i);
    WindowFits(k, intrvl, d, b, |ms|, i);
    SpreadMono(ExactSums(h, ms, sums, i), Window(k, d, b, i), 32767);
    if FullRoom(k, intrvl, d, b) {
      StoreRange(k, h, ms, intrvl, sums, d, b, i - 1, off, j, kk);
    }
  }

  lemma {:induction false} PlainHere(k: nat, h: nat, ms: seq<seq<int>>, intrvl: nat, sums: seq<int>, d: nat, b: nat,
                                     i: nat, off: int, j: nat, kk: nat)
    requires Setup(k, h, ms, intrvl, sums, d, b) && Room(k, intrvl, d, b, |ms|) && 1 <= i <= |ms|
    requires Phase(intrvl, i - 1) != 0 && Anchored(k, h, ms, intrvl, sums, d, b, i - 1, off, j, kk)
    ensures i >= 2 && i - j == Phase(intrvl, i - 1)
    ensures Within(ExactSums(h, ms, sums, i), off - 32768, off + 32767)
  {
    AfterWindow(k, h, ms, intrvl, sums, d, b, j, i - j, kk);
    if j == 1 {
      TimesMono(d, i, Lesser(intrvl, |ms|));
    } else {
      TimesMono(d, i - j, Lesser(intrvl - 1, |ms| - 1 - intrvl));
    }
  }

  lemma {:induction false} FullRoomIsRoom(k: nat, intrvl: nat, d: nat, b: nat, t: nat)
    requires FullRoom(k, intrvl, d, b)
    ensures Room(k, intrvl, d, b, t)
  {
    TimesMono(d, Lesser(intrvl, t), intrvl + 1);
    if t > intrvl {
      TimesMono(d, Lesser(intrvl - 1, t - 1 - intrvl), intrvl);
    }
  }

  lemma {:induction false} StoreRange(k: nat, h: nat, ms: seq<seq<int>>, intrvl: nat, sums: seq<int>, d: nat, b: nat,
                                      i: nat, off: int, j: nat, kk: nat)
    requires Setup(k, h, ms, intrvl, sums, d, b) && FullRoom(k, intrvl, d, b) && i < |ms|
    requires Anchored(k, h, ms, intrvl, sums, d, b, i, off, j, kk)
    ensures Within(ExactSums(h, ms, sums, i + 1), off, off + 32767)
  {
    if i == 0 {
      FirstRange(h, ms, sums, d, b, intrvl);
    } else {
      AfterWindow(k, h, ms, intrvl, sums, d, b, j, i + 1 - j, kk);
      TimesMono(d, i + 1 - j, intrvl);
    }
  }

  lemma {:induction false} FirstRange(h: nat, ms: seq<seq<int>>, sums: seq<int>, d: nat, b: nat, intrvl: nat)
    requires h > 0 && |sums| == 2 * h && Rows(h, ms) && Bounded(ms, d) && |ms| >= 1 && Within(sums, 0, b)
    ensures Within(ExactSums(h, ms, sums, 1), 0, b + Times(d, intrvl + 1))
  {
    RunRange(h, ms, sums, d, 0, 1, 0, b);
    TimesMono(d, 1, intrvl + 1);
  }

  /** No store overflows: with full room every new sum, before normalisation too, lies in 0..32767, for
      inputs of any length. */
  lemma {:induction false} NoOverflow(k: nat, h: nat, ms: seq<seq<int>>, intrvl: nat, sums: seq<int>, d: nat, b: nat,
                                      i: nat, r: nat)
    requires Setup(k, h, ms, intrvl, sums, d, b) && FullRoom(k, intrvl, d, b) && i < |ms| && r < 2 * h
    ensures 0 <= AcsSum(h, KeptSums(h, ms, intrvl, sums, i), ms[i], r) <= 32767
  {
    FullRoomIsRoom(k, intrvl, d, b, |ms|);
    var off, j, kk := ExactRun(k, h, ms, intrvl, sums, d, b, i);
    SameDecisions(h, KeptSums(h, ms, intrvl, sums, i), ExactSums(h, ms, sums, i), off, ms[i]);
    StoreRange(k, h, ms, intrvl, sums, d, b, i, off, j, kk);
    assert ExactSums(h, ms, sums, i + 1)[r] == AcsSum(h, ExactSums(h, ms, sums, i), ms[i], r);
  }
}
