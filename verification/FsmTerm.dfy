/** Termination of a tree of FSM instances when the callbacks do not re-enter it: src/core/fsm.c, _osmo_fsm_inst_term
    and _osmo_fsm_inst_term_children. */
module FsmTerm {
  import opened Bits
  import opened FsmCascade

  // ---------------------------------------------------------------------------
  // Trees of instances

  datatype Tree = Tree(id: Inst, kids: seq<Tree>)

  /** The first `n` children of `t` with everything below them, children before parents. */
  function KidsOrder(t: Tree, n: nat): seq<Inst>
    requires n <= |t.kids|
    decreases t, n
  {
    if n == 0 then [] else KidsOrder(t, n - 1) + PostOrder(t.kids[n - 1])
  }

  function PostOrder(t: Tree): seq<Inst>
    decreases t, |t.kids| + 1
  {
    KidsOrder(t, |t.kids|) + [t.id]
  }

  ghost predicate Distinct(list: seq<Inst>) {
    forall i, j :: 0 <= i < j < |list| ==> list[i] != list[j]
  }

  /** The lists of children and the parent pointers below `t` are those of the tree. */
  ghost predicate Matches(children: map<Inst, seq<Inst>>, parent: map<Inst, Inst>, t: Tree)
    decreases t
  {
    && t.id in children && |children[t.id]| == |t.kids|
    && forall i :: 0 <= i < |t.kids| ==>
         && children[t.id][i] == t.kids[i].id
         && t.kids[i].id in parent && parent[t.kids[i].id] == t.id
         && Matches(children, parent, t.kids[i])
  }

  lemma {:induction false} RootIn(t: Tree)
    ensures t.id in PostOrder(t)
  {
    assert PostOrder(t)[|PostOrder(t)| - 1] == t.id;
  }

  lemma {:induction false} KidIn(t: Tree, n: nat, i: nat, x: Inst)
    requires i < n <= |t.kids| && x in PostOrder(t.kids[i])
    ensures x in KidsOrder(t, n)
    decreases n
  {
    if i < n - 1 {
      KidIn(t, n - 1, i, x);
    }
  }

  /** A tree depends only on the lists of its own instances. */
  lemma {:induction false} MatchesFrame(c: map<Inst, seq<Inst>>, c': map<Inst, seq<Inst>>, parent: map<Inst, Inst>,
                                        t: Tree)
    requires Matches(c, parent, t) && forall x :: x in PostOrder(t) && x in c ==> x in c' && c'[x] == c[x]
    ensures Matches(c', parent, t)
    decreases t
  {
    RootIn(t);
    forall i | 0 <= i < |t.kids|
      ensures Matches(c', parent, t.kids[i])
    {
      forall x | x in PostOrder(t.kids[i])
        ensures x in PostOrder(t)
      {
        KidIn(t, |t.kids|, i, x);
      }
      MatchesFrame(c, c', parent, t.kids[i]);
    }
  }

  /** Splits a list without repetitions. */
  lemma {:induction false} DistinctSplit(a: seq<Inst>, b: seq<Inst>)
    requires Distinct(a + b)
    ensures Distinct(a) && Distinct(b) && forall x :: x in a ==> x !in b
  {
    forall i, j | 0 <= i < j < |b|
      ensures b[i] != b[j]
    {
      assert (a + b)[|a| + i] != (a + b)[|a| + j];
    }
    forall x | x in a
      ensures x !in b
    {
      var i :| 0 <= i < |a| && a[i] == x;
      forall j | 0 <= j < |b|
        ensures b[j] != x
      {
        assert (a + b)[i] != (a + b)[|a| + j];
      }
    }
    forall i, j | 0 <= i < j < |a|
      ensures a[i] != a[j]
    {
      assert (a + b)[i] != (a + b)[j];
    }
  }

  lemma {:induction false} KidsDistinct(t: Tree, m: nat, n: nat)
    requires m <= n <= |t.kids| && Distinct(KidsOrder(t, n))
    ensures Distinct(KidsOrder(t, m))
    decreases n
  {
    if m == n {
    } else {
      DistinctSplit(KidsOrder(t, n - 1), PostOrder(t.kids[n - 1]));
      KidsDistinct(t, m, n - 1);
    }
  }

  /** Child `n` is disjoint from the children before it and from the root. */
  lemma {:induction false} KidApart(t: Tree, n: nat)
    requires n < |t.kids| && Distinct(PostOrder(t))
    ensures Distinct(PostOrder(t.kids[n])) && t.id !in PostOrder(t.kids[n]) && t.id !in KidsOrder(t, n)
    ensures forall x :: x in KidsOrder(t, n) ==> x !in PostOrder(t.kids[n])
  {
    DistinctSplit(KidsOrder(t, |t.kids|), [t.id]);
    KidsDistinct(t, n + 1, |t.kids|);
    DistinctSplit(KidsOrder(t, n), PostOrder(t.kids[n]));
    assert t.id !in KidsOrder(t, |t.kids|);
    if t.id in PostOrder(t.kids[n]) {
      KidIn(t, |t.kids|, n, t.id);
    }
    KidsPrefix(t, n, |t.kids|);
  }

  lemma {:induction false} KidsPrefix(t: Tree, m: nat, n: nat)
    requires m <= n <= |t.kids|
    ensures KidsOrder(t, m) <= KidsOrder(t, n)
    decreases n
  {
    if m == n {
    } else {
      KidsPrefix(t, m, n - 1);
    }
  }

  /** Two children are disjoint. */
  lemma {:induction false} SiblingsApart(t: Tree, i: nat, j: nat)
    requires i < j < |t.kids| && Distinct(PostOrder(t))
    ensures forall x :: x in PostOrder(t.kids[i]) ==> x !in PostOrder(t.kids[j])
  {
    KidApart(t, j);
    forall x | x in PostOrder(t.kids[i])
      ensures x !in PostOrder(t.kids[j])
    {
      KidIn(t, j, i, x);
    }
  }

  lemma {:induction false} InSomeKid(t: Tree, n: nat, x: Inst) returns (i: nat)
    requires n <= |t.kids| && x in KidsOrder(t, n)
    ensures i < n && x in PostOrder(t.kids[i])
    decreases n
  {
    if x in PostOrder(t.kids[n - 1]) {
      i := n - 1;
    } else {
      i := InSomeKid(t, n - 1, x);
    }
  }

  /** Below the root, an instance's parent is in the tree too. */
  lemma {:induction false} ParentInTree(c: map<Inst, seq<Inst>>, parent: map<Inst, Inst>, t: Tree, x: Inst)
    requires Matches(c, parent, t) && x in PostOrder(t) && x != t.id
    ensures x in parent && parent[x] in PostOrder(t)
    decreases t
  {
    var i := InSomeKid(t, |t.kids|, x);
    var kid := t.kids[i];
    if x == kid.id {
      RootIn(t);
    } else {
      ParentInTree(c, parent, kid, x);
      KidIn(t, |t.kids|, i, parent[x]);
    }
  }

  /** Position `i` holds `x`, a later one holds `y`. */
  ghost predicate Before(list: seq<Inst>, x: Inst, y: Inst) {
    exists i, j :: 0 <= i < j < |list| && list[i] == x && list[j] == y
  }

  /** Every instance comes before its parent. */
  lemma {:induction false} ChildrenFirst(c: map<Inst, seq<Inst>>, parent: map<Inst, Inst>, t: Tree, x: Inst)
    requires Matches(c, parent, t) && Distinct(PostOrder(t)) && x in PostOrder(t) && x != t.id
    ensures x in parent && Before(PostOrder(t), x, parent[x])
    decreases t
  {
    var i := InSomeKid(t, |t.kids|, x);
    var kid, list := t.kids[i], PostOrder(t);
    if x == kid.id {
      var k :| 0 <= k < |list| && list[k] == x;
      assert list[|list| - 1] == t.id;
    } else {
      KidApart(t, i);
      ChildrenFirst(c, parent, kid, x);
      var a, b :| 0 <= a < b < |PostOrder(kid)| && PostOrder(kid)[a] == x && PostOrder(kid)[b] == parent[x];
      KidsPrefix(t, i + 1, |t.kids|);
      var k := |KidsOrder(t, i)|;
      assert KidsOrder(t, i + 1)[k + a] == x && KidsOrder(t, i + 1)[k + b] == parent[x];
      assert list[k + a] == x && list[k + b] == parent[x];
    }
  }

  // ---------------------------------------------------------------------------
  // Acyclic forests are such trees

  ghost predicate Ranked(c: map<Inst, seq<Inst>>, parent: map<Inst, Inst>, rank: map<Inst, nat>, p: Inst, x: Inst)
    requires p in rank
  {
    x in c && x in parent && parent[x] == p && x in rank && rank[x] < rank[p]
  }

  /** Lists of children without repetitions that agree with the parent pointers, and no cycle: every child ranks below
      its parent. */
  ghost predicate Acyclic(c: map<Inst, seq<Inst>>, parent: map<Inst, Inst>, rank: map<Inst, nat>) {
    forall p :: p in c ==>
      && p in rank && Distinct(c[p])
      && forall i :: 0 <= i < |c[p]| ==> Ranked(c, parent, rank, p, c[p][i])
  }

  lemma {:induction false} RankBelow(c: map<Inst, seq<Inst>>, parent: map<Inst, Inst>, rank: map<Inst, nat>, t: Tree,
                                     x: Inst)
    requires Acyclic(c, parent, rank) && Matches(c, parent, t) && x in PostOrder(t)
    ensures x in rank && rank[x] <= rank[t.id] &&
            (x != t.id ==> x in parent && parent[x] in rank && rank[x] < rank[parent[x]])
    decreases t
  {
    if x != t.id {
      var i := InSomeKid(t, |t.kids|, x);
      assert c[t.id][i] == t.kids[i].id;
      RankBelow(c, parent, rank, t.kids[i], x);
    }
  }

  lemma {:induction false} NoCommon(c: map<Inst, seq<Inst>>, parent: map<Inst, Inst>, rank: map<Inst, nat>, t: Tree,
                                    i: nat, j: nat, x: Inst, up: nat)
    requires Acyclic(c, parent, rank) && Matches(c, parent, t) && i < |t.kids| && j < |t.kids| && i != j
    requires x in PostOrder(t.kids[i]) && x in PostOrder(t.kids[j]) && x in rank && rank[x] + up == rank[t.id]
    ensures false
    decreases up
  {
    var a, b := t.kids[i], t.kids[j];
    assert c[t.id][i] == a.id && c[t.id][j] == b.id && a.id != b.id;
    RankBelow(c, parent, rank, a, x);
    RankBelow(c, parent, rank, b, x);
    if x == a.id {
      ParentInTree(c, parent, b, x);
      RankBelow(c, parent, rank, b, t.id);
    } else if x == b.id {
      ParentInTree(c, parent, a, x);
      RankBelow(c, parent, rank, a, t.id);
    } else {
      ParentInTree(c, parent, a, x);
      ParentInTree(c, parent, b, x);
      RankBelow(c, parent, rank, a, parent[x]);
      NoCommon(c, parent, rank, t, i, j, parent[x], rank[t.id] - rank[parent[x]]);
    }
  }

  lemma {:induction false} DistinctJoin(a: seq<Inst>, b: seq<Inst>)
    requires Distinct(a) && Distinct(b) && forall x :: x in a ==> x !in b
    ensures Distinct(a + b)
  {
    var s := a + b;
    forall i, j | 0 <= i < j < |s|
      ensures s[i] != s[j]
    {
      if i < |a| <= j {
        assert s[i] in a && s[j] == b[j - |a|];
      }
    }
  }

  lemma {:induction false} DistinctKids(c: map<Inst, seq<Inst>>, parent: map<Inst, Inst>, rank: map<Inst, nat>, t: Tree,
                                        n: nat)
    requires Acyclic(c, parent, rank) && Matches(c, parent, t) && n <= |t.kids|
    requires forall i :: 0 <= i < |t.kids| ==> Distinct(PostOrder(t.kids[i]))
    ensures Distinct(KidsOrder(t, n))
    decreases n
  {
    if n == 0 {
    } else {
      DistinctKids(c, parent, rank, t, n - 1);
      var kids, last := KidsOrder(t, n - 1), PostOrder(t.kids[n - 1]);
      forall x | x in kids
        ensures x !in last
      {
        if x in last {
          var i := InSomeKid(t, n - 1, x);
          RankBelow(c, parent, rank, t.kids[i], x);
          NoCommon(c, parent, rank, t, i, n - 1, x, rank[t.id] - rank[x]);
        }
      }
      DistinctJoin(kids, last);
    }
  }

  /** Everything below an instance of an acyclic forest is a tree, with no instance twice. */
  lemma {:induction false} AcyclicTree(c: map<Inst, seq<Inst>>, parent: map<Inst, Inst>, rank: map<Inst, nat>,
                                       fi: Inst) returns (t: Tree)
    requires Acyclic(c, parent, rank) && fi in c
    ensures t.id == fi && Matches(c, parent, t) && Distinct(PostOrder(t))
    decreases rank[fi], 1
  {
    var kids := AcyclicKids(c, parent, rank, fi, |c[fi]|);
    t := Tree(fi, kids);
    DistinctKids(c, parent, rank, t, |kids|);
    forall x | x in KidsOrder(t, |kids|)
      ensures x != fi
    {
      var i := InSomeKid(t, |kids|, x);
      RankBelow(c, parent, rank, kids[i], x);
    }
    DistinctJoin(KidsOrder(t, |kids|), [fi]);
  }

  lemma {:induction false} AcyclicKids(c: map<Inst, seq<Inst>>, parent: map<Inst, Inst>, rank: map<Inst, nat>, fi: Inst,
                                       n: nat) returns (kids: seq<Tree>)
    requires Acyclic(c, parent, rank) && fi in c && n <= |c[fi]|
    ensures |kids| == n && forall i :: 0 <= i < n ==>
            kids[i].id == c[fi][i] && Matches(c, parent, kids[i]) && Distinct(PostOrder(kids[i]))
    decreases rank[fi], 0, n
  {
    kids := [];
    if n == 0 {
    } else {
      kids := AcyclicKids(c, parent, rank, fi, n - 1);
      var kid := AcyclicTree(c, parent, rank, c[fi][n - 1]);
      kids := kids + [kid];
    }
  }

  // ---------------------------------------------------------------------------
  // What a termination leaves behind

  /** The lists after the first `n` children of `t` are gone. */
  ghost predicate KidsCut(c: map<Inst, seq<Inst>>, c': map<Inst, seq<Inst>>, t: Tree, n: nat)
    requires n <= |t.kids|
  {
    && c'.Keys == c.Keys
    && (t.id in c ==> n <= |c[t.id]| && c'[t.id] == c[t.id][n..])
    && forall x :: x in c && x != t.id ==> c'[x] == if x in KidsOrder(t, n) then [] else c[x]
  }

  /** The lists after all of `t` is gone: its own are empty, and its parent's list is without it. */
  ghost predicate TreeCut(c: map<Inst, seq<Inst>>, c': map<Inst, seq<Inst>>, parent: map<Inst, Inst>, t: Tree) {
    && c'.Keys == c.Keys
    && forall x :: x in c ==>
         c'[x] == if x in PostOrder(t) then []
                  else if t.id in parent && parent[t.id] == x then Without(c[x], t.id)
                  else c[x]
  }

  /** An instance taken from its parent's list. */
  function Detached(c: map<Inst, seq<Inst>>, parent: map<Inst, Inst>, fi: Inst): map<Inst, seq<Inst>> {
    if fi in parent && parent[fi] in c then c[parent[fi] := Without(c[parent[fi]], fi)] else c
  }

  lemma {:induction false} WithoutFirst(list: seq<Inst>)
    requires list != [] && Distinct(list)
    ensures Without(list, list[0]) == list[1..]
  {
    WithoutOther(list[1..], list[0]);
  }

  lemma {:induction false} WithoutOther(list: seq<Inst>, fi: Inst)
    requires fi !in list
    ensures Without(list, fi) == list
  {
    if list == [] {
    } else {
      WithoutOther(list[1..], fi);
    }
  }

  lemma {:induction false} KidsCutNone(c: map<Inst, seq<Inst>>, t: Tree)
    ensures KidsCut(c, c, t, 0)
  {
    if t.id in c {
      assert c[t.id][0..] == c[t.id];
    }
  }

  lemma {:induction false} KidIdsDistinct(c: map<Inst, seq<Inst>>, parent: map<Inst, Inst>, t: Tree)
    requires Matches(c, parent, t) && Distinct(PostOrder(t))
    ensures Distinct(c[t.id])
  {
    forall i, j | 0 <= i < j < |t.kids|
      ensures t.kids[i].id != t.kids[j].id
    {
      SiblingsApart(t, i, j);
      RootIn(t.kids[i]);
      RootIn(t.kids[j]);
    }
  }

  /** One more child gone. */
  lemma {:induction false} KidsCutMore(c: map<Inst, seq<Inst>>, c1: map<Inst, seq<Inst>>, c2: map<Inst, seq<Inst>>,
                                       parent: map<Inst, Inst>, t: Tree, n: nat)
    requires n < |t.kids| && Matches(c, parent, t) && Distinct(PostOrder(t))
    requires KidsCut(c, c1, t, n) && TreeCut(c1, c2, parent, t.kids[n])
    ensures KidsCut(c, c2, t, n + 1)
  {
    ListCut(c, c1, c2, parent, t, n);
    var kid := t.kids[n];
    KidApart(t, n);
    forall x | x in c && x != t.id
      ensures c2[x] == if x in KidsOrder(t, n + 1) then [] else c[x]
    {
      assert x in KidsOrder(t, n + 1) <==> x in KidsOrder(t, n) || x in PostOrder(kid);
    }
  }

  lemma {:induction false} ListCut(c: map<Inst, seq<Inst>>, c1: map<Inst, seq<Inst>>, c2: map<Inst, seq<Inst>>,
                                   parent: map<Inst, Inst>, t: Tree, n: nat)
    requires n < |t.kids| && Matches(c, parent, t) && Distinct(PostOrder(t))
    requires KidsCut(c, c1, t, n) && TreeCut(c1, c2, parent, t.kids[n])
    ensures n + 1 <= |c[t.id]| && t.id in c2 && c2[t.id] == c[t.id][n + 1..]
  {
    KidApart(t, n);
    KidIdsDistinct(c, parent, t);
    TailWithout(c[t.id], n);
  }

  lemma {:induction false} TailWithout(list: seq<Inst>, n: nat)
    requires n < |list| && Distinct(list)
    ensures Without(list[n..], list[n]) == list[n + 1..]
  {
    DistinctSplit(list[..n], list[n..]);
    assert list[..n] + list[n..] == list;
    WithoutFirst(list[n..]);
  }

  /** The children still to come are as they were. */
  lemma {:induction false} NextKidMatches(c: map<Inst, seq<Inst>>, c1: map<Inst, seq<Inst>>, parent: map<Inst, Inst>,
                                          t: Tree, n: nat)
    requires n < |t.kids| && Matches(c, parent, t) && Distinct(PostOrder(t)) && KidsCut(c, c1, t, n)
    ensures Matches(c1, parent, t.kids[n])
  {
    KidApart(t, n);
    MatchesFrame(c, c1, parent, t.kids[n]);
  }

  /** All children gone, then the root taken from its parent's list. */
  lemma {:induction false} RootCut(c: map<Inst, seq<Inst>>, c1: map<Inst, seq<Inst>>, parent: map<Inst, Inst>, t: Tree)
    requires Matches(c, parent, t) && KidsCut(c, c1, t, |t.kids|) && Distinct(PostOrder(t))
    requires t.id in parent ==> parent[t.id] !in PostOrder(t)
    ensures TreeCut(c, Detached(c1, parent, t.id), parent, t)
  {
    DistinctSplit(KidsOrder(t, |t.kids|), [t.id]);
    RootIn(t);
  }

  // ---------------------------------------------------------------------------
  // The same for the whole state

  /** The fields of Instances. */
  datatype Snapshot = Snapshot(children: map<Inst, seq<Inst>>, parent: map<Inst, Inst>, terminating: set<Inst>,
                               enabled: bool, dealloc: Dealloc,
                               cleaned: seq<Inst>, freed: seq<Inst>, notified: seq<(Inst, Inst)>)

  /** The instances of `list` freed one after the other: collected in a cascade, else released. */
  function Freed(d: Dealloc, list: seq<Inst>): Dealloc {
    if d.depth > 0 then d.(collected := d.collected + list) else d.(released := d.released + list)
  }

  /** A whole termination: with the feature on, the outermost instance is released first and then those collected. */
  function FreedTree(enabled: bool, d: Dealloc, t: Tree): Dealloc {
    if enabled && d.depth == 0 then d.(released := d.released + [t.id] + KidsOrder(t, |t.kids|))
        else Freed(d, PostOrder(t))
  }

  /** `list` was cleaned up and freed in this order; parent pointers and switch are as before. */
  ghost predicate Handled(s: Snapshot, s': Snapshot, list: seq<Inst>) {
    && s'.parent == s.parent && s'.enabled == s.enabled
    && s'.terminating == s.terminating + (set x | x in list)
    && s'.cleaned == s.cleaned + list && s'.freed == s.freed + list
  }

  /** The first `n` children of `t` are gone, and nobody was notified. */
  ghost predicate KidsGone(s: Snapshot, s': Snapshot, t: Tree, n: nat)
    requires n <= |t.kids|
  {
    && KidsCut(s.children, s'.children, t, n) && Handled(s, s', KidsOrder(t, n))
    && s'.dealloc == Freed(s.dealloc, KidsOrder(t, n)) && s'.notified == s.notified
  }

  /** The event its parent gets when `fi` is gone. */
  function Events(s: Snapshot, fi: Inst, cause: Cause): seq<(Inst, Inst)> {
    if fi in s.parent && cause != ParentTerminated && s.parent[fi] !in s.terminating then [(s.parent[fi], fi)] else []
  }

  /** All of `t` is gone. */
  ghost predicate TreeGone(s: Snapshot, s': Snapshot, t: Tree, cause: Cause) {
    && TreeCut(s.children, s'.children, s.parent, t) && Handled(s, s', PostOrder(t))
    && s'.dealloc == FreedTree(s.enabled, s.dealloc, t) && s'.notified == s.notified + Events(s, t.id, cause)
  }

  /** The instances of `t` form a tree, with no instance twice, none of them terminating. */
  ghost predicate Intact(s: Snapshot, t: Tree) {
    && Matches(s.children, s.parent, t) && Distinct(PostOrder(t))
    && (forall x :: x in PostOrder(t) ==> x !in s.terminating)
    && (t.id in s.parent ==> s.parent[t.id] !in PostOrder(t))
  }

  /** The state in which the children of `t` are terminated. */
  ghost predicate KidsIntact(s: Snapshot, t: Tree) {
    && Matches(s.children, s.parent, t) && Distinct(PostOrder(t))
    && (forall x :: x in KidsOrder(t, |t.kids|) ==> x !in s.terminating)
    && (s.dealloc.depth == 0 ==> !s.enabled && s.dealloc.collected == [])
  }

  lemma {:induction false} HandledNone(s: Snapshot)
    ensures Handled(s, s, [])
  {
    assert s.cleaned + [] == s.cleaned && s.freed + [] == s.freed;
    assert s.terminating + (set x: Inst | x in []) == s.terminating;
  }

  lemma {:induction false} HandledMore(s: Snapshot, s1: Snapshot, s2: Snapshot, a: seq<Inst>, b: seq<Inst>)
    requires Handled(s, s1, a) && Handled(s1, s2, b)
    ensures Handled(s, s2, a + b)
  {
    assert s.cleaned + a + b == s.cleaned + (a + b) && s.freed + a + b == s.freed + (a + b);
    assert (set x | x in a + b) == (set x | x in a) + (set x | x in b);
  }

  lemma {:induction false} FreedMore(d: Dealloc, a: seq<Inst>, b: seq<Inst>)
    ensures Freed(Freed(d, a), b) == Freed(d, a + b)
  {
    assert d.collected + a + b == d.collected + (a + b) && d.released + a + b == d.released + (a + b);
  }

  lemma {:induction false} KidsGoneNone(s: Snapshot, t: Tree)
    ensures KidsGone(s, s, t, 0)
  {
    KidsCutNone(s.children, t);
    HandledNone(s);
    assert s.dealloc.collected + [] == s.dealloc.collected && s.dealloc.released + [] == s.dealloc.released;
  }

  lemma {:induction false} KidsGoneMore(s: Snapshot, s1: Snapshot, s2: Snapshot, t: Tree, n: nat)
    requires n < |t.kids| && KidsIntact(s, t) && KidsGone(s, s1, t, n) && TreeGone(s1, s2, t.kids[n], ParentTerminated)
    ensures KidsGone(s, s2, t, n + 1)
  {
    KidsCutMore(s.children, s1.children, s2.children, s.parent, t, n);
    HandledMore(s, s1, s2, KidsOrder(t, n), PostOrder(t.kids[n]));
    FreedMore(s.dealloc, KidsOrder(t, n), PostOrder(t.kids[n]));
  }

  /** The next child is at the head of the list, was not the last one seen, and is still a whole tree. */
  lemma {:induction false} NextKid(s: Snapshot, s1: Snapshot, t: Tree, n: nat)
    requires n <= |t.kids| && KidsIntact(s, t) && KidsGone(s, s1, t, n)
    ensures t.id in s1.children && |s1.children[t.id]| == |t.kids| - n
    ensures n < |t.kids| ==> s1.children[t.id][0] == t.kids[n].id && Intact(s1, t.kids[n])
    ensures 0 < n < |t.kids| ==> t.kids[n - 1].id != t.kids[n].id
    ensures s1.dealloc.depth == 0 ==> !s1.enabled && s1.dealloc.collected == []
  {
    if n < |t.kids| {
      KidIdsDistinct(s.children, s.parent, t);
      NextKidMatches(s.children, s1.children, s.parent, t, n);
      KidApart(t, n);
      forall x | x in PostOrder(t.kids[n])
        ensures x !in s1.terminating
      {
        KidIn(t, |t.kids|, n, x);
      }
    }
  }

  /** The depth around a call: incremented before the children, decremented before the last free. */
  function Entered(enabled: bool, d: Dealloc): Dealloc {
    if enabled || d.depth > 0 then d.(depth := d.depth + 1) else d
  }

  function Left(d: Dealloc, fi: Inst): Dealloc {
    if d.depth > 0 then Free(d.(depth := d.depth - 1), fi) else Free(d, fi)
  }

  lemma {:induction false} WholeFree(enabled: bool, d: Dealloc, t: Tree)
    requires d.depth == 0 ==> d.collected == []
    ensures Left(Freed(Entered(enabled, d), KidsOrder(t, |t.kids|)), t.id) == FreedTree(enabled, d, t)
  {
    var kids := KidsOrder(t, |t.kids|);
    assert [] + kids == kids && d.released + kids + [t.id] + [] == d.released + (kids + [t.id]);
    assert d.collected + kids + [t.id] == d.collected + (kids + [t.id]);
  }

  lemma {:induction false} WholeTree(s: Snapshot, s1: Snapshot, s2: Snapshot, t: Tree, cause: Cause)
    requires Intact(s, t) && (s.dealloc.depth == 0 ==> s.dealloc.collected == [])
    requires KidsGone(s.(terminating := s.terminating + {t.id}, dealloc := Entered(s.enabled, s.dealloc)), s1, t,
             |t.kids|)
    requires s2 == s1.(children := Detached(s1.children, s.parent, t.id),
                       cleaned := s1.cleaned + [t.id], freed := s1.freed + [t.id],
                       dealloc := Left(s1.dealloc, t.id), notified := s1.notified + Events(s, t.id, cause))
    ensures TreeGone(s, s2, t, cause)
  {
    RootCut(s.children, s1.children, s.parent, t);
    WholeFree(s.enabled, s.dealloc, t);
    RootLast(t, s.cleaned);
    RootLast(t, s.freed);
    assert s2.terminating == s.terminating + (set x | x in PostOrder(t));
  }

  lemma {:induction false} RootLast(t: Tree, list: seq<Inst>)
    ensures list + KidsOrder(t, |t.kids|) + [t.id] == list + PostOrder(t)
    ensures (set x | x in PostOrder(t)) == (set x | x in KidsOrder(t, |t.kids|)) + {t.id}
  {
    assert t.id in [t.id];
  }

  lemma {:induction false} KidsReady(s: Snapshot, t: Tree)
    requires Intact(s, t) && (s.dealloc.depth == 0 ==> s.dealloc.collected == [])
    ensures KidsIntact(s.(terminating := s.terminating + {t.id}, dealloc := Entered(s.enabled, s.dealloc)), t)
  {
    DistinctSplit(KidsOrder(t, |t.kids|), [t.id]);
    assert t.id in [t.id];
  }

  class Instances {
    var children: map<Inst, seq<Inst>>
    var parent: map<Inst, Inst>
    var terminating: set<Inst>
    var enabled: bool
    var dealloc: Dealloc
    /** What happened: calls of cleanup and of osmo_fsm_inst_free, and events to parents. */
    var cleaned: seq<Inst>
    var freed: seq<Inst>
    var notified: seq<(Inst, Inst)>

    constructor (children: map<Inst, seq<Inst>>, parent: map<Inst, Inst>, enabled: bool)
      ensures Snap() == Snapshot(children, parent, {}, enabled, Dealloc(0, [], []), [], [], [])
    {
      this.children, this.parent, this.enabled := children, parent, enabled;
      terminating, dealloc := {}, Dealloc(0, [], []);
      cleaned, freed, notified := [], [], [];
    }

    ghost function Snap(): Snapshot
      reads this
    {
      Snapshot(children, parent, terminating, enabled, dealloc, cleaned, freed, notified)
    }

    /** `osmo_fsm_inst_free`. */
    method FreeInst(fi: Inst)
      modifies this`dealloc, this`freed
      ensures dealloc == Free(old(dealloc), fi) && freed == old(freed) + [fi]
    {
      dealloc := Free(dealloc, fi);
      freed := freed + [fi];
    }

    /** `_osmo_fsm_inst_term_children`: the children go one by one, each with everything below it first. The loop is
        never left because "a child FSM is stuck". */
    method TermChildren(fi: Inst, ghost t: Tree) returns (stuck: bool)
      requires fi == t.id && KidsIntact(Snap(), t)
      modifies this
      ensures KidsGone(old(Snap()), Snap(), t, |t.kids|) && !stuck
      decreases t, 1
    {
      stuck := false;
      ghost var s, n := Snap(), 0;
      var last: Option<Inst> := None;
      KidsGoneNone(s, t);
      while fi in children && children[fi] != []
        invariant n <= |t.kids| && KidsGone(s, Snap(), t, n)
        invariant !stuck && last == if n == 0 then None else Some(t.kids[n - 1].id)
        decreases |t.kids| - n
      {
        NextKid(s, Snap(), t, n);
        var first := children[fi][0];
        if last == Some(first) {
          stuck := true;
          break;
        }
        last := Some(first);
        TermFirst(first, t, s, n);
        n := n + 1;
      }
      NextKid(s, Snap(), t, n);
    }

    method TermFirst(first: Inst, ghost t: Tree, ghost s: Snapshot, ghost n: nat)
      requires n < |t.kids| && KidsIntact(s, t) && KidsGone(s, Snap(), t, n) && first == t.kids[n].id
      modifies this
      ensures KidsGone(s, Snap(), t, n + 1)
      decreases t, 0
    {
      ghost var s1 := Snap();
      NextKid(s, s1, t, n);
      Term(first, ParentTerminated, t.kids[n]);
      KidsGoneMore(s, s1, Snap(), t, n);
    }

    /** `_osmo_fsm_inst_term`. */
    method Term(fi: Inst, cause: Cause, ghost t: Tree)
      requires fi == t.id && (fi in terminating || Intact(Snap(), t))
      requires dealloc.depth == 0 ==> dealloc.collected == []
      modifies this
      ensures if fi in old(terminating) then Snap() == old(Snap()) else TreeGone(old(Snap()), Snap(), t, cause)
      decreases t, 2
    {
      if fi in terminating {
        return;
      }
      ghost var s := Snap();
      KidsReady(s, t);
      terminating := terminating + {fi};
      if enabled || dealloc.depth > 0 {
        dealloc := dealloc.(depth := dealloc.depth + 1);
      }
      var stuck := TermChildren(fi, t);
      ghost var s1 := Snap();
      Finish(fi, cause);
      WholeTree(s, s1, Snap(), t, cause);
    }

    /** The part of _osmo_fsm_inst_term after the children are gone. */
    method Finish(fi: Inst, cause: Cause)
      modifies this
      ensures var s := old(Snap());
              Snap() == s.(children := Detached(s.children, s.parent, fi),
                           cleaned := s.cleaned + [fi], freed := s.freed + [fi], dealloc := Left(s.dealloc, fi),
                           notified := s.notified + Events(s, fi, cause))
    {
      if fi in parent && parent[fi] in children {
        children := children[parent[fi] := Without(children[parent[fi]], fi)];
      }
      cleaned := cleaned + [fi];
      if dealloc.depth == 0 {
        FreeInst(fi);
      }
      if fi in parent && cause != ParentTerminated && parent[fi] !in terminating {
        notified := notified + [(parent[fi], fi)];
      }
      if dealloc.depth > 0 {
        dealloc := dealloc.(depth := dealloc.depth - 1);
        FreeInst(fi);
      }
    }
  }

  // ---------------------------------------------------------------------------
  // Any acyclic forest

  /** `x` is `n` generations below `fi`. */
  ghost predicate Generation(c: map<Inst, seq<Inst>>, fi: Inst, x: Inst, n: nat)
    decreases n
  {
    if n == 0 then x == fi else exists p :: p in c && x in c[p] && Generation(c, fi, p, n - 1)
  }

  ghost predicate Descendant(c: map<Inst, seq<Inst>>, fi: Inst, x: Inst) {
    exists n: nat :: Generation(c, fi, x, n)
  }

  lemma {:induction false} ChildInTree(c: map<Inst, seq<Inst>>, parent: map<Inst, Inst>, t: Tree, p: Inst, x: Inst)
    requires Matches(c, parent, t) && p in PostOrder(t) && p in c && x in c[p]
    ensures x in PostOrder(t)
    decreases t
  {
    if p == t.id {
      var i :| 0 <= i < |c[p]| && c[p][i] == x;
      RootIn(t.kids[i]);
      KidIn(t, |t.kids|, i, x);
    } else {
      var i := InSomeKid(t, |t.kids|, p);
      ChildInTree(c, parent, t.kids[i], p, x);
      KidIn(t, |t.kids|, i, x);
    }
  }

  lemma {:induction false} GenerationInTree(c: map<Inst, seq<Inst>>, parent: map<Inst, Inst>, t: Tree, x: Inst, n: nat)
    requires Matches(c, parent, t) && Generation(c, t.id, x, n)
    ensures x in PostOrder(t)
    decreases n
  {
    if n == 0 {
      RootIn(t);
    } else {
      var p :| p in c && x in c[p] && Generation(c, t.id, p, n - 1);
      GenerationInTree(c, parent, t, p, n - 1);
      ChildInTree(c, parent, t, p, x);
    }
  }

  /** A generation below a child is one more below the root. */
  lemma {:induction false} OneMoreGeneration(c: map<Inst, seq<Inst>>, fi: Inst, kid: Inst, x: Inst, n: nat)
    requires fi in c && kid in c[fi] && Generation(c, kid, x, n)
    ensures Generation(c, fi, x, n + 1)
    decreases n
  {
    if n == 0 {
      assert Generation(c, fi, fi, 0);
    } else {
      var p :| p in c && x in c[p] && Generation(c, kid, p, n - 1);
      OneMoreGeneration(c, fi, kid, p, n - 1);
    }
  }

  lemma {:induction false} TreeDescends(c: map<Inst, seq<Inst>>, parent: map<Inst, Inst>, t: Tree, x: Inst)
    requires Matches(c, parent, t) && x in PostOrder(t)
    ensures Descendant(c, t.id, x)
    decreases t
  {
    if x == t.id {
      assert Generation(c, t.id, x, 0);
    } else {
      var i := InSomeKid(t, |t.kids|, x);
      TreeDescends(c, parent, t.kids[i], x);
      var n: nat :| Generation(c, t.kids[i].id, x, n);
      assert c[t.id][i] == t.kids[i].id;
      OneMoreGeneration(c, t.id, t.kids[i].id, x, n);
    }
  }

  /** The instances of a tree are the descendants of its root. */
  lemma {:induction false} TreeIsDescendants(c: map<Inst, seq<Inst>>, parent: map<Inst, Inst>, t: Tree, x: Inst)
    requires Matches(c, parent, t)
    ensures x in PostOrder(t) <==> Descendant(c, t.id, x)
  {
    if x in PostOrder(t) {
      TreeDescends(c, parent, t, x);
    }
    if Descendant(c, t.id, x) {
      var n: nat :| Generation(c, t.id, x, n);
      GenerationInTree(c, parent, t, x, n);
    }
  }

  lemma {:induction false} OrderIsDescendants(c: map<Inst, seq<Inst>>, parent: map<Inst, Inst>, t: Tree,
                                              list: seq<Inst>)
    requires Matches(c, parent, t) && Distinct(PostOrder(t)) && list == PostOrder(t)
    ensures forall x :: x in list <==> Descendant(c, t.id, x)
    ensures forall x :: x in list && x != t.id ==> x in parent && Before(list, x, parent[x])
  {
    forall x
      ensures x in list <==> Descendant(c, t.id, x)
    {
      TreeIsDescendants(c, parent, t, x);
    }
    forall x | x in list && x != t.id
      ensures x in parent && Before(list, x, parent[x])
    {
      ChildrenFirst(c, parent, t, x);
    }
  }

  lemma {:induction false} ReleasedAll(enabled: bool, t: Tree)
    ensures multiset(FreedTree(enabled, Dealloc(0, [], []), t).released) == multiset(PostOrder(t))
  {
    var kids := KidsOrder(t, |t.kids|);
    assert [] + [t.id] + kids == [t.id] + kids && [] + PostOrder(t) == PostOrder(t);
    assert multiset([t.id] + kids) == multiset(kids + [t.id]);
  }

  /** The instance of an acyclic forest that is to be terminated, with everything below it, as a tree. */
  lemma {:induction false} IntactTree(c: map<Inst, seq<Inst>>, parent: map<Inst, Inst>, rank: map<Inst, nat>, fi: Inst,
                                      s: Snapshot)
    returns (t: Tree)
    requires Acyclic(c, parent, rank) && fi in c && s.children == c && s.parent == parent && s.terminating == {}
    requires fi in parent ==> parent[fi] in c && fi in c[parent[fi]]
    ensures t.id == fi && Intact(s, t)
  {
    t := AcyclicTree(c, parent, rank, fi);
    if fi in parent && parent[fi] in PostOrder(t) {
      RankBelow(c, parent, rank, t, parent[fi]);
    }
  }

  /** Termination of an instance of any acyclic forest, from the start: cleanup runs exactly once for every
      descendant, before it runs for the parent; everything is freed in the same order; only the instance itself
      notifies its parent. */
  method TermAcyclic(children: map<Inst, seq<Inst>>, parent: map<Inst, Inst>, ghost rank: map<Inst, nat>,
                     fi: Inst, cause: Cause, enabled: bool)
    returns (cleaned: seq<Inst>, freed: seq<Inst>, released: seq<Inst>, notified: seq<(Inst, Inst)>)
    requires Acyclic(children, parent, rank) && fi in children
    requires fi in parent ==> parent[fi] in children && fi in children[parent[fi]]
    ensures Distinct(cleaned) && forall x :: x in cleaned <==> Descendant(children, fi, x)
    ensures forall x :: x in cleaned && x != fi ==> x in parent && Before(cleaned, x, parent[x])
    ensures freed == cleaned && multiset(released) == multiset(cleaned)
    ensures notified == if fi in parent && cause != ParentTerminated then [(parent[fi], fi)] else []
  {
    var instances := new Instances(children, parent, enabled);
    ghost var t := IntactTree(children, parent, rank, fi, instances.Snap());
    instances.Term(fi, cause, t);
    cleaned, freed := instances.cleaned, instances.freed;
    released, notified := instances.dealloc.released, instances.notified;
    assert [] + PostOrder(t) == PostOrder(t);
    OrderIsDescendants(children, parent, t, cleaned);
    ReleasedAll(enabled, t);
  }
}
