/** The log-level cache of src/core/logging.c against the decision made for each log target. */
module LogCache {
  import opened Bits

  /** uint8_t, and the value that stands for "nothing is logged". */
  const UINT8_MAX := 255

  type Byte = b: nat | b <= 255

  /** `(uint8_t) v` for an int `v`. */
  function Truncate(v: int): Byte {
    v % 256
  }

  datatype Category = Category(loglevel: Byte, enabled: bool)

  /** `struct log_target`: its categories and its global log level. */
  datatype Target = Target(categories: seq<Category>, loglevel: Byte)

  /** `should_log_to_target`; `pass` is the verdict of the filters. */
  function ShouldLog(t: Target, i: nat, level: int, pass: bool): bool
    requires i < |t.categories|
  {
    var c := t.categories[i];
    if !c.enabled then false
    else if t.loglevel != 0 && level < t.loglevel then false
    else if t.loglevel == 0 && c.loglevel != 0 && level < c.loglevel then false
    else pass
  }

  /** A target takes a message only if the filters pass it, and then every more important one too. */
  lemma MoreImportant(t: Target, i: nat, level: int, pass: bool, above: int)
    requires i < |t.categories| && ShouldLog(t, i, level, pass) && level <= above
    ensures pass && t.categories[i].enabled && ShouldLog(t, i, above, true)
  {
  }

  // ---------------------------------------------------------------------------
  // What the cache holds

  predicate AnyEnabled(ts: seq<Target>, i: nat)
    requires forall k :: 0 <= k < |ts| ==> i < |ts[k].categories|
  {
    ts != [] && (ts[|ts| - 1].categories[i].enabled || AnyEnabled(ts[..|ts| - 1], i))
  }

  function Min(a: Byte, b: Byte): Byte {
    if a >= b then b else a
  }

  /** One more target: its category's level, and its global level if it has one. */
  function Lower(m: Byte, t: Target, i: nat): Byte
    requires i < |t.categories|
  {
    var n := Min(m, t.categories[i].loglevel);
    if t.loglevel != 0 then Min(n, t.loglevel) else n
  }

  function LowestLevel(ts: seq<Target>, i: nat): Byte
    requires forall k :: 0 <= k < |ts| ==> i < |ts[k].categories|
  {
    if ts == [] then UINT8_MAX else Lower(LowestLevel(ts[..|ts| - 1], i), ts[|ts| - 1], i)
  }

  /** The cache entry of category `i` for these targets. */
  function Entry(ts: seq<Target>, i: nat): Byte
    requires forall k :: 0 <= k < |ts| ==> i < |ts[k].categories|
  {
    if AnyEnabled(ts, i) then LowestLevel(ts, i) else UINT8_MAX
  }

  /** An entry lets through every level, from 0 on, that the target accepts. */
  predicate Covers(entry: Byte, t: Target, i: nat)
    requires i < |t.categories|
  {
    t.categories[i].enabled ==> entry <= if t.loglevel != 0 then t.loglevel else t.categories[i].loglevel
  }

  /** That is what it means for the decision. */
  lemma {:induction false} CoversExactly(entry: Byte, t: Target, i: nat)
    requires i < |t.categories|
    ensures Covers(entry, t, i) <==> forall level: int, pass: bool :: 0 <= level && ShouldLog(t, i, level, pass) ==>
            entry <= level
  {
    if !Covers(entry, t, i) {
      var level := if t.loglevel != 0 then t.loglevel else t.categories[i].loglevel;
      assert ShouldLog(t, i, level, true);
    }
  }

  lemma {:induction false} LowestCovers(ts: seq<Target>, i: nat, k: nat)
    requires forall k :: 0 <= k < |ts| ==> i < |ts[k].categories|
    requires k < |ts|
    ensures LowestLevel(ts, i) <= ts[k].categories[i].loglevel
    ensures ts[k].loglevel != 0 ==> LowestLevel(ts, i) <= ts[k].loglevel
    ensures ts[k].categories[i].enabled ==> AnyEnabled(ts, i)
    decreases |ts|
  {
    if k < |ts| - 1 {
      LowestCovers(ts[..|ts| - 1], i, k);
    }
  }

  lemma {:induction false} EntryCovers(ts: seq<Target>, i: nat, k: nat)
    requires forall k :: 0 <= k < |ts| ==> i < |ts[k].categories|
    requires k < |ts|
    ensures Covers(Entry(ts, i), ts[k], i)
  {
    LowestCovers(ts, i, k);
  }

  /** A level of this target is at most `v`. */
  predicate Reaches(t: Target, i: nat, v: Byte)
    requires i < |t.categories|
  {
    t.categories[i].loglevel <= v || (t.loglevel != 0 && t.loglevel <= v)
  }

  /** The other direction: an entry is only as low as some target's level makes it. */
  lemma {:induction false} LowestReached(ts: seq<Target>, i: nat, v: Byte)
    requires forall k :: 0 <= k < |ts| ==> i < |ts[k].categories|
    requires LowestLevel(ts, i) <= v < UINT8_MAX
    ensures exists k :: 0 <= k < |ts| && Reaches(ts[k], i, v)
    decreases |ts|
  {
    var n := |ts| - 1;
    if LowestLevel(ts[..n], i) <= v {
      LowestReached(ts[..n], i, v);
      var k :| 0 <= k < n && Reaches(ts[..n][k], i, v);
      assert Reaches(ts[k], i, v);
    } else {
      assert Reaches(ts[n], i, v);
    }
  }

  function Resolve(targets: map<nat, Target>, ids: seq<nat>): (ts: seq<Target>)
    requires forall k :: 0 <= k < |ids| ==> ids[k] in targets
    ensures |ts| == |ids| && forall k :: 0 <= k < |ids| ==> ts[k] == targets[ids[k]]
  {
    seq(|ids|, k requires 0 <= k < |ids| => targets[ids[k]])
  }

  /** The union of these targets, category by category. */
  ghost predicate Collected(enabled: seq<bool>, level: seq<Byte>, ts: seq<Target>) {
    && |enabled| == |level| && (forall k :: 0 <= k < |ts| ==> |ts[k].categories| == |level|)
    && forall i :: 0 <= i < |level| ==> enabled[i] == AnyEnabled(ts, i) && level[i] == LowestLevel(ts, i)
  }

  /** The m-th token of a mask is the last of the first `n` to name category `i`. */
  predicate LastMatch(matches: seq<(nat, int)>, n: nat, i: nat, m: int) {
    0 <= m < n <= |matches| && matches[m].0 == i && forall m' :: m < m' < n ==> matches[m'].0 != i
  }

  predicate NoMatch(matches: seq<(nat, int)>, n: nat, i: nat) {
    n <= |matches| && forall m :: 0 <= m < n ==> matches[m].0 != i
  }

  lemma {:induction false} MatchStep(matches: seq<(nat, int)>, n: nat, i: nat, m: int)
    requires n < |matches|
    ensures LastMatch(matches, n + 1, i, m) ==> if i == matches[n].0 then m == n else LastMatch(matches, n, i, m)
  {
    if i == matches[n].0 && m < n {
      assert !LastMatch(matches, n + 1, i, m);
    }
  }

  class Logging {
    const numCat: nat
    /** log_level_lookup_cache, once it is enabled. */
    var cache: Option<seq<Byte>>
    /** Every target that was created, and the list of those that are registered. */
    var targets: map<nat, Target>
    var registered: seq<nat>

    ghost predicate Listed()
      reads this`targets, this`registered
    {
      && (forall t :: t in targets ==> |targets[t].categories| == numCat)
      && (forall k :: 0 <= k < |registered| ==> registered[k] in targets)
    }

    ghost predicate Shaped()
      reads this
    {
      Listed() && (cache.Some? ==> |cache.value| == numCat)
    }

    /** Every registered target is covered by every entry. */
    ghost predicate Covered()
      requires Shaped()
      reads this
    {
      cache.Some? ==>
        forall i, k :: 0 <= i < numCat && 0 <= k < |registered| ==> Covers(cache.value[i], targets[registered[k]], i)
    }

    ghost predicate Valid()
      reads this
    {
      Shaped() && Covered()
    }

    constructor (numCat: nat)
      ensures Valid() && this.numCat == numCat && cache == None && registered == [] && targets == map[]
    {
      this.numCat := numCat;
      cache, targets, registered := None, map[], [];
    }

    function Registered(): (ts: seq<Target>)
      requires Listed()
      reads this`targets, this`registered
      ensures forall k :: 0 <= k < |ts| ==> |ts[k].categories| == numCat
    {
      Resolve(targets, registered)
    }

    /** `log_cache_check`. */
    function Check(i: nat, level: int): bool
      requires Shaped() && i < numCat
      reads this
    {
      cache == None || !(level < cache.value[i])
    }

    /** Whenever some registered target accepts a message of level 0 or higher, the cache lets it through. */
    lemma CacheSound(i: nat, level: int, k: nat, pass: bool)
      requires Valid() && i < numCat && k < |registered| && level >= 0
      requires ShouldLog(targets[registered[k]], i, level, pass)
      ensures Check(i, level)
    {
      if cache.Some? {
        CoversExactly(cache.value[i], targets[registered[k]], i);
      }
    }

    /** `log_cache_update_all`. */
    method UpdateAll()
      requires Shaped()
      modifies this`cache
      ensures Valid() && cache.Some? == old(cache.Some?)
      ensures cache.Some? ==> forall i :: 0 <= i < numCat ==> cache.value[i] == Entry(Registered(), i)
    {
      if cache == None {
        return;
      }
      var ts := Registered();
      var enabled := new bool[numCat](_ => false);
      var level := new Byte[numCat](_ => UINT8_MAX);
      for k := 0 to |ts|
        invariant Collected(enabled[..], level[..], ts[..k])
      {
        CollectTarget(enabled, level, ts, k);
      }
      assert ts[..|ts|] == ts;
      var entries: seq<Byte> := [];
      for i := 0 to numCat
        invariant |entries| == i && forall j :: 0 <= j < i ==> entries[j] == Entry(ts, j)
      {
        entries := entries + [if enabled[i] then level[i] else UINT8_MAX];
      }
      cache := Some(entries);
      AllCovered();
    }

    /** One more target in the union of all. */
    method CollectTarget(enabled: array<bool>, level: array<Byte>, ts: seq<Target>, k: nat)
      requires k < |ts| && enabled.Length == level.Length == numCat
      requires forall j :: 0 <= j < |ts| ==> |ts[j].categories| == numCat
      requires Collected(enabled[..], level[..], ts[..k])
      modifies enabled, level
      ensures Collected(enabled[..], level[..], ts[..k + 1])
    {
      assert ts[..k + 1][..k] == ts[..k];
      ghost var e, l := enabled[..], level[..];
      for i := 0 to numCat
        invariant forall j :: i <= j < numCat ==> enabled[j] == e[j] && level[j] == l[j]
        invariant forall j :: 0 <= j < i ==>
                    enabled[j] == AnyEnabled(ts[..k + 1], j) && level[j] == LowestLevel(ts[..k + 1], j)
      {
        enabled[i] := enabled[i] || ts[k].categories[i].enabled;
        level[i] := Lower(level[i], ts[k], i);
      }
    }

    lemma AllCovered()
      requires Shaped() && cache.Some? && forall i :: 0 <= i < numCat ==> cache.value[i] == Entry(Registered(), i)
      ensures Covered()
    {
      forall i, k | 0 <= i < numCat && 0 <= k < |registered|
        ensures Covers(cache.value[i], targets[registered[k]], i)
      {
        EntryCovers(Registered(), i, k);
      }
    }

    /** The loop of `log_cache_update` over the registered targets. */
    method Collect(i: nat) returns (enabled: bool, level: Byte)
      requires Shaped() && i < numCat
      ensures enabled == AnyEnabled(Registered(), i) && level == LowestLevel(Registered(), i)
    {
      var ts := Registered();
      enabled, level := false, UINT8_MAX;
      for k := 0 to |ts|
        invariant enabled == AnyEnabled(ts[..k], i) && level == LowestLevel(ts[..k], i)
      {
        assert ts[..k + 1][..k] == ts[..k];
        enabled := enabled || ts[k].categories[i].enabled;
        level := Lower(level, ts[k], i);
      }
      assert ts[..|ts|] == ts;
    }

    /** `log_cache_update`: one entry, from the registered targets and the values given; the others as they were. */
    method Update(i: nat, enabled: bool, level: Byte)
      requires Shaped() && i < numCat
      modifies this`cache
      ensures Shaped() && cache.Some? == old(cache.Some?)
      ensures cache.Some? ==> forall j :: 0 <= j < numCat && j != i ==> cache.value[j] == old(cache).value[j]
      ensures cache.Some? ==>
                cache.value[i] == if AnyEnabled(Registered(), i) ||
                    enabled then Min(LowestLevel(Registered(), i), level) else UINT8_MAX
    {
      if cache == None {
        return;
      }
      var e, l := Collect(i);
      e := e || enabled;
      l := Min(l, level);
      cache := Some(cache.value[i := if e then l else UINT8_MAX]);
    }

    /** The updated entry covers every registered target; the others do if they did. */
    lemma UpdateCovers(i: nat, entry: Byte)
      requires Shaped() && i < numCat && entry <= Entry(Registered(), i)
      ensures forall k :: 0 <= k < |registered| ==> Covers(entry, targets[registered[k]], i)
    {
      forall k | 0 <= k < |registered|
        ensures Covers(entry, targets[registered[k]], i)
      {
        EntryCovers(Registered(), i, k);
      }
    }

    /** `log_cache_enable`: false if it already was. */
    method CacheEnable() returns (ok: bool)
      requires Valid()
      modifies this`cache
      ensures Valid() && ok == (old(cache) == None) && cache.Some?
      ensures !ok ==> cache == old(cache)
    {
      if cache.Some? {
        return false;
      }
      cache := Some(seq(numCat, _ => 0));
      UpdateAll();
      return true;
    }

    /** `log_add_target`. */
    method AddTarget(t: nat)
      requires Valid() && t in targets && t !in registered
      modifies this`cache, this`registered
      ensures Valid() && registered == old(registered) + [t] && cache.Some? == old(cache.Some?)
    {
      registered := registered + [t];
      UpdateAll();
    }

    /** `log_del_target`. */
    method DelTarget(t: nat)
      requires Valid()
      modifies this`cache, this`registered
      ensures Valid() && cache.Some? == old(cache.Some?)
      ensures t !in registered && forall x :: x != t ==> (x in registered <==> x in old(registered))
    {
      var rest := [];
      for k := 0 to |registered|
        invariant forall x :: x in rest ==> x in registered && x != t && x in targets
        invariant forall j :: 0 <= j < k && registered[j] != t ==> registered[j] in rest
      {
        if registered[k] != t {
          rest := rest + [registered[k]];
        }
      }
      registered := rest;
      UpdateAll();
    }

    /** `log_set_log_level`, on a registered target or on another one. */
    method SetLogLevel(t: nat, level: int)
      requires Valid() && t in targets
      modifies this`cache, this`targets
      ensures Valid() && cache.Some? == old(cache.Some?)
      ensures targets == old(targets)[t := old(targets)[t].(loglevel := Truncate(level))]
    {
      targets := targets[t := targets[t].(loglevel := Truncate(level))];
      UpdateAll();
    }

    /** `log_set_category_filter` on the mapped category. */
    method SetCategoryFilter(t: nat, i: nat, enable: bool, level: int)
      requires Valid() && t in targets && i < numCat
      modifies this`cache, this`targets
      ensures Valid() && cache.Some? == old(cache.Some?)
      ensures targets == old(targets)[t := WithCategory(old(targets)[t], i, Category(Truncate(level), enable))]
    {
      ghost var before, old' := cache, targets;
      targets := targets[t := WithCategory(targets[t], i, Category(Truncate(level), enable))];
      Update(i, enable, Truncate(level));
      if cache.Some? {
        UpdateCovers(i, cache.value[i]);
        forall j, k | 0 <= j < numCat && 0 <= k < |registered| && j != i
          ensures Covers(cache.value[j], targets[registered[k]], j)
        {
          assert Covers(before.value[j], old'[registered[k]], j);
        }
      }
    }

    /** `log_parse_category_mask`: every category off, then those that the tokens of the mask name on, in their order.
        */
    method ParseCategoryMask(t: nat, matches: seq<(nat, int)>)
      requires Valid() && t in targets && forall m :: 0 <= m < |matches| ==> matches[m].0 < numCat
      modifies this`cache, this`targets
      ensures Valid() && cache.Some? == old(cache.Some?)
      ensures forall x :: x in old(targets) && x != t ==> x in targets && targets[x] == old(targets)[x]
      ensures t in targets && targets[t].loglevel == old(targets)[t].loglevel
      ensures forall i, m :: 0 <= i < numCat && LastMatch(matches, |matches|, i, m) ==>
                targets[t].categories[i] == Category(Truncate(matches[m].1), true)
      ensures forall i :: 0 <= i < numCat && NoMatch(matches, |matches|, i) ==>
                targets[t].categories[i] == old(targets)[t].categories[i].(enabled := false)
    {
      ghost var before := targets[t].categories;
      var cats: seq<Category> := targets[t].categories;
      for i := 0 to numCat
        invariant |cats| == numCat
        invariant forall j :: 0 <= j < numCat ==>
                    cats[j] == if j < i then before[j].(enabled := false) else before[j]
      {
        cats := cats[i := cats[i].(enabled := false)];
      }
      for m := 0 to |matches|
        invariant |cats| == numCat
        invariant forall i, n :: 0 <= i < numCat && LastMatch(matches, m, i, n) ==>
                    cats[i] == Category(Truncate(matches[n].1), true)
        invariant forall i :: 0 <= i < numCat && NoMatch(matches, m, i) ==> cats[i] == before[i].(enabled := false)
      {
        forall i: nat, n
          ensures LastMatch(matches, m + 1, i, n) ==> if i == matches[m].0 then n == m else LastMatch(matches, m, i, n)
        {
          MatchStep(matches, m, i, n);
        }
        cats := cats[matches[m].0 := Category(Truncate(matches[m].1), true)];
      }
      targets := targets[t := targets[t].(categories := cats)];
      UpdateAll();
    }

    /** `log_target_create`: a new target with the default categories, not registered yet; the cache already takes its
        levels into account. */
    method TargetCreate(t: nat, defaults: seq<Category>)
      requires Valid() && t !in targets && |defaults| == numCat
      modifies this`cache, this`targets
      ensures Valid() && cache.Some? == old(cache.Some?)
      ensures targets == old(targets)[t := Target(defaults, 0)]
    {
      targets := targets[t := Target(defaults, 0)];
      for i := 0 to numCat
        invariant Valid() && cache.Some? == old(cache.Some?) && targets == old(targets)[t := Target(defaults, 0)]
      {
        ghost var before := cache;
        Update(i, defaults[i].enabled, defaults[i].loglevel);
        if cache.Some? {
          UpdateCovers(i, cache.value[i]);
          forall j, k | 0 <= j < numCat && 0 <= k < |registered| && j != i
            ensures Covers(cache.value[j], targets[registered[k]], j)
          {
            assert Covers(before.value[j], targets[registered[k]], j);
          }
        }
      }
    }
  }

  function WithCategory(t: Target, i: nat, c: Category): Target
    requires i < |t.categories|
  {
    t.(categories := t.categories[i := c])
  }

  // ---------------------------------------------------------------------------
  // Negative levels

  /** Below 0 the cache is not sound: a category with level 0 accepts every level, the cache only those from 0 on. */
  method NegativeLevel(level: int) returns (log: Logging)
    requires level < 0
    ensures fresh(log) && log.Valid() && log.numCat == 1 && log.registered == [0] && 0 in log.targets
    ensures ShouldLog(log.targets[0], 0, level, true) && !log.Check(0, level)
  {
    log := new Logging(1);
    var ok := log.CacheEnable();
    log.TargetCreate(0, [Category(0, true)]);
    log.AddTarget(0);
    assert Covers(log.cache.value[0], log.targets[log.registered[0]], 0);
  }

  /** Cache entries that cover all of these targets. */
  ghost predicate Configuration(entries: seq<Byte>, ts: seq<Target>) {
    && (forall k :: 0 <= k < |ts| ==> |ts[k].categories| == |entries|)
    && (forall i, k :: 0 <= i < |entries| && 0 <= k < |ts| ==> Covers(entries[i], ts[k], i))
  }

  /** In every configuration, what a target accepts at this level passes the cache. */
  ghost predicate SoundAt(level: int) {
    forall entries, ts, i, k, pass ::
      Configuration(entries, ts) && 0 <= i < |entries| && 0 <= k < |ts| && ShouldLog(ts[k], i, level, pass) ==>
          !(level < entries[i])
  }

  /** The cache is sound for every configuration if and only if the level is not negative. */
  lemma {:induction false} SoundExactly(level: int)
    ensures SoundAt(level) <==> level >= 0
  {
    if level >= 0 {
      forall entries, ts, i, k, pass | Configuration(entries, ts) && 0 <= i < |entries| && 0 <= k < |ts| &&
          ShouldLog(ts[k], i, level, pass)
        ensures !(level < entries[i])
      {
        CoversExactly(entries[i], ts[k], i);
      }
    } else {
      var entries: seq<Byte>, ts := [0], [Target([Category(0, true)], 0)];
      assert Configuration(entries, ts);
      assert ShouldLog(ts[0], 0, level, true) && level < entries[0];
    }
  }
}
