/**
 estimate_gas_price with its incremental cache of block prices, refining the
 window of GasWindow: the class keeps the map the source keeps, and every
 completed slow call moves the window as NextCache says and uses the prices of
 the blocks that Used lists.
 */
module GasEstimator {
  import opened Common
  import opened GasPrice
  import opened GasStatistics
  import opened GasChain
  import opened GasWindow

  type PriceMap = map<(nat, nat), nat>

  ghost function Interval(lo: nat, hi: int): (s: set<nat>)
    ensures forall i: nat :: i in s <==> lo <= i <= hi
    decreases hi - lo + 1
  {
    if hi < lo then {} else Interval(lo, hi - 1) + {hi}
  }

  lemma {:induction false} IntervalSize(lo: nat, hi: int)
    ensures |Interval(lo, hi)| == Max(hi - lo + 1, 0)
    decreases hi - lo + 1
  {
    if lo <= hi {
      IntervalSize(lo, hi - 1);
      AddOne(Interval(lo, hi - 1), hi);
    }
  }

  lemma AddOne(s: set<nat>, i: nat)
    requires i !in s
    ensures |s + {i}| == |s| + 1
  {
  }

  lemma IntervalInsert(s: set<nat>, lo: nat, hi: int)
    requires lo <= hi
    ensures s + Interval(lo + 1, hi) + {lo} == s + Interval(lo, hi)
  {
  }

  ghost function Indices(w: Window): set<nat> {
    if w.Empty? then {} else Interval(w.lo, w.hi)
  }

  /** The map's keys are the ends of exactly the blocks in s, all of the epoch. */
  ghost predicate KeysAre(l: Layout, m: PriceMap, epoch: nat, s: set<nat>)
    requires l.Valid()
  {
    && (forall i :: i in s ==> 0 <= i < |l.ends| && l.epochs[i] == epoch)
    && (forall key :: key in m <==> key.0 == epoch && l.EndIndex(key.1) in s)
  }

  /** ... and each key holds that block's price. */
  ghost predicate Holds(l: Layout, price: seq<nat>, m: PriceMap, epoch: nat, s: set<nat>)
    requires l.Valid() && |price| == |l.ends|
  {
    && KeysAre(l, m, epoch, s)
    && (forall key :: key in m ==> m[key] == price[l.EndIndex(key.1)])
  }

  lemma HoldsInsert(l: Layout, price: seq<nat>, m: PriceMap, epoch: nat, s: set<nat>, i: nat)
    requires l.Valid() && |price| == |l.ends| && Holds(l, price, m, epoch, s)
    requires i < |l.ends| && l.epochs[i] == epoch
    ensures Holds(l, price, m[(epoch, l.ends[i]) := price[i]], epoch, s + {i})
  {
    l.EndIndexOf(i);
  }

  lemma {:induction false} KeyCount(l: Layout, keys: set<(nat, nat)>, epoch: nat, s: set<nat>)
    requires l.Valid() && forall i :: i in s ==> 0 <= i < |l.ends|
    requires forall key :: key in keys <==> key.0 == epoch && l.EndIndex(key.1) in s
    ensures |keys| == |s|
    decreases |s|
  {
    if s == {} {
      assert keys == {};
    } else {
      var i :| i in s;
      l.EndIndexOf(i);
      KeyCount(l, keys - {(epoch, l.ends[i])}, epoch, s - {i});
    }
  }

  // ---- The walk against the cache ----

  /**
   One walk: the layout, history limit, cached map, epoch and first lookup, with
   the window behind the map and the block the lookup ends, if it is in the epoch.
   */
  datatype WalkInput = WalkInput(
    l: Layout,
    k: nat,
    cached: PriceMap,
    epoch: nat,
    start: nat,
    w: Window,
    t: Option<nat>)
  {
    ghost predicate Ok() {
      && l.Valid() && k > 0 && WindowOk(l, k, epoch, w) && KeysAre(l, cached, epoch, Indices(w))
      && if t.Some? then t.value < |l.ends| && l.epochs[t.value] == epoch && start == l.ends[t.value]
         else l.Find(start).None? || l.epochs[l.Find(start).value] != epoch
    }

    /** Where the walk comes to rest. */
    ghost predicate Done(blocks: seq<nat>, lookup: nat, hit: bool)
      requires Ok()
    {
      if t.None? then blocks == [] && !hit
      else
        && blocks == Desc(NewLo(l, k, w, t.value), t.value)
        && hit == Hit(k, w, t.value)
        && (hit ==> lookup == l.ends[Min(t.value, w.hi)])
    }

    /** i blocks are collected, none of them cached, and nothing stopped the walk before the lookup. */
    ghost predicate Walking(i: nat, lookup: nat, blocks: seq<nat>)
      requires Ok()
    {
      if t.None? then i == 0 && blocks == [] && lookup == start
      else
        var t := t.value;
        && i <= k && i <= t && (i > 0 ==> i < t)
        && lookup == l.ends[t - i] && blocks == Desc(t - i + 1, t)
        && NewLo(l, k, w, t) <= t - i + 1
        && l.Floor(t) == (if l.epochs[t - i] == epoch then l.Floor(t - i) else t - i + 1)
        && (Inside(w, t) ==> i == 0)
        && (w.Window? && w.hi < t ==> w.hi <= t - i)
    }

    /** A lookup is a cached key exactly when its block is in the window. */
    lemma CachedIffInside(i: nat, lookup: nat, blocks: seq<nat>)
      requires Ok() && Walking(i, lookup, blocks)
      ensures t.Some? ==> l.Find(lookup) == Some(t.value - i) && ((epoch, lookup) in cached <==> Inside(w, t.value - i))
      ensures t.None? ==> (epoch, lookup) !in cached
    {
      if t.Some? {
        l.EndIndexOf(t.value - i);
      }
    }

    lemma Hits(i: nat, lookup: nat, blocks: seq<nat>)
      requires Ok() && Walking(i, lookup, blocks) && i < k && (epoch, lookup) in cached
      ensures Done(blocks, lookup, true)
    {
      CachedIffInside(i, lookup, blocks);
    }

    lemma Leaves(i: nat, lookup: nat, blocks: seq<nat>)
      requires Ok() && Walking(i, lookup, blocks) && (epoch, lookup) !in cached
      requires l.Find(lookup).None? || l.epochs[l.Find(lookup).value] != epoch
      ensures Done(blocks, lookup, false)
    {
      CachedIffInside(i, lookup, blocks);
      if t.Some? && w.Window? && w.hi < t.value {
        l.SameEpochBetween(w.hi, t.value - i, t.value);
      }
    }

    lemma Moves(i: nat, lookup: nat, blocks: seq<nat>, found: nat)
      requires Ok() && Walking(i, lookup, blocks) && i < k && (epoch, lookup) !in cached
      requires l.Find(lookup) == Some(found) && l.epochs[found] == epoch
      ensures var next := Max(l.First(found) - 1, 0);
        if next == 0 then Done(blocks + [found], next, false) else Walking(i + 1, next, blocks + [found])
    {
      CachedIffInside(i, lookup, blocks);
      assert blocks + [found] == Desc(found, t.value);
      if found > 1 {
        l.Increasing(0, found - 1);
      }
    }

    lemma Exhausts(lookup: nat, blocks: seq<nat>)
      requires Ok() && Walking(k, lookup, blocks)
      ensures Done(blocks, lookup, false)
    {
    }
  }

  /** Collect uncached blocks from the start back to a cached block, the end of the epoch or the history limit. */
  method Walk(l: Layout, k: nat, cached: PriceMap, epoch: nat, start: nat, ghost c: WalkInput)
    returns (blocks: seq<nat>, lookup: nat, hit: bool)
    requires c == WalkInput(l, k, cached, epoch, start, c.w, c.t) && c.Ok()
    ensures c.Done(blocks, lookup, hit)
  {
    blocks, lookup, hit := [], start, false;
    var i := 0;
    while i < k
      invariant i <= k && !hit
      invariant c.Walking(i, lookup, blocks)
    {
      if (epoch, lookup) in cached {
        c.Hits(i, lookup, blocks);
        return blocks, lookup, true;
      }
      var found := l.Find(lookup);
      if found.None? || l.epochs[found.value] != epoch {
        c.Leaves(i, lookup, blocks);
        return;
      }
      c.Moves(i, lookup, blocks, found.value);
      lookup := Max(l.First(found.value) - 1, 0);
      blocks := blocks + [found.value];
      i := i + 1;
      if lookup == 0 {
        return;
      }
    }
    c.Exhausts(lookup, blocks);
  }

  // ---- What garbage collection leaves ----

  /** s' keeps the newest of s, as many as the limit allows. */
  ghost predicate NewestOf(s: set<nat>, s': set<nat>, max: nat) {
    && s' <= s && |s'| == Min(|s|, max)
    && (forall i, j :: i in s' && j in s && i < j ==> j in s')
  }

  /** Two upward-closed parts of the same size are the same. */
  lemma NewestUnique(s: set<nat>, a: set<nat>, b: set<nat>)
    requires a <= s && b <= s && |a| == |b|
    requires forall i, j :: i in a && j in s && i < j ==> j in a
    requires forall i, j :: i in b && j in s && i < j ==> j in b
    ensures a == b
  {
    if a <= b {
      SubsetSize(a, b);
    } else {
      var x :| x in a && x !in b;
      forall y | y in b ensures y in a {
        assert x < y;
      }
      SubsetSize(b, a);
    }
  }

  lemma SubsetSize(a: set<nat>, b: set<nat>)
    requires a <= b && |a| == |b|
    ensures a == b
  {
    assert b == a + (b - a);
    assert |b - a| == 0;
  }

  /** Old window and freshly priced blocks together: the next window, and blocks below it only when it is full. */
  lemma NextWindowWithin(l: Layout, k: nat, epoch: nat, w: Window, t: nat)
    requires l.Valid() && k > 0 && WindowOk(l, k, epoch, w) && t < |l.ends| && l.epochs[t] == epoch
    ensures var lo, n := NewLo(l, k, w, t), NextWindow(l, k, w, t);
      && n.lo <= n.hi < n.lo + k
      && (forall i: nat :: n.lo <= i <= n.hi ==> Inside(w, i) || lo <= i <= t)
      && (forall i: nat :: Inside(w, i) || lo <= i <= t ==> i <= n.hi)
      && (n.hi - n.lo + 1 < k ==> forall i: nat :: Inside(w, i) || lo <= i <= t ==> n.lo <= i)
  {
    if w.Window? && w.hi < t {
      var m := Max(w.hi, 1);
      l.SameEpochBetween(w.hi, m, t);
      l.SameFloor(t, m);
    } else if w.Window? && 1 <= t {
      l.SameFloor(w.hi, t);
    } else if w.Window? && t < w.lo {
      l.SameEpochBetween(0, 1, w.hi);
      l.SameFloor(w.hi, 1);
    }
  }

  lemma WindowIsNewest(s: set<nat>, n: Window, k: nat)
    requires n.Window? && n.lo <= n.hi && n.hi - n.lo + 1 <= k
    requires forall i :: n.lo <= i <= n.hi ==> i in s
    requires forall i :: i in s ==> i <= n.hi
    requires n.hi - n.lo + 1 < k ==> forall i :: i in s ==> n.lo <= i
    ensures NewestOf(s, Indices(n), k)
  {
    IntervalSize(n.lo, n.hi);
    if n.hi - n.lo + 1 < k {
      assert s == Indices(n);
    } else {
      assert s == Indices(n) + (s - Indices(n));
    }
  }

  /** The newest blocks among the old window and the freshly priced ones are the next window. */
  lemma GarbageCollected(w: Window, lo: nat, t: nat, n: Window, k: nat, s': set<nat>)
    requires n.Window? && n.lo <= n.hi < n.lo + k
    requires forall i: nat :: n.lo <= i <= n.hi ==> Inside(w, i) || lo <= i <= t
    requires forall i: nat :: Inside(w, i) || lo <= i <= t ==> i <= n.hi
    requires n.hi - n.lo + 1 < k ==> forall i: nat :: Inside(w, i) || lo <= i <= t ==> n.lo <= i
    requires NewestOf(Indices(w) + Interval(lo, t), s', k)
    ensures s' == Indices(n)
  {
    var s := Indices(w) + Interval(lo, t);
    forall i: nat | n.lo <= i <= n.hi ensures i in s {
      assert Inside(w, i) || lo <= i <= t;
    }
    forall i | i in s ensures i <= n.hi && (n.hi - n.lo + 1 < k ==> n.lo <= i) {
      assert Inside(w, i) || lo <= i <= t;
    }
    WindowIsNewest(s, n, k);
    NewestUnique(s, s', Indices(n));
  }

  // ---- The ordered map ----

  /** The order of the map's keys. */
  predicate KeyLess(a: (nat, nat), b: (nat, nat)) {
    a.0 < b.0 || (a.0 == b.0 && a.1 < b.1)
  }

  method FirstKey(m: PriceMap) returns (key: (nat, nat))
    requires m != map[]
    ensures key in m && forall other :: other in m ==> other == key || KeyLess(key, other)
  {
    key :| key in m;
    var rest := m.Keys - {key};
    while rest != {}
      invariant key in m && rest <= m.Keys && key !in rest
      invariant forall other :: other in m && other !in rest ==> other == key || KeyLess(key, other)
      decreases |rest|
    {
      var next :| next in rest;
      rest := rest - {next};
      if KeyLess(next, key) {
        key := next;
      }
    }
  }

  ghost predicate IsLastBelow(m: PriceMap, epoch: nat, bound: nat, r: Option<nat>) {
    && (r.Some? ==> r.value < bound && (epoch, r.value) in m)
    && (forall v: nat :: (if r.Some? then r.value < v else true) && v < bound ==> (epoch, v) !in m)
  }

  /** The last key of the epoch below a version. */
  method LastBelow(m: PriceMap, epoch: nat, bound: nat) returns (r: Option<nat>)
    ensures IsLastBelow(m, epoch, bound, r)
  {
    var v: nat := bound;
    while v > 0
      invariant v <= bound && forall u: nat :: v <= u < bound ==> (epoch, u) !in m
    {
      v := v - 1;
      if (epoch, v) in m {
        return Some(v);
      }
    }
    return None;
  }

  /** What is left after dropping first keys: the greatest keys, as many as the limit allows. */
  ghost predicate KeepsGreatest(m: PriceMap, m': PriceMap, max: nat) {
    && (forall key :: key in m' ==> key in m && m'[key] == m[key])
    && |m'| == Min(|m|, max)
    && (forall a, b :: a in m' && b in m && KeyLess(a, b) ==> b in m')
  }

  /** The keys that survive are the ends of the newest blocks. */
  lemma GreatestAreNewest(l: Layout, price: seq<nat>, m: PriceMap, m': PriceMap, epoch: nat, s: set<nat>, max: nat)
    returns (s': set<nat>)
    requires l.Valid() && |price| == |l.ends| && Holds(l, price, m, epoch, s) && KeepsGreatest(m, m', max)
    ensures Holds(l, price, m', epoch, s') && NewestOf(s, s', max)
  {
    s' := Survivors(l, m', epoch, s);
    SurvivorsHold(l, price, m, m', epoch, s);
    SurvivorsCount(l, price, m, m', epoch, s, s');
    forall i, j | i in s' && j in s && i < j ensures j in s' {
      SurvivesUpward(l, price, m, m', epoch, s, max, i, j);
    }
  }

  ghost function Survivors(l: Layout, m': PriceMap, epoch: nat, s: set<nat>): set<nat>
    requires forall i :: i in s ==> i < |l.ends|
  {
    set i | i in s && (epoch, l.ends[i]) in m'
  }

  lemma SurvivorsHold(l: Layout, price: seq<nat>, m: PriceMap, m': PriceMap, epoch: nat, s: set<nat>)
    requires l.Valid() && |price| == |l.ends| && Holds(l, price, m, epoch, s)
    requires forall key :: key in m' ==> key in m && m'[key] == m[key]
    ensures Holds(l, price, m', epoch, Survivors(l, m', epoch, s))
  {
    var s' := Survivors(l, m', epoch, s);
    forall key | key in m' ensures key.0 == epoch && l.EndIndex(key.1) in s' && m'[key] == price[l.EndIndex(key.1)] {
      assert key in m;
    }
    forall key: (nat, nat) | key.0 == epoch && l.EndIndex(key.1) in s' ensures key in m' {
      assert key == (epoch, l.ends[l.EndIndex(key.1)]);
    }
  }

  lemma SurvivorsCount(l: Layout, price: seq<nat>, m: PriceMap, m': PriceMap, epoch: nat, s: set<nat>, s': set<nat>)
    requires l.Valid() && |price| == |l.ends| && Holds(l, price, m, epoch, s) && Holds(l, price, m', epoch, s')
    ensures |m| == |s| && |m'| == |s'|
  {
    KeyCount(l, m.Keys, epoch, s);
    KeyCount(l, m'.Keys, epoch, s');
  }

  lemma SurvivesUpward(l: Layout, price: seq<nat>, m: PriceMap, m': PriceMap, epoch: nat, s: set<nat>, max: nat,
                       i: nat, j: nat)
    requires l.Valid() && |price| == |l.ends| && Holds(l, price, m, epoch, s) && KeepsGreatest(m, m', max)
    requires i in s && j in s && i < j && (epoch, l.ends[i]) in m'
    ensures (epoch, l.ends[j]) in m'
  {
    l.Increasing(i, j);
    l.EndIndexOf(j);
    assert KeyLess((epoch, l.ends[i]), (epoch, l.ends[j]));
  }

  // ---- Recording prices ----

  /** The map after inserting the listed blocks' prices one by one. */
  ghost function Recorded(l: Layout, price: seq<nat>, m: PriceMap, epoch: nat, blocks: seq<nat>): PriceMap
    requires |price| == |l.ends| && forall j :: 0 <= j < |blocks| ==> blocks[j] < |l.ends|
  {
    if blocks == [] then m
    else
      var last := blocks[|blocks| - 1];
      Recorded(l, price, m, epoch, blocks[..|blocks| - 1])[(epoch, l.ends[last]) := price[last]]
  }

  lemma RecordedAppend(l: Layout, price: seq<nat>, m: PriceMap, epoch: nat, blocks: seq<nat>, i: nat)
    requires |price| == |l.ends| && (forall j :: 0 <= j < |blocks| ==> blocks[j] < |l.ends|) && i < |l.ends|
    ensures Recorded(l, price, m, epoch, blocks + [i]) ==
      Recorded(l, price, m, epoch, blocks)[(epoch, l.ends[i]) := price[i]]
  {
    assert (blocks + [i])[..|blocks|] == blocks;
  }

  lemma RecordNext(l: Layout, price: seq<nat>, m: PriceMap, epoch: nat, blocks: seq<nat>, j: nat)
    requires |price| == |l.ends| && (forall j :: 0 <= j < |blocks| ==> blocks[j] < |price|) && j < |blocks|
    ensures At(price, blocks[..j + 1]) == At(price, blocks[..j]) + [price[blocks[j]]]
    ensures Recorded(l, price, m, epoch, blocks[..j + 1]) ==
      Recorded(l, price, m, epoch, blocks[..j])[(epoch, l.ends[blocks[j]]) := price[blocks[j]]]
  {
    assert blocks[..j + 1] == blocks[..j] + [blocks[j]];
    RecordedAppend(l, price, m, epoch, blocks[..j], blocks[j]);
  }

  lemma {:induction false} RecordedHolds(l: Layout, price: seq<nat>, m: PriceMap, epoch: nat, s: set<nat>,
                                         lo: nat, t: int)
    requires l.Valid() && |price| == |l.ends| && Holds(l, price, m, epoch, s)
    requires lo <= t + 1 <= |l.ends| && (lo <= t ==> l.epochs[lo] == l.epochs[t] == epoch)
    ensures Holds(l, price, Recorded(l, price, m, epoch, Desc(lo, t)), epoch, s + Interval(lo, t))
    decreases t - lo
  {
    if lo > t {
      assert s + Interval(lo, t) == s;
    } else {
      if lo < t {
        l.SameEpochBetween(lo, lo + 1, t);
      }
      var m', s' := Recorded(l, price, m, epoch, Desc(lo + 1, t)), s + Interval(lo + 1, t);
      RecordedHolds(l, price, m, epoch, s, lo + 1, t);
      HoldsInsert(l, price, m', epoch, s', lo);
      DescInit(lo, t);
      RecordedAppend(l, price, m, epoch, Desc(lo + 1, t), lo);
      IntervalInsert(s, lo, t);
    }
  }

  /** Below the end of block i + 1, the last cached key is the end of block i, while the run of cached blocks lasts. */
  lemma NextCached(l: Layout, price: seq<nat>, m: PriceMap, epoch: nat, s: set<nat>, lo: nat, i: int,
                   bound: nat, r: Option<nat>)
    requires l.Valid() && |price| == |l.ends| && Holds(l, price, m, epoch, s) && lo - 1 <= i < |l.ends|
    requires forall j: nat :: j in s && j <= i <==> lo <= j <= i
    requires (i >= 0 ==> l.ends[i] < bound) && (i + 1 < |l.ends| ==> bound <= l.ends[i + 1])
    requires IsLastBelow(m, epoch, bound, r)
    ensures if lo <= i then r == Some(l.ends[i]) && m[(epoch, l.ends[i])] == price[i] else r == None
  {
    if lo <= i {
      l.EndIndexOf(i);
      assert (epoch, l.ends[i]) in m;
    }
    if r.Some? {
      var j := l.EndIndex(r.value);
      assert j in s;
      if i < j {
        l.Increasing(i + 1, j);
      } else if j < i {
        l.Increasing(j, i);
      }
    }
  }

  /** A whole block of the call's epoch, no later than its version. */
  ghost predicate Priceable(env: Env, call: Call, i: nat)
    requires env.Valid()
  {
    i < |env.layout.ends| && env.layout.epochs[i] == call.epoch && env.layout.ends[i] <= call.version
  }

  method PriceOf(env: Env, call: Call, i: nat) returns (price: nat)
    requires env.Valid() && Priceable(env, call, i)
    ensures price == env.AllPrices()[i]
  {
    var outcome := BlockMinInclusionPrice(env.cfg, env.execAt(call.epoch), env.BlockAt(i), call.version);
    price := if outcome.Priced? then outcome.price else env.minPriceAt(call.epoch);
    env.PriceIs(i, outcome);
  }

  // ---- The list a slow call uses ----

  /** A walk that ran into the window stopped right above it, or at once inside it. */
  lemma HitShape(l: Layout, k: nat, epoch: nat, w: Window, t: nat)
    requires l.Valid() && k > 0 && WindowOk(l, k, epoch, w) && t < |l.ends| && l.epochs[t] == epoch && Hit(k, w, t)
    ensures var h := Min(t, w.hi);
      NewLo(l, k, w, t) == h + 1 && t - h < k && w.lo <= h && UsedLo(l, k, w, t) == Max(w.lo, h - (k - (t - h)) + 1)
  {
    if w.hi < t {
      l.SameFloor(t, w.hi);
    }
  }

  lemma MissShape(l: Layout, k: nat, epoch: nat, w: Window, t: nat)
    requires l.Valid() && k > 0 && WindowOk(l, k, epoch, w) && t < |l.ends| && l.epochs[t] == epoch && !Hit(k, w, t)
    ensures NewLo(l, k, w, t) == UsedLo(l, k, w, t) <= t
  {
  }

  /** Prices of fresh blocks followed by prices of cached ones. */
  lemma AtSplice(price: seq<nat>, lo: nat, h: nat, t: nat)
    requires lo <= h <= t < |price|
    ensures At(price, Desc(h + 1, t)) + At(price, Desc(lo, h)) == At(price, Desc(lo, t))
  {
  }

  lemma CollectedBlocks(env: Env, call: Call, lo: nat, t: nat)
    requires env.Valid() && lo <= t + 1 && t < |env.layout.ends|
    requires lo <= t ==> env.layout.epochs[lo] == env.layout.epochs[t] == call.epoch
    requires env.layout.ends[t] <= call.version
    ensures forall j :: 0 <= j < |Desc(lo, t)| ==> Priceable(env, call, Desc(lo, t)[j])
  {
    var blocks := Desc(lo, t);
    forall j | 0 <= j < |blocks| ensures Priceable(env, call, blocks[j]) {
      BlockPriceable(env, call, lo, blocks[j], t);
    }
  }

  lemma BlockPriceable(env: Env, call: Call, lo: nat, i: nat, t: nat)
    requires env.Valid() && lo <= i <= t < |env.layout.ends| && env.layout.ends[t] <= call.version
    requires env.layout.epochs[lo] == env.layout.epochs[t] == call.epoch
    ensures Priceable(env, call, i)
  {
    env.layout.SameEpochBetween(lo, i, t);
    env.layout.Increasing(i, t);
  }

  /** A slow call that found block t: the price list, the window it started from and what it leaves. */
  datatype SlowCall = SlowCall(l: Layout, price: seq<nat>, k: nat, epoch: nat, w: Window, t: nat) {
    ghost predicate Ok() {
      && l.Valid() && |price| == |l.ends| && k > 0 && WindowOk(l, k, epoch, w)
      && t < |l.ends| && l.epochs[t] == epoch
    }

    ghost function Lo(): nat requires Ok() { NewLo(l, k, w, t) }

    ghost function UsedFrom(): nat requires Ok() { UsedLo(l, k, w, t) }

    /** The map before the call, after recording the fresh prices, and after garbage collection. */
    ghost predicate Before(m: PriceMap) requires Ok() { Holds(l, price, m, epoch, Indices(w)) }

    ghost predicate During(m: PriceMap) requires Ok() { Holds(l, price, m, epoch, Indices(w) + Interval(Lo(), t)) }

    ghost predicate After(m: PriceMap) requires Ok() { Holds(l, price, m, epoch, Indices(NextWindow(l, k, w, t))) }

    lemma LoEpoch()
      requires Ok()
      ensures Lo() <= t ==> l.epochs[Lo()] == epoch
    {
      l.FreshLoEpoch(t, k);
      if Lo() <= t {
        l.SameEpochBetween(l.FreshLo(t, k), Lo(), t);
      }
    }

    lemma Recording(m: PriceMap)
      requires Ok() && Before(m)
      ensures During(Recorded(l, price, m, epoch, Desc(Lo(), t)))
    {
      LoEpoch();
      RecordedHolds(l, price, m, epoch, Indices(w), Lo(), t);
    }

    lemma Collecting(m: PriceMap, m': PriceMap)
      requires Ok() && During(m) && KeepsGreatest(m, m', k)
      ensures After(m')
    {
      var s' := GreatestAreNewest(l, price, m, m', epoch, Indices(w) + Interval(Lo(), t), k);
      NextWindowWithin(l, k, epoch, w, t);
      GarbageCollected(w, Lo(), t, NextWindow(l, k, w, t), k, s');
    }

    /** The fresh prices and these below them are the list used. */
    ghost predicate Completes(rest: seq<nat>) requires Ok() {
      UsedFrom() <= t && At(price, Desc(Lo(), t)) + rest == At(price, Desc(UsedFrom(), t))
    }

    lemma MissCompletes()
      requires Ok() && !Hit(k, w, t)
      ensures Completes([])
    {
      MissShape(l, k, epoch, w, t);
    }

    lemma HitCompletes(rest: seq<nat>)
      requires Ok() && Hit(k, w, t)
      requires var h := Min(t, w.hi);
        && w.lo <= h && Lo() <= t + 1 && t - Lo() + 1 < k
        && rest == At(price, Desc(Max(w.lo, h - (k - (t - Lo() + 1)) + 1), h))
      ensures Completes(rest)
    {
      HitShape(l, k, epoch, w, t);
      AtSplice(price, UsedFrom(), Min(t, w.hi), t);
    }

    lemma CachedRun(m: PriceMap)
      requires Ok() && During(m) && Hit(k, w, t)
      ensures var h := Min(t, w.hi);
        && w.lo <= h && Lo() == h + 1 && t - h < k
        && forall i: nat :: i in Indices(w) + Interval(Lo(), t) && i <= h <==> w.lo <= i <= h
    {
      HitShape(l, k, epoch, w, t);
    }
  }

  /** The cached prices of the epoch up to a version, newest first, at most `limit` of them. */
  method TakeCached(m: PriceMap, epoch: nat, lookup: nat, limit: nat,
                    ghost l: Layout, ghost price: seq<nat>, ghost s: set<nat>, ghost lo: nat, ghost h: nat)
    returns (prices: seq<nat>)
    requires l.Valid() && |price| == |l.ends| && Holds(l, price, m, epoch, s)
    requires lo <= h < |l.ends| && lookup == l.ends[h] && limit > 0
    requires forall i: nat :: i in s && i <= h <==> lo <= i <= h
    ensures prices == At(price, Desc(Max(lo, h - limit + 1), h))
  {
    prices := [];
    var bound := lookup + 1;
    if h + 1 < |l.ends| {
      l.Increasing(h, h + 1);
    }
    while |prices| < limit
      invariant |prices| <= limit && |prices| <= h - lo + 1
      invariant prices == At(price, Desc(h - |prices| + 1, h))
      invariant bound == if prices == [] then lookup + 1 else l.ends[h - |prices| + 1]
    {
      var last := LastBelow(m, epoch, bound);
      ghost var i := h - |prices|;
      if 0 <= i < h {
        l.Increasing(i, i + 1);
      }
      NextCached(l, price, m, epoch, s, lo, i, bound, last);
      if last.None? {
        break;
      }
      prices := prices + [m[(epoch, last.value)]];
      bound := last.value;
    }
  }

  /** The cached prices that complete the list, where the walk ran into the cache. */
  method CachedPrices(m: PriceMap, epoch: nat, lookup: nat, limit: nat, ghost c: SlowCall) returns (rest: seq<nat>)
    requires c.Ok() && c.During(m) && Hit(c.k, c.w, c.t) && epoch == c.epoch
    requires lookup == c.l.ends[Min(c.t, c.w.hi)] && limit == c.k - (c.t - c.Lo() + 1)
    ensures c.Completes(rest)
  {
    c.CachedRun(m);
    rest := TakeCached(m, epoch, lookup, limit,
      c.l, c.price, Indices(c.w) + Interval(c.Lo(), c.t), c.w.lo, Min(c.t, c.w.hi));
    c.HitCompletes(rest);
  }

  /** The estimate for a list of blocks: their statistics, or the default for none. */
  ghost function EstimateFrom(env: Env, epoch: nat, used: seq<nat>): GasEstimation
    requires env.Valid() && forall j :: 0 <= j < |used| ==> used[j] < |env.layout.ends|
  {
    var e := Estimate(env.cfg, env.minPriceAt(epoch), At(env.AllPrices(), used));
    if e.Some? then e.value else DefaultEstimation(env.cfg, env.minPriceAt(epoch))
  }

  lemma EstimateFromOrdered(env: Env, lo: nat, hi: nat)
    requires env.Valid() && env.RespectsMinimum() && lo <= hi < |env.layout.ends|
    requires env.layout.epochs[lo] == env.layout.epochs[hi]
    ensures Ordered(EstimateFrom(env, env.layout.epochs[hi], Desc(lo, hi)), env.minPriceAt(env.layout.epochs[hi]))
  {
    var prices, minPrice := At(env.AllPrices(), Desc(lo, hi)), env.minPriceAt(env.layout.epochs[hi]);
    env.PricesRespectMinimum(lo, hi);
    if Estimate(env.cfg, minPrice, prices).Some? {
      EstimateOrdered(env.cfg, minPrice, prices);
    }
  }

  /** The map is the window's prices, and the stored estimate is ordered for its epoch. */
  ghost predicate CacheHolds(env: Env, c: Cache, m: PriceMap, estimation: Option<GasEstimation>) {
    && env.Valid()
    && CacheOk(env.layout, env.cfg.aggressiveBlockHistory, c)
    && if c.epoch.None? then m == map[] && estimation.None?
       else
         && Holds(env.layout, env.AllPrices(), m, c.epoch.value, Indices(c.window))
         && (estimation.Some? && env.RespectsMinimum() ==> Ordered(estimation.value, env.minPriceAt(c.epoch.value)))
  }

  function Cleared(c: Cache, m: PriceMap, epoch: nat): PriceMap {
    if c.epoch.Some? && c.epoch.value != epoch then map[] else m
  }

  /** Clearing the map on an epoch change leaves the window the call starts from. */
  lemma ClearedHolds(env: Env, c: Cache, m: PriceMap, estimation: Option<GasEstimation>, epoch: nat)
    requires CacheHolds(env, c, m, estimation)
    ensures WindowOk(env.layout, env.cfg.aggressiveBlockHistory, epoch, WindowFor(c, epoch))
    ensures Holds(env.layout, env.AllPrices(), Cleared(c, m, epoch), epoch, Indices(WindowFor(c, epoch)))
  {
  }

  /** What a slow call returns and leaves, given the window it starts from. */
  ghost predicate SlowOutcome(env: Env, call: Call, w: Window, m: PriceMap, m': PriceMap, r: GasEstimation)
    requires env.Valid() && WindowOk(env.layout, env.cfg.aggressiveBlockHistory, call.epoch, w)
  {
    var t := env.layout.Start(call.epoch, call.version);
    if t.None? then m' == m && r == DefaultEstimation(env.cfg, env.minPriceAt(call.epoch))
    else
      var c := SlowCall(env.layout, env.AllPrices(), env.cfg.aggressiveBlockHistory, call.epoch, w, t.value);
      && c.After(m') && c.UsedFrom() <= c.t
      && Estimate(env.cfg, env.minPriceAt(call.epoch), At(c.price, Desc(c.UsedFrom(), c.t))) == Some(r)
  }

  lemma SlowUses(env: Env, call: Call, c: Cache, m: PriceMap, m': PriceMap, r: GasEstimation)
    requires env.Valid() && CacheOk(env.layout, env.cfg.aggressiveBlockHistory, c)
    requires SlowOutcome(env, call, WindowFor(c, call.epoch), m, m', r)
    ensures r == EstimateWith(env, c, call)
    ensures env.RespectsMinimum() ==> Ordered(r, env.minPriceAt(call.epoch))
  {
    var t, w, k := env.layout.Start(call.epoch, call.version), WindowFor(c, call.epoch), env.cfg.aggressiveBlockHistory;
    if t.Some? && env.RespectsMinimum() {
      UsedEpoch(env.layout, k, call.epoch, w, t.value);
      EstimateFromOrdered(env, UsedLo(env.layout, k, w, t.value), t.value);
    }
  }

  lemma SlowLeaves(env: Env, call: Call, c: Cache, m: PriceMap, m': PriceMap, r: GasEstimation)
    requires env.Valid() && CacheOk(env.layout, env.cfg.aggressiveBlockHistory, c)
    requires Holds(env.layout, env.AllPrices(), m, call.epoch, Indices(WindowFor(c, call.epoch)))
    requires SlowOutcome(env, call, WindowFor(c, call.epoch), m, m', r)
    requires env.RespectsMinimum() ==> Ordered(r, env.minPriceAt(call.epoch))
    ensures CacheHolds(env, NextCache(env.layout, env.cfg.aggressiveBlockHistory, c, call), m', Some(r))
  {
    NextCacheOk(env.layout, env.cfg.aggressiveBlockHistory, c, call);
  }

  /** The next cache, and the estimate from the blocks that Used lists. */
  ghost predicate Refreshed(env: Env, call: Call, c: Cache, m: PriceMap, r: GasEstimation)
    requires env.Valid()
  {
    && CacheHolds(env, NextCache(env.layout, env.cfg.aggressiveBlockHistory, c, call), m, Some(r))
    && r == EstimateWith(env, c, call)
  }

  lemma SlowRefreshes(env: Env, call: Call, c: Cache, m: PriceMap, m': PriceMap, r: GasEstimation)
    requires env.Valid() && CacheOk(env.layout, env.cfg.aggressiveBlockHistory, c)
    requires Holds(env.layout, env.AllPrices(), m, call.epoch, Indices(WindowFor(c, call.epoch)))
    requires SlowOutcome(env, call, WindowFor(c, call.epoch), m, m', r)
    ensures Refreshed(env, call, c, m', r)
  {
    SlowUses(env, call, c, m, m', r);
    SlowLeaves(env, call, c, m, m', r);
  }

  lemma UsedEpoch(l: Layout, k: nat, epoch: nat, w: Window, t: nat)
    requires l.Valid() && k > 0 && WindowOk(l, k, epoch, w) && t < |l.ends| && l.epochs[t] == epoch
    ensures UsedLo(l, k, w, t) <= t && l.epochs[UsedLo(l, k, w, t)] == epoch
  {
    l.FreshLoEpoch(t, k);
    if Hit(k, w, t) {
      l.SameEpochBetween(w.lo, UsedLo(l, k, w, t), t);
    }
  }

  /** The estimate of a slow call that finds the cache at c. */
  ghost function EstimateWith(env: Env, c: Cache, call: Call): GasEstimation
    requires env.Valid()
  {
    EstimateFrom(env, call.epoch, Used(env.layout, env.cfg.aggressiveBlockHistory, c, call))
  }

  /** The estimate for a call with nothing cached. */
  ghost function UncachedEstimate(env: Env, call: Call): GasEstimation
    requires env.Valid()
  {
    EstimateWith(env, Cache(None, Empty), call)
  }

  lemma EmptyUsesFresh(l: Layout, k: nat, call: Call)
    requires l.Valid() && k > 0
    ensures Used(l, k, Cache(None, Empty), call) == Fresh(l, k, call)
  {
    UsedVersusFresh(l, k, Cache(None, Empty), call);
  }

  /** It is the statistics of the uncached list's prices, or the default when that list is empty. */
  lemma UncachedIs(env: Env, call: Call)
    requires env.Valid()
    ensures var used := Fresh(env.layout, env.cfg.aggressiveBlockHistory, call);
      && (forall j :: 0 <= j < |used| ==> used[j] < |env.layout.ends|)
      && if used == [] then UncachedEstimate(env, call) == DefaultEstimation(env.cfg, env.minPriceAt(call.epoch))
         else
           Some(UncachedEstimate(env, call)) ==
             Estimate(env.cfg, env.minPriceAt(call.epoch), At(env.AllPrices(), used))
  {
    EmptyUsesFresh(env.layout, env.cfg.aggressiveBlockHistory, call);
    var used := Fresh(env.layout, env.cfg.aggressiveBlockHistory, call);
    EmptyExactlyWhen(env.cfg, env.minPriceAt(call.epoch), At(env.AllPrices(), used));
  }

  /**
   With ledger versions that never go back, the estimate of every slow call of a run
   is the one an empty cache would give, where genesis is apart.
   */
  lemma RunEstimatesUncached(env: Env, calls: seq<Call>, i: nat)
    requires env.Valid() && i < |calls| && GenesisApart(env.layout, calls[i].epoch)
    requires forall a, b :: 0 <= a < b < |calls| ==> calls[a].version <= calls[b].version
    ensures EstimateWith(env, CacheAt(env.layout, env.cfg.aggressiveBlockHistory, calls, i), calls[i]) ==
      UncachedEstimate(env, calls[i])
  {
    RunMatchesUncached(env.layout, env.cfg.aggressiveBlockHistory, calls, i);
    EmptyUsesFresh(env.layout, env.cfg.aggressiveBlockHistory, calls[i]);
  }

  // ---- The cache object ----

  /** Less than an expiration has passed. */
  predicate StillGood(expiration: nat, time: nat, now: nat) {
    0 < expiration && now < time + expiration
  }

  class GasEstimationCache {
    var lastUpdatedEpoch: Option<nat>
    var lastUpdatedTime: Option<nat>
    var estimation: Option<GasEstimation>
    var minInclusionPrices: PriceMap
    ghost var window: Window

    constructor ()
      ensures Abstract() == Cache(None, Empty) && minInclusionPrices == map[]
      ensures lastUpdatedTime == None && estimation == None
    {
      lastUpdatedEpoch, lastUpdatedTime, estimation, minInclusionPrices := None, None, None, map[];
      window := Empty;
    }

    ghost function Abstract(): Cache
      reads this
    {
      Cache(lastUpdatedEpoch, window)
    }

    ghost function Holding(): Held
      reads this
    {
      Held(Abstract(), estimation, lastUpdatedTime)
    }

    ghost predicate Valid(env: Env)
      reads this
    {
      CacheHolds(env, Abstract(), minInclusionPrices, estimation)
    }

    /** The stored estimate, while it is of this epoch and has not expired. */
    function CachedEstimation(cfg: Config, epoch: nat, now: nat): Option<GasEstimation>
      reads this
    {
      if lastUpdatedEpoch == Some(epoch) && lastUpdatedTime.Some? && estimation.Some?
         && Max(now - lastUpdatedTime.value, 0) < cfg.cacheExpirationMs
      then estimation else None
    }

    /** The read-locked section. */
    method ReadCached(env: Env, epoch: nat, now: nat) returns (r: Option<GasEstimation>)
      requires Valid(env)
      ensures r == CachedEstimation(env.cfg, epoch, now)
      ensures r.Some? <==>
        && lastUpdatedEpoch == Some(epoch) && lastUpdatedTime.Some? && estimation.Some?
        && StillGood(env.cfg.cacheExpirationMs, lastUpdatedTime.value, now)
      ensures r.Some? ==> r == estimation
      ensures r.Some? && env.RespectsMinimum() ==> Ordered(r.value, env.minPriceAt(epoch))
    {
      r := CachedEstimation(env.cfg, epoch, now);
    }

    /** Price the collected blocks, newest first, and record each under its end version. */
    method PriceBlocks(env: Env, call: Call, blocks: seq<nat>, ghost price: seq<nat>) returns (prices: seq<nat>)
      requires env.Valid() && price == env.AllPrices()
      requires forall j :: 0 <= j < |blocks| ==> blocks[j] < |price| && Priceable(env, call, blocks[j])
      modifies this`minInclusionPrices
      ensures minInclusionPrices == Recorded(env.layout, price, old(minInclusionPrices), call.epoch, blocks)
      ensures prices == At(price, blocks)
    {
      prices := [];
      for j := 0 to |blocks|
        invariant prices == At(price, blocks[..j])
        invariant minInclusionPrices == Recorded(env.layout, price, old(minInclusionPrices), call.epoch, blocks[..j])
      {
        var i := blocks[j];
        var p := PriceOf(env, call, i);
        prices := prices + [p];
        minInclusionPrices := minInclusionPrices[(call.epoch, env.layout.ends[i]) := p];
        RecordNext(env.layout, price, old(minInclusionPrices), call.epoch, blocks, j);
      }
      assert blocks[..|blocks|] == blocks;
    }

    method CollectGarbage(max: nat)
      modifies this`minInclusionPrices
      ensures KeepsGreatest(old(minInclusionPrices), minInclusionPrices, max)
    {
      if |minInclusionPrices| > max {
        for i := max to |minInclusionPrices|
          invariant |minInclusionPrices| == |old(minInclusionPrices)| - (i - max)
          invariant forall key :: key in minInclusionPrices ==>
            key in old(minInclusionPrices) && minInclusionPrices[key] == old(minInclusionPrices)[key]
          invariant forall a, b :: a in minInclusionPrices && b in old(minInclusionPrices) && KeyLess(a, b) ==>
            b in minInclusionPrices
        {
          var key := FirstKey(minInclusionPrices);
          minInclusionPrices := minInclusionPrices - {key};
        }
      }
    }

    /** The prices to estimate from: fresh ones, then cached ones where the walk ran into the cache. */
    method GatherPrices(env: Env, call: Call, blocks: seq<nat>, lookup: nat, hit: bool, ghost c: SlowCall)
      returns (prices: seq<nat>)
      requires env.Valid()
      requires c == SlowCall(env.layout, env.AllPrices(), env.cfg.aggressiveBlockHistory, call.epoch, c.w, c.t)
      requires c.Ok() && c.Before(minInclusionPrices) && c.l.ends[c.t] <= call.version
      requires blocks == Desc(c.Lo(), c.t) && hit == Hit(c.k, c.w, c.t)
      requires hit ==> lookup == c.l.ends[Min(c.t, c.w.hi)]
      modifies this`minInclusionPrices
      ensures c.During(minInclusionPrices)
      ensures c.UsedFrom() <= c.t && prices == At(c.price, Desc(c.UsedFrom(), c.t))
    {
      c.LoEpoch();
      CollectedBlocks(env, call, c.Lo(), c.t);
      c.Recording(minInclusionPrices);
      prices := PriceBlocks(env, call, blocks, c.price);
      if hit {
        var rest := CachedPrices(minInclusionPrices, call.epoch, lookup, env.cfg.aggressiveBlockHistory - |blocks|, c);
        prices := prices + rest;
      } else {
        c.MissCompletes();
      }
    }

    /** The estimate from the prices of the blocks that Used lists, leaving the next window's prices. */
    method SlowEstimate(env: Env, call: Call, ghost w: Window) returns (r: GasEstimation)
      requires env.Valid() && WindowOk(env.layout, env.cfg.aggressiveBlockHistory, call.epoch, w)
      requires Holds(env.layout, env.AllPrices(), minInclusionPrices, call.epoch, Indices(w))
      modifies this`minInclusionPrices
      ensures SlowOutcome(env, call, w, old(minInclusionPrices), minInclusionPrices, r)
    {
      var l, k := env.layout, env.cfg.aggressiveBlockHistory;
      var start := l.StartLookup(call.epoch, call.version);
      l.StartLookupIs(call.epoch, call.version);
      ghost var t := l.Start(call.epoch, call.version);
      var blocks, lookup, hit :=
        Walk(l, k, minInclusionPrices, call.epoch, start, WalkInput(l, k, minInclusionPrices, call.epoch, start, w, t));
      if blocks == [] && !hit {
        return DefaultEstimation(env.cfg, env.minPriceAt(call.epoch));
      }
      ghost var c := SlowCall(l, env.AllPrices(), k, call.epoch, w, t.value);
      var prices := GatherPrices(env, call, blocks, lookup, hit, c);
      EmptyExactlyWhen(env.cfg, env.minPriceAt(call.epoch), prices);
      r := Estimate(env.cfg, env.minPriceAt(call.epoch), prices).value;
      ghost var recorded := minInclusionPrices;
      CollectGarbage(k);
      c.Collecting(recorded, minInclusionPrices);
    }

    method Update(epoch: nat, e: GasEstimation, now: nat, ghost next: Cache)
      requires next.epoch == Some(epoch)
      modifies this`lastUpdatedEpoch, this`lastUpdatedTime, this`estimation, this`window
      ensures Abstract() == next && estimation == Some(e) && lastUpdatedTime == Some(now)
    {
      lastUpdatedEpoch, estimation, lastUpdatedTime, window := Some(epoch), Some(e), Some(now), next.window;
    }

    /** Price the blocks behind the tip, after clearing the map if the epoch changed. */
    method Refresh(env: Env, call: Call, now: nat) returns (r: GasEstimation)
      requires CacheHolds(env, Abstract(), minInclusionPrices, estimation)
      modifies this
      ensures Refreshed(env, call, old(Abstract()), minInclusionPrices, r)
      ensures Abstract() == NextCache(env.layout, env.cfg.aggressiveBlockHistory, old(Abstract()), call)
      ensures estimation == Some(r) && lastUpdatedTime == Some(now)
    {
      ghost var before, m := Abstract(), minInclusionPrices;
      ClearedHolds(env, before, m, estimation, call.epoch);
      if lastUpdatedEpoch.Some? && lastUpdatedEpoch.value != call.epoch {
        minInclusionPrices := map[];
      }
      r := SlowEstimate(env, call, WindowFor(before, call.epoch));
      SlowRefreshes(env, call, before, Cleared(before, m, call.epoch), minInclusionPrices, r);
      Update(call.epoch, r, now, NextCache(env.layout, env.cfg.aggressiveBlockHistory, before, call));
    }

    /**
     The write-locked section: a stored estimate that is still good, or a fresh
     one from the prices of the blocks that Used lists.
     */
    method EstimateGasPrice(env: Env, call: Call, now: nat) returns (r: GasEstimation)
      requires Valid(env)
      modifies this
      ensures Valid(env)
      ensures env.RespectsMinimum() ==> Ordered(r, env.minPriceAt(call.epoch))
      ensures old(CachedEstimation(env.cfg, call.epoch, now)).Some? ==>
        r == old(CachedEstimation(env.cfg, call.epoch, now)).value && unchanged(this)
      ensures old(CachedEstimation(env.cfg, call.epoch, now)).None? ==>
        && Abstract() == NextCache(env.layout, env.cfg.aggressiveBlockHistory, old(Abstract()), call)
        && lastUpdatedTime == Some(now) && estimation == Some(r)
        && r == EstimateWith(env, old(Abstract()), call)
    {
      var cached := CachedEstimation(env.cfg, call.epoch, now);
      if cached.Some? {
        return cached.value;
      }
      r := Refresh(env, call, now);
    }
  }

  // ---- Whole runs of one cache ----

  /** Every call's uncached estimate. */
  ghost function Uncached(env: Env, calls: seq<Call>): (truth: seq<GasEstimation>)
    requires env.Valid()
    ensures |truth| == |calls|
  {
    seq(|calls|, i requires 0 <= i < |calls| => UncachedEstimate(env, calls[i]))
  }

  /**
   The call that computed what call i is told: the one that computed the answer before,
   if it was of the same epoch and less than an expiration ago, or else call i itself.
   */
  ghost function Source(calls: seq<Call>, times: seq<nat>, expiration: nat, i: nat): (j: nat)
    requires i < |calls| == |times|
    ensures j <= i && calls[j].epoch == calls[i].epoch
    ensures j < i ==> StillGood(expiration, times[j], times[i])
  {
    if i == 0 then 0
    else
      var j := Source(calls, times, expiration, i - 1);
      if calls[j].epoch == calls[i].epoch && StillGood(expiration, times[j], times[i]) then j else i
  }

  ghost function Sources(calls: seq<Call>, times: seq<nat>, expiration: nat): (sources: seq<nat>)
    requires |times| == |calls|
    ensures |sources| == |calls| && forall i :: 0 <= i < |sources| ==> sources[i] <= i
  {
    seq(|calls|, i requires 0 <= i < |calls| => Source(calls, times, expiration, i))
  }

  /** One source after the other. */
  lemma SourceNext(calls: seq<Call>, times: seq<nat>, expiration: nat, i: nat)
    requires i < |calls| == |times|
    ensures var sources := Sources(calls, times, expiration);
      && sources[i] <= i
      && if i == 0 then sources[i] == 0
         else
           var j := sources[i - 1];
           && j < i
           && sources[i] ==
              if calls[j].epoch == calls[i].epoch && StillGood(expiration, times[j], times[i]) then j else i
  {
  }

  /** Between the call that computed an answer and the call that is told it, every call is told the same. */
  lemma {:induction false} SourceStays(calls: seq<Call>, times: seq<nat>, expiration: nat, i: nat, m: nat)
    requires Source.requires(calls, times, expiration, i) && Source(calls, times, expiration, i) <= m <= i
    ensures Source(calls, times, expiration, m) == Source(calls, times, expiration, i)
  {
    if m < i {
      var j := Source(calls, times, expiration, i - 1);
      assert Source(calls, times, expiration, i) == j;
      SourceStays(calls, times, expiration, i - 1, m);
    }
  }

  ghost predicate TipsGrow(calls: seq<Call>) {
    forall a, b :: 0 <= a < b < |calls| ==> calls[a].version <= calls[b].version
  }

  lemma {:induction false} CacheAtPrefix(l: Layout, k: nat, calls: seq<Call>, more: seq<Call>, i: nat)
    requires l.Valid() && k > 0 && i <= |calls|
    ensures CacheAt(l, k, calls + more, i) == CacheAt(l, k, calls, i)
  {
    if i > 0 {
      CacheAtPrefix(l, k, calls, more, i - 1);
    }
  }

  /** One more slow call after a run of them. */
  lemma OneMoreSlow(env: Env, slow: seq<Call>, call: Call)
    requires env.Valid() && TipsGrow(slow + [call]) && GenesisApart(env.layout, call.epoch)
    ensures var l, k := env.layout, env.cfg.aggressiveBlockHistory;
      var c := CacheAt(l, k, slow, |slow|);
      && CacheAt(l, k, slow + [call], |slow| + 1) == NextCache(l, k, c, call)
      && EstimateWith(env, c, call) == UncachedEstimate(env, call)
  {
    CacheAtPrefix(env.layout, env.cfg.aggressiveBlockHistory, slow, [call], |slow|);
    RunEstimatesUncached(env, slow + [call], |slow|);
  }

  /** The elements at the given places. */
  ghost function Chosen(truth: seq<GasEstimation>, sources: seq<nat>): (answers: seq<GasEstimation>)
    requires forall i :: 0 <= i < |sources| ==> sources[i] < |truth|
    ensures |answers| == |sources| && forall i :: 0 <= i < |sources| ==> answers[i] == truth[sources[i]]
  {
    seq(|sources|, i requires 0 <= i < |sources| => truth[sources[i]])
  }

  /** What every call is told: the uncached estimate at its source. */
  ghost function Answers(env: Env, calls: seq<Call>, times: seq<nat>): (answers: seq<GasEstimation>)
    requires env.Valid() && |times| == |calls|
  {
    Chosen(Uncached(env, calls), Sources(calls, times, env.cfg.cacheExpirationMs))
  }

  /** What the cache object holds beside its prices. */
  datatype Held = Held(c: Cache, estimation: Option<GasEstimation>, time: Option<nat>) {
    /** The stored estimate is of the epoch and has not expired. */
    ghost predicate Serves(expiration: nat, epoch: nat, now: nat) {
      c.epoch == Some(epoch) && estimation.Some? && time.Some? && StillGood(expiration, time.value, now)
    }
  }

  /** A run of calls at their times, with the uncached estimate and the source of each and what it is told. */
  datatype Script = Script(
    calls: seq<Call>,
    times: seq<nat>,
    truth: seq<GasEstimation>,
    sources: seq<nat>,
    answers: seq<GasEstimation>)
  {
    ghost predicate Sized() {
      |calls| == |times| == |truth| == |sources| == |answers|
    }

    /** What entry i has to be. */
    ghost predicate EntryOk(env: Env, i: nat)
      requires env.Valid() && Sized() && i < |calls|
    {
      && truth[i] == UncachedEstimate(env, calls[i]) && sources[i] <= i && answers[i] == truth[sources[i]]
      && if i == 0 then sources[i] == 0
         else
           var j := sources[i - 1];
           && j < i
           && sources[i] ==
              if calls[j].epoch == calls[i].epoch && StillGood(env.cfg.cacheExpirationMs, times[j], times[i])
              then j else i
    }

    ghost predicate Of(env: Env)
      requires env.Valid()
    {
      && Sized() && TipsGrow(calls)
      && forall i: nat {:trigger EntryOk(env, i)} :: i < |calls| ==> EntryOk(env, i)
    }
  }

  lemma ScriptOf(env: Env, calls: seq<Call>, times: seq<nat>) returns (s: Script)
    requires env.Valid() && |times| == |calls| && TipsGrow(calls)
    ensures s.Of(env) && s.calls == calls && s.times == times && s.answers == Answers(env, calls, times)
  {
    s := Script(calls, times,
      Uncached(env, calls), Sources(calls, times, env.cfg.cacheExpirationMs), Answers(env, calls, times));
    forall i: nat | i < |calls| ensures s.EntryOk(env, i) {
      SourceNext(calls, times, env.cfg.cacheExpirationMs, i);
    }
  }

  /** The slow calls among those made so far, and the number of the last of them. */
  datatype Progress = Progress(slow: seq<Call>, last: nat) {
    /** What the cache object holds after calls 0, ..., i - 1. */
    ghost predicate Fits(l: Layout, k: nat, s: Script, i: nat, h: Held)
      requires l.Valid() && k > 0 && s.Sized()
    {
      && i <= |s.calls| && TipsGrow(slow) && h.c == CacheAt(l, k, slow, |slow|)
      && if i == 0 then slow == [] && h.c.epoch.None? && h.estimation.None?
         else
           && last == s.sources[i - 1] < |s.calls|
           && slow != [] && slow[|slow| - 1] == s.calls[last] && h.c.epoch == Some(s.calls[last].epoch)
           && h.estimation == Some(s.truth[last]) && h.time == Some(s.times[last])
    }

    /** The stored estimate is the answer to call i exactly when it serves the call. */
    lemma Kept(env: Env, s: Script, i: nat, h: Held)
      requires env.Valid() && s.Of(env) && i < |s.calls|
      requires Fits(env.layout, env.cfg.aggressiveBlockHistory, s, i, h)
      ensures if h.Serves(env.cfg.cacheExpirationMs, s.calls[i].epoch, s.times[i])
        then
          && Fits(env.layout, env.cfg.aggressiveBlockHistory, s, i + 1, h)
          && h.estimation == Some(s.answers[i])
        else s.sources[i] == i && s.answers[i] == s.truth[i]
    {
      assert s.EntryOk(env, i);
    }

    /** Otherwise call i is slow and its own source. */
    lemma Extends(env: Env, s: Script, i: nat, h: Held)
      requires env.Valid() && s.Of(env)
      requires i < |s.calls| && s.sources[i] == i && GenesisApart(env.layout, s.calls[i].epoch)
      requires Fits(env.layout, env.cfg.aggressiveBlockHistory, s, i, h) && (i > 0 ==> last < i)
      ensures var l, k := env.layout, env.cfg.aggressiveBlockHistory;
        && EstimateWith(env, h.c, s.calls[i]) == s.truth[i]
        && Progress(slow + [s.calls[i]], i).Fits(l, k, s, i + 1,
             Held(NextCache(l, k, h.c, s.calls[i]), Some(s.truth[i]), Some(s.times[i])))
    {
      assert s.EntryOk(env, i);
      TipsExtend(slow, s.calls, last, i);
      OneMoreSlow(env, slow, s.calls[i]);
    }

    /** One call more, as EstimateGasPrice answers it: from what is held, or by computing anew. */
    lemma Next(env: Env, s: Script, i: nat, h: Held, h': Held, r: GasEstimation) returns (p': Progress)
      requires env.Valid() && s.Of(env)
      requires i < |s.calls| && GenesisApart(env.layout, s.calls[i].epoch)
      requires Fits(env.layout, env.cfg.aggressiveBlockHistory, s, i, h)
      requires var l, k := env.layout, env.cfg.aggressiveBlockHistory;
        if h.Serves(env.cfg.cacheExpirationMs, s.calls[i].epoch, s.times[i]) then h' == h && Some(r) == h.estimation
        else
          && h' == Held(NextCache(l, k, h.c, s.calls[i]), Some(r), Some(s.times[i]))
          && r == EstimateWith(env, h.c, s.calls[i])
      ensures p'.Fits(env.layout, env.cfg.aggressiveBlockHistory, s, i + 1, h')
      ensures r == s.answers[i]
    {
      Kept(env, s, i, h);
      p' := this;
      if !h.Serves(env.cfg.cacheExpirationMs, s.calls[i].epoch, s.times[i]) {
        assert s.EntryOk(env, i);
        Extends(env, s, i, h);
        p' := Progress(slow + [s.calls[i]], i);
      }
    }
  }

  lemma TipsExtend(slow: seq<Call>, calls: seq<Call>, last: nat, i: nat)
    requires TipsGrow(slow) && TipsGrow(calls) && i < |calls|
    requires slow != [] ==> last < i && slow[|slow| - 1] == calls[last]
    ensures TipsGrow(slow + [calls[i]])
  {
    if slow != [] {
      assert calls[last].version <= calls[i].version;
    }
  }

  /** The cache object is as i calls of a run leave it. */
  ghost predicate OnTrack(cache: GasEstimationCache, env: Env, s: Script, i: nat)
    requires s.Sized()
    reads cache
  {
    cache.Valid(env) && exists p: Progress :: p.Fits(env.layout, env.cfg.aggressiveBlockHistory, s, i, cache.Holding())
  }

  /** The next call of a run, fast or slow. */
  method EstimateNext(cache: GasEstimationCache, env: Env, call: Call, now: nat, ghost s: Script, ghost i: nat)
    returns (r: GasEstimation)
    requires env.Valid() && s.Of(env) && i < |s.calls| && call == s.calls[i] && now == s.times[i]
    requires OnTrack(cache, env, s, i) && GenesisApart(env.layout, call.epoch)
    modifies cache
    ensures OnTrack(cache, env, s, i + 1) && r == s.answers[i]
  {
    ghost var h := cache.Holding();
    ghost var p: Progress :| p.Fits(env.layout, env.cfg.aggressiveBlockHistory, s, i, h);
    r := cache.EstimateGasPrice(env, call, now);
    ghost var p' := p.Next(env, s, i, h, cache.Holding(), r);
  }

  method FreshCache(env: Env, ghost s: Script) returns (cache: GasEstimationCache)
    requires env.Valid() && s.Sized()
    ensures fresh(cache) && OnTrack(cache, env, s, 0)
  {
    cache := new GasEstimationCache();
    assert Progress([], 0).Fits(env.layout, env.cfg.aggressiveBlockHistory, s, 0, cache.Holding());
  }

  /** Call after call on one cache object. */
  method EstimateRun(cache: GasEstimationCache, env: Env, calls: seq<Call>, times: seq<nat>, ghost s: Script)
    returns (results: seq<GasEstimation>)
    requires env.Valid() && s.Of(env) && s.calls == calls && s.times == times
    requires OnTrack(cache, env, s, 0)
    requires forall i :: 0 <= i < |calls| ==> GenesisApart(env.layout, calls[i].epoch)
    modifies cache
    ensures results == s.answers
  {
    results := [];
    for i := 0 to |calls|
      invariant OnTrack(cache, env, s, i)
      invariant |results| == i && forall j :: 0 <= j < i ==> results[j] == s.answers[j]
    {
      var r := EstimateNext(cache, env, calls[i], times[i], s, i);
      results := results + [r];
    }
  }

  /**
   One cache object over any mix of fast and slow calls with tips that never go
   back, where genesis is apart: every answer is what an uncached estimate gives at
   its source, which is that call or one of the same epoch less than an expiration before.
   */
  method EstimateAll(env: Env, calls: seq<Call>, times: seq<nat>) returns (results: seq<GasEstimation>)
    requires env.Valid() && TipsGrow(calls) && |times| == |calls|
    requires forall i :: 0 <= i < |calls| ==> GenesisApart(env.layout, calls[i].epoch)
    ensures results == Answers(env, calls, times)
  {
    ghost var s := ScriptOf(env, calls, times);
    var cache := FreshCache(env, s);
    results := EstimateRun(cache, env, calls, times, s);
  }
}
