/**
 The price cache seen as a window of consecutive blocks of one epoch: what a
 slow call uses, what it leaves, and how the list it uses compares with the
 uncached walk, call by call and over whole runs.
 */
module GasWindow {
  import opened Common
  import opened GasChain

  /** Blocks lo, ..., hi of the cached epoch. */
  datatype Window = Empty | Window(lo: nat, hi: nat)

  datatype Cache = Cache(epoch: Option<nat>, window: Window)

  datatype Call = Call(epoch: nat, version: nat)

  /** A gap-free run within one epoch, as long as the history allows or reaching down to the floor. */
  ghost predicate WindowOk(l: Layout, k: nat, epoch: nat, w: Window)
    requires l.Valid()
  {
    w.Window? ==>
      && w.lo <= w.hi < |l.ends|
      && l.epochs[w.lo] == l.epochs[w.hi] == epoch
      && w.hi - w.lo + 1 <= k
      && (w.hi - w.lo + 1 == k || w.lo <= l.Floor(w.hi))
  }

  ghost predicate CacheOk(l: Layout, k: nat, c: Cache)
    requires l.Valid()
  {
    if c.epoch.None? then c.window.Empty? else WindowOk(l, k, c.epoch.value, c.window)
  }

  predicate Inside(w: Window, t: nat) {
    w.Window? && w.lo <= t <= w.hi
  }

  /** Whether the walk from block t runs into a cached block. */
  predicate Hit(k: nat, w: Window, t: nat) {
    Inside(w, t) || (w.Window? && 1 <= w.hi < t < w.hi + k)
  }

  /** The lowest block the walk from t prices afresh; t + 1 when there is none. */
  function NewLo(l: Layout, k: nat, w: Window, t: nat): (lo: nat)
    requires l.Valid() && t < |l.ends| && k > 0
    ensures lo <= t + 1
  {
    if Inside(w, t) then t + 1
    else if w.Window? && w.hi < t then Max(l.FreshLo(t, k), w.hi + 1)
    else l.FreshLo(t, k)
  }

  /** The lowest block of the list a slow call uses. */
  function UsedLo(l: Layout, k: nat, w: Window, t: nat): nat
    requires l.Valid() && t < |l.ends| && k > 0
  {
    if Hit(k, w, t) then Max(w.lo, t - k + 1) else l.FreshLo(t, k)
  }

  function NextWindow(l: Layout, k: nat, w: Window, t: nat): Window
    requires l.Valid() && t < |l.ends| && k > 0
  {
    if w.Empty? then Window(l.FreshLo(t, k), t)
    else
      var hi := Max(w.hi, t);
      Window(Max(Min(w.lo, l.FreshLo(t, k)), hi - k + 1), hi)
  }

  /** The window a slow call for the epoch starts from. */
  function WindowFor(c: Cache, epoch: nat): Window {
    if c.epoch == Some(epoch) then c.window else Empty
  }

  function NextCache(l: Layout, k: nat, c: Cache, call: Call): Cache
    requires l.Valid() && k > 0
  {
    var w := WindowFor(c, call.epoch);
    var t := l.Start(call.epoch, call.version);
    Cache(Some(call.epoch), if t.Some? then NextWindow(l, k, w, t.value) else w)
  }

  /** The blocks whose prices a slow call uses, newest first. */
  function Used(l: Layout, k: nat, c: Cache, call: Call): (used: seq<nat>)
    requires l.Valid() && k > 0
    ensures forall j :: 0 <= j < |used| ==> used[j] < |l.ends|
  {
    var t := l.Start(call.epoch, call.version);
    if t.None? then []
    else
      var lo := UsedLo(l, k, WindowFor(c, call.epoch), t.value);
      if lo <= t.value then Desc(lo, t.value) else []
  }

  function Fresh(l: Layout, k: nat, call: Call): seq<nat>
    requires l.Valid()
  {
    l.FreshWalk(call.epoch, l.StartLookup(call.epoch, call.version), k)
  }

  /**
   The uncached list in terms of the chain: of the blocks before the one that holds
   the version, those of its epoch that are no more than k blocks back, newest first.
   Genesis is listed only when there is nothing between it and the version.
   */
  lemma FreshListsExactly(l: Layout, k: nat, call: Call, i: nat)
    requires l.Valid() && k > 0
    ensures var tip := l.Find(call.version);
      i in Fresh(l, k, call) <==>
        && tip.Some? && l.epochs[tip.value] == call.epoch && i <= tip.value && l.epochs[i] == call.epoch
        && (i < tip.value || tip.value == 0) && tip.value <= i + k && (i == 0 ==> tip.value <= 1)
    ensures forall a, b :: 0 <= a < b < |Fresh(l, k, call)| ==> Fresh(l, k, call)[a] > Fresh(l, k, call)[b]
  {
    var tip, t := l.Find(call.version), l.Start(call.epoch, call.version);
    l.FreshIs(call.epoch, call.version, k);
    if t.Some? {
      var lo := l.FreshLo(t.value, k);
      InDesc(lo, t.value, i);
      if 1 <= i <= t.value {
        l.FloorIsLowest(t.value, i);
      }
    } else if tip.Some? && l.epochs[tip.value] == call.epoch && i < tip.value && l.epochs[i] == call.epoch {
      l.SameEpochBetween(i, tip.value - 1, tip.value);
    }
  }

  lemma InDesc(lo: nat, hi: nat, i: nat)
    requires lo <= hi + 1
    ensures i in Desc(lo, hi) <==> lo <= i <= hi
  {
    if lo <= i <= hi {
      assert Desc(lo, hi)[hi - i] == i;
    }
  }

  // ---- One call ----

  /** Every slow call, for any tip and epoch, leaves a gap-free window within the history limit. */
  lemma NextCacheOk(l: Layout, k: nat, c: Cache, call: Call)
    requires l.Valid() && k > 0 && CacheOk(l, k, c)
    ensures CacheOk(l, k, NextCache(l, k, c, call))
  {
    var w := WindowFor(c, call.epoch);
    var t := l.Start(call.epoch, call.version);
    if t.Some? {
      NextWindowOk(l, k, call.epoch, w, t.value);
    }
  }

  lemma NextWindowOk(l: Layout, k: nat, epoch: nat, w: Window, t: nat)
    requires l.Valid() && k > 0 && WindowOk(l, k, epoch, w) && t < |l.ends| && l.epochs[t] == epoch
    ensures WindowOk(l, k, epoch, NextWindow(l, k, w, t))
  {
    l.FreshLoEpoch(t, k);
    if w.Window? {
      var n := NextWindow(l, k, w, t);
      l.SameEpochBetween(Min(w.lo, l.FreshLo(t, k)), n.lo, n.hi);
      FloorsAgree(l, w.hi, t);
    }
  }

  lemma FloorsAgree(l: Layout, i: nat, j: nat)
    requires l.Valid() && i < |l.ends| && j < |l.ends| && l.epochs[i] == l.epochs[j]
    ensures i >= 1 && j >= 1 ==> l.Floor(i) == l.Floor(j)
    ensures forall m :: 1 <= m <= i && l.epochs[m] == l.epochs[i] ==> l.Floor(i) <= m
  {
    if 1 <= i <= j {
      l.SameFloor(j, i);
    } else if 1 <= j <= i {
      l.SameFloor(i, j);
    }
    forall m | 1 <= m <= i && l.epochs[m] == l.epochs[i] ensures l.Floor(i) <= m {
      l.SameFloor(i, m);
    }
  }

  /**
   The cached walk lists version 0 where the uncached one stops short of it:
   the window reaches genesis and the history is long enough to get there.
   */
  predicate ReachesGenesis(k: nat, w: Window, t: nat) {
    Hit(k, w, t) && w.lo == 0 && 1 <= t < k
  }

  /** Older blocks the uncached walk would list are no longer in the window that the tip falls into. */
  predicate Evicted(l: Layout, k: nat, w: Window, t: nat)
    requires l.Valid() && t < |l.ends| && k > 0
  {
    Inside(w, t) && l.FreshLo(t, k) < w.lo
  }

  lemma UsedLoExactly(l: Layout, k: nat, epoch: nat, w: Window, t: nat)
    requires l.Valid() && k > 0 && WindowOk(l, k, epoch, w) && t < |l.ends| && l.epochs[t] == epoch
    ensures UsedLo(l, k, w, t) <= t
    ensures UsedLo(l, k, w, t) < l.FreshLo(t, k) <==> ReachesGenesis(k, w, t)
    ensures UsedLo(l, k, w, t) > l.FreshLo(t, k) <==> Evicted(l, k, w, t)
  {
    if Hit(k, w, t) && t >= 1 {
      l.SameEpochBetween(w.lo, Max(w.lo, 1), t);
      l.SameFloor(t, Max(w.lo, 1));
      if w.hi < t {
        l.SameFloor(t, w.hi);
      }
    }
  }

  /** The list used is a prefix of the uncached list, and all of it, under exactly these conditions. */
  lemma UsedVersusFresh(l: Layout, k: nat, c: Cache, call: Call)
    requires l.Valid() && k > 0 && CacheOk(l, k, c)
    ensures var w, t := WindowFor(c, call.epoch), l.Start(call.epoch, call.version);
      var used, uncached := Used(l, k, c, call), Fresh(l, k, call);
      && (used <= uncached <==> !(t.Some? && ReachesGenesis(k, w, t.value)))
      && (used == uncached <==> !(t.Some? && (ReachesGenesis(k, w, t.value) || Evicted(l, k, w, t.value))))
  {
    var w, t := WindowFor(c, call.epoch), l.Start(call.epoch, call.version);
    l.FreshIs(call.epoch, call.version, k);
    if t.Some? {
      UsedLoExactly(l, k, call.epoch, w, t.value);
      DescPrefix(UsedLo(l, k, w, t.value), l.FreshLo(t.value, k), t.value);
    }
  }

  lemma DescPrefix(a: nat, b: nat, hi: nat)
    requires a <= hi && b <= hi
    ensures Desc(a, hi) <= Desc(b, hi) <==> a >= b
    ensures Desc(a, hi) == Desc(b, hi) <==> a == b
  {
    assert |Desc(a, hi)| == hi - a + 1 && |Desc(b, hi)| == hi - b + 1;
  }

  // ---- Runs ----

  /** The cache before call i of a run of slow calls. */
  function CacheAt(l: Layout, k: nat, calls: seq<Call>, i: nat): Cache
    requires l.Valid() && k > 0 && i <= |calls|
  {
    if i == 0 then Cache(None, Empty) else NextCache(l, k, CacheAt(l, k, calls, i - 1), calls[i - 1])
  }

  /** For calls in any order, with stale tips and stale epochs, the cache stays a gap-free bounded window. */
  lemma {:induction false} RunCacheOk(l: Layout, k: nat, calls: seq<Call>, i: nat)
    requires l.Valid() && k > 0 && i <= |calls|
    ensures CacheOk(l, k, CacheAt(l, k, calls, i))
  {
    if i > 0 {
      RunCacheOk(l, k, calls, i - 1);
      NextCacheOk(l, k, CacheAt(l, k, calls, i - 1), calls[i - 1]);
    }
  }

  /** Version 0 is in another epoch, or its epoch ends with it. */
  ghost predicate GenesisApart(l: Layout, epoch: nat)
    requires l.Valid()
  {
    l.epochs[0] == epoch && |l.ends| > 1 ==> l.epochs[0] < l.epochs[1]
  }

  lemma ApartNeverReaches(l: Layout, k: nat, epoch: nat, w: Window, t: nat)
    requires l.Valid() && WindowOk(l, k, epoch, w) && t < |l.ends| && l.epochs[t] == epoch && GenesisApart(l, epoch)
    ensures !ReachesGenesis(k, w, t)
  {
    if t >= 1 {
      l.Increasing(1, t);
    }
  }

  /** In any run, every slow call where genesis is apart uses a prefix of the uncached list. */
  lemma RunUsesPrefix(l: Layout, k: nat, calls: seq<Call>, i: nat)
    requires l.Valid() && k > 0 && i < |calls| && GenesisApart(l, calls[i].epoch)
    ensures Used(l, k, CacheAt(l, k, calls, i), calls[i]) <= Fresh(l, k, calls[i])
  {
    var c := CacheAt(l, k, calls, i);
    RunCacheOk(l, k, calls, i);
    UsedVersusFresh(l, k, c, calls[i]);
    var t := l.Start(calls[i].epoch, calls[i].version);
    if t.Some? {
      ApartNeverReaches(l, k, calls[i].epoch, WindowFor(c, calls[i].epoch), t.value);
    }
  }

  lemma StartMonotone(l: Layout, epoch: nat, v: nat, v': nat)
    requires l.Valid() && v <= v' && l.Start(epoch, v).Some? && l.Start(epoch, v').Some?
    ensures l.Start(epoch, v).value <= l.Start(epoch, v').value
  {
    l.FindMonotone(v, v');
  }

  /** The top of the window is where some earlier call for its epoch started. */
  lemma {:induction false} TopFromEarlierCall(l: Layout, k: nat, calls: seq<Call>, i: nat) returns (j: nat)
    requires l.Valid() && k > 0 && i <= |calls| && CacheAt(l, k, calls, i).window.Window?
    ensures j < i && CacheAt(l, k, calls, i).epoch == Some(calls[j].epoch)
    ensures l.Start(calls[j].epoch, calls[j].version) == Some(CacheAt(l, k, calls, i).window.hi)
  {
    var before, call := CacheAt(l, k, calls, i - 1), calls[i - 1];
    var t := l.Start(call.epoch, call.version);
    if t == Some(CacheAt(l, k, calls, i).window.hi) {
      j := i - 1;
    } else {
      assert WindowFor(before, call.epoch) == before.window;
      assert before.window.hi == CacheAt(l, k, calls, i).window.hi;
      j := TopFromEarlierCall(l, k, calls, i - 1);
    }
  }

  /**
   With ledger versions that never go back, across any epoch changes, every slow
   call uses exactly the uncached list, unless it is in the epoch of version 0
   and the window reaches down to it.
   */
  lemma RunMatchesUncached(l: Layout, k: nat, calls: seq<Call>, i: nat)
    requires l.Valid() && k > 0 && i < |calls|
    requires forall a, b :: 0 <= a < b < |calls| ==> calls[a].version <= calls[b].version
    ensures var c, t := CacheAt(l, k, calls, i), l.Start(calls[i].epoch, calls[i].version);
      Used(l, k, c, calls[i]) == Fresh(l, k, calls[i]) <==>
        !(t.Some? && ReachesGenesis(k, WindowFor(c, calls[i].epoch), t.value))
    ensures GenesisApart(l, calls[i].epoch) ==>
      Used(l, k, CacheAt(l, k, calls, i), calls[i]) == Fresh(l, k, calls[i])
  {
    var c, t := CacheAt(l, k, calls, i), l.Start(calls[i].epoch, calls[i].version);
    var w := WindowFor(c, calls[i].epoch);
    RunCacheOk(l, k, calls, i);
    UsedVersusFresh(l, k, c, calls[i]);
    if t.Some? {
      if w.Window? {
        var j := TopFromEarlierCall(l, k, calls, i);
        StartMonotone(l, calls[i].epoch, calls[j].version, calls[i].version);
        NoEvictionAtTop(l, k, calls[i].epoch, w, t.value);
      }
      if GenesisApart(l, calls[i].epoch) {
        ApartNeverReaches(l, k, calls[i].epoch, w, t.value);
      }
    }
  }

  /**
   When genesis ends its epoch, as the genesis ledger info says it does, every slow
   call of a run with tips that never go back uses exactly the uncached list.
   */
  lemma AlwaysUncachedAfterGenesis(l: Layout, k: nat, calls: seq<Call>, i: nat)
    requires l.Valid() && k > 0 && i < |calls|
    requires |l.ends| > 1 ==> l.epochs[0] < l.epochs[1]
    requires forall a, b :: 0 <= a < b < |calls| ==> calls[a].version <= calls[b].version
    ensures Used(l, k, CacheAt(l, k, calls, i), calls[i]) == Fresh(l, k, calls[i])
  {
    RunMatchesUncached(l, k, calls, i);
  }

  lemma NoEvictionAtTop(l: Layout, k: nat, epoch: nat, w: Window, t: nat)
    requires l.Valid() && k > 0 && WindowOk(l, k, epoch, w) && w.Window?
    requires w.hi <= t < |l.ends| && l.epochs[t] == epoch
    ensures !Evicted(l, k, w, t)
  {
  }

  /**
   If the epoch of version 0 goes on after it, the two lists can differ.  Blocks end at 0, 3, 7 and 9;
   calls at tips 0, 5 and 8 leave genesis in the window, and the third lists it.
   */
  lemma GenesisCounterexample()
    ensures var l := Layout([0, 3, 7, 9], [0, 0, 0, 0]);
      var calls := [Call(0, 0), Call(0, 5), Call(0, 8)];
      && l.Valid()
      && Used(l, 4, CacheAt(l, 4, calls, 2), calls[2]) == [2, 1, 0]
      && Fresh(l, 4, calls[2]) == [2, 1]
  {
    var l := Layout([0, 3, 7, 9], [0, 0, 0, 0]);
    GenesisExampleStarts(l);
    GenesisExampleLists(l, [Call(0, 0), Call(0, 5), Call(0, 8)]);
  }

  lemma GenesisExampleLists(l: Layout, calls: seq<Call>)
    requires l.Valid() && |l.ends| == 4 && calls == [Call(0, 0), Call(0, 5), Call(0, 8)]
    requires l.Start(0, 0) == Some(0) && l.Start(0, 5) == Some(1) && l.Start(0, 8) == Some(2)
    requires l.Floor(0) == 0 && l.Floor(1) == 1 && l.Floor(2) == 1
    ensures Used(l, 4, CacheAt(l, 4, calls, 2), calls[2]) == [2, 1, 0]
    ensures Fresh(l, 4, calls[2]) == [2, 1]
  {
    var c1 := NextCache(l, 4, Cache(None, Empty), calls[0]);
    assert CacheAt(l, 4, calls, 1) == c1 == Cache(Some(0), Window(0, 0));
    assert NextCache(l, 4, c1, calls[1]) == Cache(Some(0), Window(0, 1));
    l.FreshIs(0, 8, 4);
    assert Desc(0, 2) == [2, 1, 0] && Desc(1, 2) == [2, 1];
  }

  lemma GenesisExampleStarts(l: Layout)
    requires l == Layout([0, 3, 7, 9], [0, 0, 0, 0])
    ensures l.Valid()
    ensures l.Start(0, 0) == Some(0) && l.Start(0, 5) == Some(1) && l.Start(0, 8) == Some(2)
    ensures l.Floor(0) == 0 && l.Floor(1) == 1 && l.Floor(2) == 1
  {
    l.FindUnique(0, 0);
    l.FindUnique(5, 2);
    l.FindUnique(8, 3);
  }
}
