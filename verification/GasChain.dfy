/**
 The chain as the estimator sees it, and the uncached walk back from a ledger
 tip.  Block lookups are stable and succeed up to the end of the chain; on-chain
 configuration is constant within an epoch.
 */
module GasChain {
  import opened Common
  import opened GasPrice

  /** hi, hi - 1, ..., lo. */
  function Desc(lo: nat, hi: int): seq<nat>
    requires lo <= hi + 1
  {
    seq(hi - lo + 1, j requires 0 <= j < hi - lo + 1 => hi - j)
  }

  lemma DescCons(lo: nat, hi: nat)
    requires lo <= hi
    ensures Desc(lo, hi) == [hi] + Desc(lo, hi - 1)
  {
  }

  lemma DescInit(lo: nat, hi: nat)
    requires lo <= hi
    ensures Desc(lo, hi) == Desc(lo + 1, hi) + [lo]
  {
  }

  /** Triggers the order of blocks where a proof asks for it. */
  ghost predicate Before(i: int, j: int) {
    i < j
  }

  /** Block i ends at version ends[i] and starts right after block i - 1; genesis is version 0 alone. */
  datatype Layout = Layout(ends: seq<nat>, epochs: seq<nat>) {

    ghost predicate Valid() {
      && |ends| == |epochs| > 0
      && ends[0] == 0
      && (forall i, j {:trigger Before(i, j)} :: Before(i, j) && 0 <= i && j < |ends| ==>
           ends[i] < ends[j] && epochs[i] <= epochs[j])
    }

    /** Later blocks end later and are in no earlier epoch. */
    lemma Increasing(i: nat, j: nat)
      requires Valid() && i <= j < |ends|
      ensures ends[i] <= ends[j] && epochs[i] <= epochs[j]
      ensures i < j ==> ends[i] < ends[j]
    {
      assert i < j ==> Before(i, j);
    }

    function First(i: nat): nat
      requires i < |ends|
    {
      if i == 0 then 0 else ends[i - 1] + 1
    }

    /** The block that holds a version: get_block_info_by_version. */
    function Find(version: nat): (r: Option<nat>)
      requires Valid()
      ensures r.Some? ==> r.value < |ends| && First(r.value) <= version <= ends[r.value]
      ensures r.None? ==> ends[|ends| - 1] < version
    {
      FindFrom(version, 0)
    }

    function FindFrom(version: nat, i: nat): (r: Option<nat>)
      requires Valid() && i <= |ends| && (i > 0 ==> ends[i - 1] < version)
      ensures r.Some? ==> r.value < |ends| && First(r.value) <= version <= ends[r.value]
      ensures r.None? ==> ends[|ends| - 1] < version
      decreases |ends| - i
    {
      if i == |ends| then None
      else if version <= ends[i] then Some(i)
      else FindFrom(version, i + 1)
    }

    lemma FindUnique(version: nat, i: nat)
      requires Valid() && i < |ends| && First(i) <= version <= ends[i]
      ensures Find(version) == Some(i)
    {
      Increasing(i, |ends| - 1);
      var r := Find(version).value;
      if r < i {
        Increasing(r, i - 1);
      } else if i < r {
        Increasing(i, r - 1);
      }
    }

    lemma FindMonotone(v: nat, v': nat)
      requires Valid() && v <= v' && Find(v').Some?
      ensures Find(v).Some? && Find(v).value <= Find(v').value
    {
      var i := Find(v').value;
      Increasing(i, |ends| - 1);
      if i < Find(v).value {
        Increasing(i, Find(v).value - 1);
      }
    }

    lemma FirstWithin(i: nat)
      requires Valid() && i < |ends|
      ensures First(i) <= ends[i]
    {
      if i > 0 {
        Increasing(i - 1, i);
      }
    }

    /** The block that ends at a version, or -1. */
    function EndIndex(version: nat): (i: int)
      requires Valid()
      ensures -1 <= i < |ends| && (i >= 0 ==> ends[i] == version)
    {
      var found := Find(version);
      if found.Some? && ends[found.value] == version then found.value else -1
    }

    lemma EndIndexOf(i: nat)
      requires Valid() && i < |ends|
      ensures Find(ends[i]) == Some(i) && EndIndex(ends[i]) == i
    {
      FirstWithin(i);
      FindUnique(ends[i], i);
    }

    lemma SameEpochBetween(i: nat, j: nat, k: nat)
      requires Valid() && i <= j <= k < |ends| && epochs[i] == epochs[k]
      ensures epochs[j] == epochs[k]
    {
      Increasing(i, j);
      Increasing(j, k);
    }

    // ---- The uncached walk ----

    /** The block of the tip is skipped, as it may be partial. */
    function StartLookup(epoch: nat, version: nat): nat
      requires Valid()
    {
      var tip := Find(version);
      if tip.Some? && epochs[tip.value] == epoch then Max(First(tip.value) - 1, 0) else version
    }

    /** Walk back block by block while the epoch lasts, at most `limit` blocks, stopping once version 0 is next. */
    function FreshWalk(epoch: nat, lookup: nat, limit: nat): seq<nat>
      requires Valid()
      decreases limit
    {
      if limit == 0 then [] else
      var found := Find(lookup);
      if found.None? || epochs[found.value] != epoch then [] else
      var next := Max(First(found.value) - 1, 0);
      [found.value] + (if next == 0 then [] else FreshWalk(epoch, next, limit - 1))
    }

    /** The first block the walk looks at, when it belongs to the epoch. */
    function Start(epoch: nat, version: nat): (t: Option<nat>)
      requires Valid()
      ensures t.Some? ==> t.value < |ends| && epochs[t.value] == epoch && ends[t.value] <= version
    {
      var tip := Find(version);
      if tip.None? || epochs[tip.value] != epoch then None
      else if tip.value == 0 then Some(0)
      else if epochs[tip.value - 1] == epoch then Some(tip.value - 1)
      else None
    }

    /** The lookup begins at the end of that block, or nowhere in the epoch. */
    lemma StartLookupIs(epoch: nat, version: nat)
      requires Valid()
      ensures var t, l := Start(epoch, version), StartLookup(epoch, version);
        if t.Some? then l == ends[t.value] else Find(l).None? || epochs[Find(l).value] != epoch
    {
      var tip := Find(version);
      if tip.Some? && tip.value > 0 {
        EndIndexOf(tip.value - 1);
      }
    }

    /** The lowest block an unlimited walk from block i would list: never genesis, unless it starts there. */
    function Floor(i: nat): (f: nat)
      requires Valid() && i < |ends|
      ensures f <= i && (f == 0 <==> i == 0) && epochs[f] == epochs[i]
    {
      if i <= 1 then i else if epochs[i - 1] != epochs[i] then i else Floor(i - 1)
    }

    lemma {:induction false} SameFloor(i: nat, j: nat)
      requires Valid() && 1 <= j <= i < |ends| && epochs[i] == epochs[j]
      ensures Floor(i) == Floor(j)
    {
      if j < i {
        SameEpochBetween(j, i - 1, i);
        SameFloor(i - 1, j);
      }
    }

    /** The lowest block the walk lists from block t under a history limit. */
    function FreshLo(t: nat, limit: nat): (lo: nat)
      requires Valid() && t < |ends| && limit > 0
      ensures Floor(t) <= lo <= t < lo + limit
    {
      Max(Floor(t), t - limit + 1)
    }

    lemma FreshLoEpoch(t: nat, limit: nat)
      requires Valid() && t < |ends| && limit > 0
      ensures epochs[FreshLo(t, limit)] == epochs[t]
    {
      SameEpochBetween(Floor(t), FreshLo(t, limit), t);
    }

    /** Below the block in hand the walk goes on at the end of the block before it, unless that is version 0. */
    lemma NextLookup(t: nat)
      requires Valid() && t < |ends|
      ensures Max(First(t) - 1, 0) == if t <= 1 then 0 else ends[t - 1]
      ensures t > 1 ==> ends[t - 1] > 0
    {
      if t > 1 {
        Increasing(0, t - 1);
      }
    }

    lemma FreshWalkStep(t: nat, limit: nat)
      requires Valid() && t < |ends| && limit > 0
      ensures FreshWalk(epochs[t], ends[t], limit) ==
        [t] + if t <= 1 then [] else FreshWalk(epochs[t], ends[t - 1], limit - 1)
    {
      EndIndexOf(t);
      NextLookup(t);
    }

    /** Nothing is listed from a block of another epoch. */
    lemma FreshWalkElsewhere(epoch: nat, t: nat, limit: nat)
      requires Valid() && t < |ends| && (limit == 0 || epochs[t] != epoch)
      ensures FreshWalk(epoch, ends[t], limit) == []
    {
      if limit > 0 {
        EndIndexOf(t);
      }
    }

    lemma FreshWalkStops(t: nat, limit: nat)
      requires Valid() && t < |ends| && limit > 0
      requires t <= 1 || limit == 1 || epochs[t - 1] != epochs[t]
      ensures FreshWalk(epochs[t], ends[t], limit) == [t]
    {
      FreshWalkStep(t, limit);
      var rest := if t <= 1 then [] else FreshWalk(epochs[t], ends[t - 1], limit - 1);
      if t > 1 {
        FreshWalkElsewhere(epochs[t], t - 1, limit - 1);
      }
      assert rest == [];
    }

    lemma {:induction false} FreshWalkIs(epoch: nat, t: nat, limit: nat)
      requires Valid() && t < |ends| && limit > 0 && epochs[t] == epoch
      ensures FreshWalk(epoch, ends[t], limit) == Desc(FreshLo(t, limit), t)
      decreases limit
    {
      if t <= 1 || limit == 1 || epochs[t - 1] != epoch {
        FreshWalkStops(t, limit);
        assert FreshLo(t, limit) == t;
      } else {
        var lo, rest := FreshLo(t, limit), FreshWalk(epoch, ends[t - 1], limit - 1);
        FreshWalkIs(epoch, t - 1, limit - 1);
        assert rest == Desc(lo, t - 1);
        FreshWalkStep(t, limit);
        DescCons(lo, t);
      }
    }

    lemma {:induction false} FloorIsLowest(t: nat, i: nat)
      requires Valid() && 1 <= i <= t < |ends|
      ensures Floor(t) <= i <==> epochs[i] == epochs[t]
      decreases t - i
    {
      if i < t {
        FloorIsLowest(t, i + 1);
        SameFloorBelow(t, i);
      }
    }

    lemma SameFloorBelow(t: nat, i: nat)
      requires Valid() && 1 <= i < t < |ends| && (Floor(t) <= i + 1 <==> epochs[i + 1] == epochs[t])
      ensures Floor(t) <= i <==> epochs[i] == epochs[t]
    {
      if epochs[i] == epochs[t] {
        SameFloor(t, i);
      } else if Floor(t) <= i {
        SameEpochBetween(Floor(t), i, t);
      }
    }

    /** The uncached list: the blocks from the start down to the limit or the start of the epoch. */
    lemma FreshIs(epoch: nat, version: nat, limit: nat)
      requires Valid() && limit > 0
      ensures var t := Start(epoch, version);
        FreshWalk(epoch, StartLookup(epoch, version), limit) ==
        if t.Some? then Desc(FreshLo(t.value, limit), t.value) else []
    {
      StartLookupIs(epoch, version);
      if Start(epoch, version).Some? {
        FreshWalkIs(epoch, Start(epoch, version).value, limit);
      }
    }
  }

  // ---- Blocks and prices ----

  /** The histories are positive and the aggressive one is the longest, as the configuration sanitizer demands. */
  predicate Sanitized(cfg: Config) {
    && 0 < cfg.lowBlockHistory <= cfg.aggressiveBlockHistory
    && 0 < cfg.marketBlockHistory <= cfg.aggressiveBlockHistory
  }

  datatype Env = Env(
    layout: Layout,
    txns: seq<seq<Txn>>,
    cfg: Config,
    minPriceAt: nat -> nat,
    execAt: nat -> ExecConfig)
  {

    ghost predicate Valid() {
      && layout.Valid()
      && Sanitized(cfg)
      && |txns| == |layout.ends|
      && (forall i {:trigger txns[i]} :: 0 <= i < |txns| ==> |txns[i]| == layout.ends[i] - layout.First(i) + 1)
      && (forall i :: 0 <= i < |txns| ==> !Outcome(i).Panicked?)
    }

    /** No user transaction on chain offers less than its epoch's minimum. */
    ghost predicate RespectsMinimum() {
      forall i :: 0 <= i < |txns| && i < |layout.epochs| ==> RespectsMin(txns[i], minPriceAt(layout.epochs[i]))
    }

    function BlockAt(i: nat): (b: Block)
      requires layout.Valid() && |txns| == |layout.ends| && i < |txns|
      requires |txns[i]| == layout.ends[i] - layout.First(i) + 1
      ensures b.Valid() && b.Last() == layout.ends[i]
    {
      layout.FirstWithin(i);
      Block(layout.First(i), layout.epochs[i], txns[i])
    }

    ghost function Outcome(i: nat): GasPrice.Outcome
      requires layout.Valid() && |txns| == |layout.ends| && i < |txns|
      requires |txns[i]| == layout.ends[i] - layout.First(i) + 1
    {
      BlockPrice(cfg, execAt(layout.epochs[i]), BlockAt(i))
    }

    /** The price recorded for a block, at any tip past it. */
    ghost function Price(i: nat): nat
      requires Valid() && i < |layout.ends|
    {
      if Outcome(i).Priced? then Outcome(i).price else minPriceAt(layout.epochs[i])
    }

    /** Every block's price, by block. */
    ghost function AllPrices(): (p: seq<nat>)
      requires Valid()
      ensures |p| == |layout.ends|
    {
      seq(|layout.ends|, i requires 0 <= i < |layout.ends| => Price(i))
    }

    lemma PriceIs(i: nat, outcome: GasPrice.Outcome)
      requires Valid() && i < |layout.ends| && outcome == BlockPrice(cfg, execAt(layout.epochs[i]), BlockAt(i))
      ensures AllPrices()[i] == if outcome.Priced? then outcome.price else minPriceAt(layout.epochs[i])
    {
    }

    lemma PriceRespectsMinimum(i: nat)
      requires Valid() && RespectsMinimum() && i < |layout.ends|
      ensures minPriceAt(layout.epochs[i]) <= Price(i)
    {
      BlockPriceRespectsMin(cfg, execAt(layout.epochs[i]), BlockAt(i), minPriceAt(layout.epochs[i]));
    }

    lemma PricesRespectMinimum(lo: nat, hi: nat)
      requires Valid() && RespectsMinimum() && lo <= hi < |layout.ends|
      requires layout.epochs[lo] == layout.epochs[hi]
      ensures forall p :: p in At(AllPrices(), Desc(lo, hi)) ==> minPriceAt(layout.epochs[hi]) <= p
    {
      var price, low := AllPrices(), minPriceAt(layout.epochs[hi]);
      forall i | lo <= i <= hi ensures low <= price[i] {
        PriceWithin(lo, i, hi);
      }
      AtLeast(price, lo, hi, low);
    }

    lemma PriceWithin(lo: nat, i: nat, hi: nat)
      requires Valid() && RespectsMinimum() && lo <= i <= hi < |layout.ends|
      requires layout.epochs[lo] == layout.epochs[hi]
      ensures minPriceAt(layout.epochs[hi]) <= AllPrices()[i]
    {
      PriceRespectsMinimum(i);
      layout.SameEpochBetween(lo, i, hi);
    }
  }

  lemma AtLeast(price: seq<nat>, lo: nat, hi: nat, low: nat)
    requires lo <= hi < |price| && forall i :: lo <= i <= hi ==> low <= price[i]
    ensures forall p :: p in At(price, Desc(lo, hi)) ==> low <= p
  {
  }

  /** The prices of the listed blocks. */
  function At(price: seq<nat>, blocks: seq<nat>): seq<nat>
    requires forall j :: 0 <= j < |blocks| ==> blocks[j] < |price|
  {
    seq(|blocks|, j requires 0 <= j < |blocks| => price[blocks[j]])
  }
}
