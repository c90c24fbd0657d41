/** The three estimates taken from the list of recent blocks' minimum inclusion prices. */
module GasStatistics {
  import opened Common
  import opened GasPrice

  datatype GasEstimation = GasEstimation(deprioritized: nat, market: nat, prioritized: nat)

  ghost predicate Ordered(e: GasEstimation, minPrice: nat) {
    minPrice <= e.deprioritized <= e.market <= e.prioritized
  }

  // ---- Sorting and counting ----

  ghost predicate IsSorted(s: seq<nat>) {
    forall i, j :: 0 <= i < j < |s| ==> s[i] <= s[j]
  }

  function Insert(x: nat, s: seq<nat>): (r: seq<nat>)
    ensures |r| == |s| + 1
  {
    if s == [] || x <= s[0] then [x] + s else [s[0]] + Insert(x, s[1..])
  }

  function Sort(s: seq<nat>): (r: seq<nat>)
    ensures |r| == |s|
  {
    if s == [] then [] else Insert(s[0], Sort(s[1..]))
  }

  function CountLe(s: seq<nat>, x: nat): nat {
    if s == [] then 0 else (if s[0] <= x then 1 else 0) + CountLe(s[1..], x)
  }

  function CountLt(s: seq<nat>, x: nat): nat {
    if s == [] then 0 else (if s[0] < x then 1 else 0) + CountLt(s[1..], x)
  }

  lemma {:induction false} InsertKeepsElements(x: nat, s: seq<nat>)
    ensures multiset(Insert(x, s)) == multiset(s) + multiset{x}
  {
    if s != [] && x > s[0] {
      InsertKeepsElements(x, s[1..]);
      assert s == [s[0]] + s[1..];
    }
  }

  lemma {:induction false} InsertKeepsOrder(x: nat, s: seq<nat>)
    requires IsSorted(s)
    ensures IsSorted(Insert(x, s))
  {
    if s != [] && x > s[0] {
      var rest := Insert(x, s[1..]);
      InsertKeepsOrder(x, s[1..]);
      InsertBounded(x, s[1..], s[0]);
      assert Insert(x, s) == [s[0]] + rest;
    } else {
      assert Insert(x, s) == [x] + s;
    }
  }

  lemma {:induction false} InsertBounded(x: nat, s: seq<nat>, low: nat)
    requires low <= x && forall i :: 0 <= i < |s| ==> low <= s[i]
    ensures forall i :: 0 <= i < |Insert(x, s)| ==> low <= Insert(x, s)[i]
  {
    if s != [] && x > s[0] {
      InsertBounded(x, s[1..], low);
      assert Insert(x, s) == [s[0]] + Insert(x, s[1..]);
    } else {
      assert Insert(x, s) == [x] + s;
    }
  }

  lemma {:induction false} InsertKeepsCounts(x: nat, s: seq<nat>, y: nat)
    ensures CountLe(Insert(x, s), y) == CountLe(s, y) + (if x <= y then 1 else 0)
    ensures CountLt(Insert(x, s), y) == CountLt(s, y) + (if x < y then 1 else 0)
  {
    if s != [] && x > s[0] {
      InsertKeepsCounts(x, s[1..], y);
      assert ([s[0]] + Insert(x, s[1..]))[1..] == Insert(x, s[1..]);
    } else {
      assert ([x] + s)[1..] == s;
    }
  }

  lemma {:induction false} SortOrders(s: seq<nat>)
    ensures IsSorted(Sort(s))
  {
    if s != [] {
      SortOrders(s[1..]);
      InsertKeepsOrder(s[0], Sort(s[1..]));
    }
  }

  lemma {:induction false} SortKeepsElements(s: seq<nat>)
    ensures multiset(Sort(s)) == multiset(s)
  {
    if s != [] {
      SortKeepsElements(s[1..]);
      InsertKeepsElements(s[0], Sort(s[1..]));
      assert s == [s[0]] + s[1..];
    }
  }

  lemma {:induction false} SortKeepsCounts(s: seq<nat>, y: nat)
    ensures CountLe(Sort(s), y) == CountLe(s, y) && CountLt(Sort(s), y) == CountLt(s, y)
  {
    if s != [] {
      SortKeepsCounts(s[1..], y);
      InsertKeepsCounts(s[0], Sort(s[1..]), y);
    }
  }

  /** Sorting orders the prices and keeps them, so it keeps every count. */
  lemma SortKeeps(s: seq<nat>, y: nat)
    ensures IsSorted(Sort(s)) && multiset(Sort(s)) == multiset(s)
    ensures CountLe(Sort(s), y) == CountLe(s, y) && CountLt(Sort(s), y) == CountLt(s, y)
  {
    SortOrders(s);
    SortKeepsElements(s);
    SortKeepsCounts(s, y);
  }

  /** In a sorted list more than k elements are at most the k-th, and at most k are below it. */
  lemma {:induction false} CountAtRank(s: seq<nat>, k: nat)
    requires IsSorted(s) && k < |s|
    ensures CountLe(s, s[k]) > k && CountLt(s, s[k]) <= k
  {
    if k == 0 {
      NoneBelow(s, s[0]);
    } else {
      CountAtRank(s[1..], k - 1);
    }
  }

  lemma {:induction false} NoneBelow(s: seq<nat>, x: nat)
    requires forall i :: 0 <= i < |s| ==> x <= s[i]
    ensures CountLt(s, x) == 0
  {
    if s != [] {
      NoneBelow(s[1..], x);
    }
  }

  lemma {:induction false} CountLeMonotone(s: seq<nat>, x: nat, y: nat)
    requires x <= y
    ensures CountLe(s, x) <= CountLe(s, y)
  {
    if s != [] {
      CountLeMonotone(s[1..], x, y);
    }
  }

  function MinOf(s: seq<nat>): (r: nat)
    requires s != []
    ensures r in s && forall i :: 0 <= i < |s| ==> r <= s[i]
  {
    if |s| == 1 then s[0] else Min(s[0], MinOf(s[1..]))
  }

  // ---- The estimates ----

  function Take(s: seq<nat>, n: nat): seq<nat> {
    s[..Min(n, |s|)]
  }

  function DefaultEstimation(cfg: Config, minPrice: nat): (r: GasEstimation)
    ensures Ordered(r, minPrice)
  {
    GasEstimation(minPrice, minPrice, NextBucketFrom(cfg.buckets, minPrice))
  }

  /** The statistics of a price list; None where the source finds the list empty. */
  function Estimate(cfg: Config, minPrice: nat, prices: seq<nat>): Option<GasEstimation> {
    var recent := Take(prices, cfg.lowBlockHistory);
    var low := if recent == [] then minPrice else MinOf(recent);
    var latest := Sort(Take(prices, cfg.marketBlockHistory));
    if latest == [] then None else
    var market := Max(low, latest[|latest| / 2]);
    var sorted := Sort(prices);
    Some(GasEstimation(low, market, NextBucketFrom(cfg.buckets, Max(market, sorted[|sorted| * 9 / 10]))))
  }

  /** The fallback for an empty list is taken exactly when there is no price to take. */
  lemma EmptyExactlyWhen(cfg: Config, minPrice: nat, prices: seq<nat>)
    ensures Estimate(cfg, minPrice, prices).None? <==> prices == [] || cfg.marketBlockHistory == 0
  {
  }

  /** Deprioritized is the cheapest of the most recent prices, or the minimum when none is looked at. */
  lemma DeprioritizedIsCheapest(cfg: Config, minPrice: nat, prices: seq<nat>)
    requires Estimate(cfg, minPrice, prices).Some?
    ensures var low := Estimate(cfg, minPrice, prices).value.deprioritized;
      if cfg.lowBlockHistory == 0 then low == minPrice
      else
        && (exists i :: 0 <= i < |prices| && i < cfg.lowBlockHistory && prices[i] == low)
        && (forall i :: 0 <= i < |prices| && i < cfg.lowBlockHistory ==> low <= prices[i])
  {
    var recent := Take(prices, cfg.lowBlockHistory);
    if recent != [] {
      var i :| 0 <= i < |recent| && recent[i] == MinOf(recent);
      assert prices[i] == MinOf(recent);
      assert forall i :: 0 <= i < |recent| ==> prices[i] == recent[i];
    }
  }

  /** Market is the upper median of the sampled blocks, raised to the low estimate if that is higher. */
  lemma MarketIsMedian(cfg: Config, minPrice: nat, prices: seq<nat>)
    requires Estimate(cfg, minPrice, prices).Some?
    ensures var e, sample := Estimate(cfg, minPrice, prices).value, Take(prices, cfg.marketBlockHistory);
      && 2 * CountLe(sample, e.market) > |sample|
      && (e.market == e.deprioritized || (e.market in sample && 2 * CountLt(sample, e.market) <= |sample|))
  {
    var e, sample := Estimate(cfg, minPrice, prices).value, Take(prices, cfg.marketBlockHistory);
    var median := Sort(sample)[|sample| / 2];
    SortKeeps(sample, median);
    CountAtRank(Sort(sample), |sample| / 2);
    CountLeMonotone(sample, median, e.market);
    assert median in multiset(Sort(sample));
  }

  lemma RankCovers(prices: seq<nat>, y: nat)
    requires prices != [] && Sort(prices)[|prices| * 9 / 10] <= y
    ensures 10 * CountLe(prices, y) > 9 * |prices|
  {
    var k := |prices| * 9 / 10;
    var p90 := Sort(prices)[k];
    SortKeepsCounts(prices, p90);
    SortOrders(prices);
    CountAtRank(Sort(prices), k);
    CountLeMonotone(prices, p90, y);
  }

  /** More than nine tenths of the whole history is at most the prioritized estimate. */
  lemma PrioritizedCoversNineTenths(cfg: Config, minPrice: nat, prices: seq<nat>)
    requires Estimate(cfg, minPrice, prices).Some?
    ensures 10 * CountLe(prices, Estimate(cfg, minPrice, prices).value.prioritized) > 9 * |prices|
  {
    var p := PrioritizedIsRank(cfg, minPrice, prices);
    CountLeMonotone(prices, p, Estimate(cfg, minPrice, prices).value.prioritized);
  }

  lemma RankElement(prices: seq<nat>) returns (p90: nat)
    requires prices != []
    ensures p90 == Sort(prices)[|prices| * 9 / 10] && p90 in prices && 10 * CountLt(prices, p90) <= 9 * |prices|
  {
    var k := |prices| * 9 / 10;
    p90 := Sort(prices)[k];
    SortKeepsCounts(prices, p90);
    SortKeepsElements(prices);
    SortOrders(prices);
    CountAtRank(Sort(prices), k);
    assert p90 in multiset(Sort(prices));
  }

  /**
   Prioritized is a price p rounded up to the next bucket, where p is the market
   estimate or, above that, a price of the history with no more than nine tenths below.
   */
  lemma PrioritizedIsRank(cfg: Config, minPrice: nat, prices: seq<nat>) returns (p: nat)
    requires Estimate(cfg, minPrice, prices).Some?
    ensures var e := Estimate(cfg, minPrice, prices).value;
      && RoundedUp(cfg.buckets, p, e.prioritized)
      && 10 * CountLe(prices, p) > 9 * |prices|
      && (p == e.market || (p > e.market && p in prices && 10 * CountLt(prices, p) <= 9 * |prices|))
  {
    var p90 := RankElement(prices);
    p := Max(Estimate(cfg, minPrice, prices).value.market, p90);
    RankCovers(prices, p);
    BucketRoundsUp(cfg.buckets, p);
  }

  lemma {:induction false} SortConstant(s: seq<nat>, x: nat)
    requires forall i :: 0 <= i < |s| ==> s[i] == x
    ensures Sort(s) == s
  {
    if s != [] {
      SortConstant(s[1..], x);
      assert Sort(s) == [x] + s[1..];
    }
  }

  /** The default estimate is that of any history in which every price was the minimum. */
  lemma DefaultIsQuietHistory(cfg: Config, minPrice: nat, prices: seq<nat>)
    requires prices != [] && cfg.marketBlockHistory > 0
    requires forall i :: 0 <= i < |prices| ==> prices[i] == minPrice
    ensures Estimate(cfg, minPrice, prices) == Some(DefaultEstimation(cfg, minPrice))
  {
    SortConstant(prices, minPrice);
    SortConstant(Take(prices, cfg.marketBlockHistory), minPrice);
  }

  /** Estimates are ordered and never below the minimum when no price is. */
  lemma EstimateOrdered(cfg: Config, minPrice: nat, prices: seq<nat>)
    requires Estimate(cfg, minPrice, prices).Some?
    requires forall p :: p in prices ==> minPrice <= p
    ensures Ordered(Estimate(cfg, minPrice, prices).value, minPrice)
  {
    var recent := Take(prices, cfg.lowBlockHistory);
    if recent != [] {
      assert MinOf(recent) in prices;
    }
  }
}
