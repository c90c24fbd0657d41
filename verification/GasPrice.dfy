/**
 The minimum inclusion price of one block: scan its transactions, decide
 whether the block was full, and round the cheapest price up to the next
 broadcast bucket.
 */
module GasPrice {
  import opened Common
  import opened MapSum

  datatype UseCase = Platform | ContractAddress(address: nat) | Others

  /** A transaction as the estimator reads it; UserWithoutInfo has no readable transaction info. */
  datatype Txn =
    | User(price: nat, gasUsed: nat, useCase: UseCase)
    | UserWithoutInfo
    | BlockEpilogue(endInfo: Option<bool>)
    | OtherTxn

  datatype Block = Block(first: nat, epoch: nat, txns: seq<Txn>) {
    ghost predicate Valid() {
      txns != []
    }

    function Last(): nat
      requires Valid()
    {
      first + |txns| - 1
    }
  }

  datatype ExecConfig = ExecConfig(useCaseAware: bool, blockGasLimit: Option<nat>)

  datatype Config = Config(
    fullBlockTxns: nat,
    lowBlockHistory: nat,
    marketBlockHistory: nat,
    aggressiveBlockHistory: nat,
    cacheExpirationMs: nat,
    incorporateReorderingEffects: bool,
    buckets: seq<nat>)

  // ---- Buckets ----

  /** Bucket j is the first above a price. */
  ghost predicate FirstAbove(buckets: seq<nat>, price: nat, j: nat) {
    j < |buckets| && buckets[j] > price && forall k :: 0 <= k < j ==> buckets[k] <= price
  }

  function NextBucketFrom(buckets: seq<nat>, price: nat): (r: nat)
    ensures r >= price
    ensures r > price ==> exists j: nat :: FirstAbove(buckets, price, j) && buckets[j] == r
    ensures r == price ==> forall j :: 0 <= j < |buckets| ==> buckets[j] <= price
  {
    if buckets == [] then price
    else if buckets[0] > price then
      assert FirstAbove(buckets, price, 0);
      buckets[0]
    else
      var r := NextBucketFrom(buckets[1..], price);
      assert r > price ==> exists j: nat :: FirstAbove(buckets, price, j) && buckets[j] == r by {
        if r > price {
          var j: nat :| FirstAbove(buckets[1..], price, j) && buckets[1..][j] == r;
          assert FirstAbove(buckets, price, j + 1);
        }
      }
      r
  }

  /** The first bucket above the price, or the price itself when none is. */
  ghost predicate RoundedUp(buckets: seq<nat>, price: nat, r: nat) {
    || (r > price && exists j: nat :: FirstAbove(buckets, price, j) && buckets[j] == r)
    || (r == price && forall j :: 0 <= j < |buckets| ==> buckets[j] <= price)
  }

  lemma BucketRoundsUp(buckets: seq<nat>, price: nat)
    ensures RoundedUp(buckets, price, NextBucketFrom(buckets, price))
  {
  }

  // ---- What the scan finds ----

  function PricesAndUsed(scan: seq<Txn>): seq<(nat, nat)> {
    if scan == [] then []
    else
      var last := scan[|scan| - 1];
      PricesAndUsed(scan[..|scan| - 1]) + (if last.User? then [(last.price, last.gasUsed)] else [])
  }

  function EndInfos(scan: seq<Txn>): seq<bool> {
    if scan == [] then []
    else
      var last := scan[|scan| - 1];
      EndInfos(scan[..|scan| - 1]) + (if last.BlockEpilogue? && last.endInfo.Some? then [last.endInfo.value] else [])
  }

  function Uses(scan: seq<Txn>, key: UseCase): nat {
    if scan == [] then 0
    else
      var last := scan[|scan| - 1];
      Uses(scan[..|scan| - 1], key) + (if last.User? && last.useCase == key then 1 else 0)
  }

  /** Some contract accounts for more than half of the scanned user transactions. */
  ghost predicate ContractMajority(scan: seq<Txn>) {
    exists a: nat :: 2 * Uses(scan, ContractAddress(a)) > |PricesAndUsed(scan)|
  }

  /** The use-case counters agree with the scan. */
  ghost predicate Tallies(counts: map<UseCase, nat>, scan: seq<Txn>) {
    && (forall k :: Uses(scan, k) == if k in counts then counts[k] else 0)
    && Sum(counts, counts.Keys) == |PricesAndUsed(scan)|
  }

  lemma TwoKeysWithinSum<K>(m: map<K, nat>, j: K, k: K)
    requires j in m && k in m && j != k
    ensures m[j] + m[k] <= Sum(m, m.Keys)
  {
    SumRemove(m, m.Keys, j);
    SumRemove(m, m.Keys - {j}, k);
  }

  /** The key the scan of the counters settles on, whatever order it visits them in. */
  method MaxByCount(counts: map<UseCase, nat>) returns (best: Option<UseCase>, total: nat)
    ensures total == Sum(counts, counts.Keys)
    ensures best.None? <==> counts == map[]
    ensures best.Some? ==> best.value in counts && forall k :: k in counts ==> counts[k] <= counts[best.value]
  {
    best, total := None, 0;
    var rest := counts.Keys;
    while rest != {}
      invariant rest <= counts.Keys
      invariant total + Sum(counts, rest) == Sum(counts, counts.Keys)
      invariant best.None? <==> rest == counts.Keys
      invariant best.Some? ==>
        best.value in counts && forall k :: k in counts && k !in rest ==> counts[k] <= counts[best.value]
      decreases rest
    {
      var k :| k in rest;
      SumRemove(counts, rest, k);
      if best.None? || counts[k] >= counts[best.value] {
        best := Some(k);
      }
      total := total + counts[k];
      rest := rest - {k};
    }
  }

  method GetGasPricesAndUsed(scan: seq<Txn>, countMajorityUseCase: bool)
    returns (prices: seq<(nat, nat)>, endInfos: seq<bool>, majority: Option<(nat, nat)>)
    ensures prices == PricesAndUsed(scan) && endInfos == EndInfos(scan)
    ensures majority.Some? && 2 * majority.value.0 > majority.value.1 <==>
      countMajorityUseCase && ContractMajority(scan)
  {
    prices, endInfos := [], [];
    var counts: map<UseCase, nat> := map[];
    for i := 0 to |scan|
      invariant prices == PricesAndUsed(scan[..i]) && endInfos == EndInfos(scan[..i])
      invariant countMajorityUseCase ==> Tallies(counts, scan[..i])
    {
      assert scan[..i + 1][..i] == scan[..i];
      match scan[i] {
        case User(price, gasUsed, useCase) =>
          prices := prices + [(price, gasUsed)];
          if countMajorityUseCase {
            SumIncrement(counts, useCase);
            counts := counts[useCase := (if useCase in counts then counts[useCase] else 0) + 1];
          }
        case BlockEpilogue(Some(reached)) => endInfos := endInfos + [reached];
        case _ =>
      }
    }
    assert scan[..|scan|] == scan;
    majority := None;
    if countMajorityUseCase {
      var best, total := MaxByCount(counts);
      MajorityIsMaximum(counts, scan, best);
      if best.Some? && best.value.ContractAddress? {
        majority := Some((counts[best.value], total));
      }
    }
  }

  /** A contract above half is the maximum, so ties and visiting order cannot matter. */
  lemma MajorityIsMaximum(counts: map<UseCase, nat>, scan: seq<Txn>, best: Option<UseCase>)
    requires Tallies(counts, scan)
    requires best.None? <==> counts == map[]
    requires best.Some? ==> best.value in counts && forall k :: k in counts ==> counts[k] <= counts[best.value]
    ensures ContractMajority(scan) <==>
      best.Some? && best.value.ContractAddress? && 2 * counts[best.value] > Sum(counts, counts.Keys)
  {
    if ContractMajority(scan) {
      var a: nat :| 2 * Uses(scan, ContractAddress(a)) > |PricesAndUsed(scan)|;
      var k := ContractAddress(a);
      assert k in counts;
      if best.value != k {
        TwoKeysWithinSum(counts, k, best.value);
      }
    }
    if best.Some? && best.value.ContractAddress? && 2 * counts[best.value] > Sum(counts, counts.Keys) {
      assert Uses(scan, ContractAddress(best.value.address)) == counts[best.value];
    }
  }

  // ---- The price ----

  function GasUsed(prices: seq<(nat, nat)>): nat {
    if prices == [] then 0 else GasUsed(prices[..|prices| - 1]) + prices[|prices| - 1].1
  }

  function MinPrice(prices: seq<(nat, nat)>): (r: nat)
    requires prices != []
    ensures exists i :: 0 <= i < |prices| && prices[i].0 == r
    ensures forall i :: 0 <= i < |prices| ==> r <= prices[i].0
  {
    if |prices| == 1 then prices[0].0
    else Min(MinPrice(prices[..|prices| - 1]), prices[|prices| - 1].0)
  }

  datatype Outcome = Priced(price: nat) | NotFull | Panicked

  /** Whether the scanned part makes the block full; None when the end-info assertion panics. */
  ghost function IsFull(cfg: Config, exec: ExecConfig, scan: seq<Txn>): Option<bool> {
    if cfg.incorporateReorderingEffects && exec.useCaseAware && ContractMajority(scan) then Some(false)
    else if |PricesAndUsed(scan)| >= cfg.fullBlockTxns then Some(true)
    else if EndInfos(scan) != [] then
      if |EndInfos(scan)| == 1 then Some(EndInfos(scan)[0]) else None
    else if exec.blockGasLimit.Some? then Some(GasUsed(PricesAndUsed(scan)) >= exec.blockGasLimit.value)
    else Some(false)
  }

  /** The price that a scan comes to. */
  ghost function ScanPrice(cfg: Config, exec: ExecConfig, scan: seq<Txn>): Outcome {
    var full := IsFull(cfg, exec, scan);
    if full.None? then Panicked
    else if !full.value then NotFull
    else if PricesAndUsed(scan) == [] then Panicked
    else Priced(NextBucketFrom(cfg.buckets, MinPrice(PricesAndUsed(scan))))
  }

  /** The price as a function of the block and the epoch's configuration alone: every version but the last counts. */
  ghost function BlockPrice(cfg: Config, exec: ExecConfig, b: Block): Outcome
    requires b.Valid()
  {
    ScanPrice(cfg, exec, b.txns[..|b.txns| - 1])
  }

  /** How many transactions are read: those before the block's last version and not past the ledger version. */
  function ScanLength(b: Block, ledgerVersion: nat): (n: nat)
    requires b.Valid()
    ensures n <= |b.txns| - 1 && (n > 0 ==> b.first + n - 1 <= ledgerVersion)
    ensures n < |b.txns| - 1 ==> b.first + n > ledgerVersion
  {
    var limit := b.Last() - b.first;
    if b.first > ledgerVersion || limit == 0 then 0 else Min(limit, ledgerVersion - b.first + 1)
  }

  /**
   The price of what the tip lets the scan read, for every order the counters are
   visited in; from the block's last version but one on it is the block's price.
   */
  method BlockMinInclusionPrice(cfg: Config, exec: ExecConfig, b: Block, ledgerVersion: nat) returns (r: Outcome)
    requires b.Valid()
    ensures r == ScanPrice(cfg, exec, b.txns[..ScanLength(b, ledgerVersion)])
    ensures ledgerVersion + 1 >= b.Last() ==> r == BlockPrice(cfg, exec, b)
  {
    var scan := b.txns[..ScanLength(b, ledgerVersion)];
    var prices, endInfos, majority := GetGasPricesAndUsed(scan, cfg.incorporateReorderingEffects && exec.useCaseAware);
    var full: bool;
    if majority.Some? && 2 * majority.value.0 > majority.value.1 {
      full := false;
    } else if |prices| >= cfg.fullBlockTxns {
      full := true;
    } else if endInfos != [] {
      if |endInfos| != 1 {
        return Panicked;
      }
      full := endInfos[0];
    } else if exec.blockGasLimit.Some? {
      full := GasUsed(prices) >= exec.blockGasLimit.value;
    } else {
      full := false;
    }
    assert IsFull(cfg, exec, scan) == Some(full);
    if !full {
      r := NotFull;
    } else if prices == [] {
      r := Panicked;
    } else {
      r := Priced(NextBucketFrom(cfg.buckets, MinPrice(prices)));
    }
  }

  // ---- The price in terms of the transactions ----

  /** The scanned user transactions. */
  ghost function Users(scan: seq<Txn>): set<nat> {
    set i: nat | i < |scan| && scan[i].User?
  }

  /** The scanned epilogues that carry an end info. */
  ghost function Ends(scan: seq<Txn>): set<nat> {
    set i: nat | i < |scan| && scan[i].BlockEpilogue? && scan[i].endInfo.Some?
  }

  ghost function UsersOf(scan: seq<Txn>, key: UseCase): set<nat> {
    set i: nat | i < |scan| && scan[i].User? && scan[i].useCase == key
  }

  /** The gas used by each scanned user transaction. */
  ghost function GasOf(scan: seq<Txn>): map<nat, nat> {
    map i: nat | i in Users(scan) :: scan[i].gasUsed
  }

  lemma {:induction false} CountsUsers(scan: seq<Txn>)
    ensures |PricesAndUsed(scan)| == |Users(scan)|
  {
    if scan != [] {
      var n := |scan| - 1;
      CountsUsers(scan[..n]);
      assert Users(scan) == Users(scan[..n]) + if scan[n].User? then {n} else {};
    }
  }

  lemma {:induction false} CountsUses(scan: seq<Txn>, key: UseCase)
    ensures Uses(scan, key) == |UsersOf(scan, key)|
  {
    if scan != [] {
      var n := |scan| - 1;
      CountsUses(scan[..n], key);
      assert UsersOf(scan, key) == UsersOf(scan[..n], key) +
        if scan[n].User? && scan[n].useCase == key then {n} else {};
    }
  }

  lemma {:induction false} CountsEnds(scan: seq<Txn>)
    ensures |EndInfos(scan)| == |Ends(scan)|
    ensures |EndInfos(scan)| == 1 ==> forall i :: i in Ends(scan) ==> scan[i].endInfo == Some(EndInfos(scan)[0])
  {
    if scan != [] {
      var n := |scan| - 1;
      var before := scan[..n];
      CountsEnds(before);
      assert forall i :: i in Ends(before) ==> scan[i] == before[i];
      if scan[n].BlockEpilogue? && scan[n].endInfo.Some? {
        assert Ends(scan) == Ends(before) + {n};
        assert |EndInfos(scan)| == 1 ==> Ends(before) == {};
      } else {
        assert Ends(scan) == Ends(before);
      }
    }
  }

  lemma {:induction false} SumsGas(scan: seq<Txn>)
    ensures GasUsed(PricesAndUsed(scan)) == Sum(GasOf(scan), Users(scan))
  {
    if scan != [] {
      var n: nat := |scan| - 1;
      var before := scan[..n];
      SumsGas(before);
      SumFrame(GasOf(before), GasOf(scan), Users(before));
      if scan[n].User? {
        assert Users(scan) - {n} == Users(before);
        SumRemove(GasOf(scan), Users(scan), n);
        assert Sum(GasOf(scan), Users(scan)) == scan[n].gasUsed + Sum(GasOf(scan), Users(before));
        var prices := PricesAndUsed(scan);
        assert prices == PricesAndUsed(before) + [(scan[n].price, scan[n].gasUsed)];
        assert prices[..|prices| - 1] == PricesAndUsed(before);
        assert GasUsed(prices) == GasUsed(PricesAndUsed(before)) + scan[n].gasUsed;
      } else {
        assert Users(scan) == Users(before) && PricesAndUsed(scan) == PricesAndUsed(before);
      }
    }
  }

  /** A user transaction of the scan that no other undercuts. */
  ghost predicate Cheapest(scan: seq<Txn>, i: nat) {
    i in Users(scan) && forall j :: j in Users(scan) ==> scan[i].price <= scan[j].price
  }

  lemma {:induction false} ListsUsers(scan: seq<Txn>)
    ensures forall i :: i in Users(scan) ==> (scan[i].price, scan[i].gasUsed) in PricesAndUsed(scan)
  {
    if scan != [] {
      var n := |scan| - 1;
      ListsUsers(scan[..n]);
      forall i | i in Users(scan) ensures (scan[i].price, scan[i].gasUsed) in PricesAndUsed(scan) {
        if i < n {
          assert i in Users(scan[..n]);
        }
      }
    }
  }

  /** The user transaction behind a listed price. */
  lemma {:induction false} ListedBy(scan: seq<Txn>, p: (nat, nat)) returns (i: nat)
    requires p in PricesAndUsed(scan)
    ensures i in Users(scan) && p == (scan[i].price, scan[i].gasUsed)
  {
    var n := |scan| - 1;
    if p in PricesAndUsed(scan[..n]) {
      i := ListedBy(scan[..n], p);
    } else {
      i := n;
    }
  }

  lemma FindsCheapest(scan: seq<Txn>) returns (i: nat)
    requires PricesAndUsed(scan) != []
    ensures Cheapest(scan, i) && scan[i].price == MinPrice(PricesAndUsed(scan))
  {
    var prices := PricesAndUsed(scan);
    var k :| 0 <= k < |prices| && prices[k].0 == MinPrice(prices);
    i := ListedBy(scan, prices[k]);
    ListsUsers(scan);
    forall j | j in Users(scan) ensures scan[i].price <= scan[j].price {
      var m :| 0 <= m < |prices| && prices[m] == (scan[j].price, scan[j].gasUsed);
      assert MinPrice(prices) <= prices[m].0;
    }
  }

  /** One contract sent more than half of the scanned user transactions, and that counts. */
  ghost predicate Overtaken(cfg: Config, exec: ExecConfig, scan: seq<Txn>) {
    && cfg.incorporateReorderingEffects && exec.useCaseAware
    && exists a: nat :: 2 * |UsersOf(scan, ContractAddress(a))| > |Users(scan)|
  }

  /** Short of the transaction count, the epilogue's end info or else the gas used against the limit decides. */
  ghost predicate EndsFull(exec: ExecConfig, scan: seq<Txn>) {
    if Ends(scan) != {} then |Ends(scan)| == 1 && forall i :: i in Ends(scan) ==> scan[i].endInfo == Some(true)
    else exec.blockGasLimit.Some? && Sum(GasOf(scan), Users(scan)) >= exec.blockGasLimit.value
  }

  lemma OvertakenIs(cfg: Config, exec: ExecConfig, scan: seq<Txn>)
    ensures Overtaken(cfg, exec, scan) <==>
      cfg.incorporateReorderingEffects && exec.useCaseAware && ContractMajority(scan)
  {
    CountsUsers(scan);
    if ContractMajority(scan) {
      var a: nat :| 2 * Uses(scan, ContractAddress(a)) > |PricesAndUsed(scan)|;
      CountsUses(scan, ContractAddress(a));
    }
    if Overtaken(cfg, exec, scan) {
      var a: nat :| 2 * |UsersOf(scan, ContractAddress(a))| > |Users(scan)|;
      CountsUses(scan, ContractAddress(a));
    }
  }

  /** Full, not full, or two end infos. */
  lemma FullExactlyWhen(cfg: Config, exec: ExecConfig, scan: seq<Txn>)
    ensures var full := IsFull(cfg, exec, scan);
      && (full == Some(true) <==>
           !Overtaken(cfg, exec, scan) && (|Users(scan)| >= cfg.fullBlockTxns || EndsFull(exec, scan)))
      && (full.None? <==>
           !Overtaken(cfg, exec, scan) && |Users(scan)| < cfg.fullBlockTxns && |Ends(scan)| > 1)
  {
    OvertakenIs(cfg, exec, scan);
    CountsUsers(scan);
    CountsEnds(scan);
    SumsGas(scan);
    if |Ends(scan)| == 1 {
      var i :| i in Ends(scan);
      assert scan[i].endInfo == Some(EndInfos(scan)[0]);
    }
  }

  /**
   A block is priced exactly when it was full and somebody used it; the price is the
   cheapest one paid, rounded up to the next bucket.
   */
  lemma PricedExactlyWhen(cfg: Config, exec: ExecConfig, scan: seq<Txn>)
    ensures var r := ScanPrice(cfg, exec, scan);
      && (r.Priced? <==>
           && Users(scan) != {} && !Overtaken(cfg, exec, scan)
           && (|Users(scan)| >= cfg.fullBlockTxns || EndsFull(exec, scan)))
      && (r.Priced? ==> exists i: nat :: Cheapest(scan, i) && RoundedUp(cfg.buckets, scan[i].price, r.price))
  {
    FullExactlyWhen(cfg, exec, scan);
    CountsUsers(scan);
    if ScanPrice(cfg, exec, scan).Priced? {
      var i := FindsCheapest(scan);
      BucketRoundsUp(cfg.buckets, scan[i].price);
    }
  }

  /** The scan panics exactly on two end infos, or on a full verdict with no user transaction to price. */
  lemma PanicsExactlyWhen(cfg: Config, exec: ExecConfig, scan: seq<Txn>)
    ensures ScanPrice(cfg, exec, scan).Panicked? <==>
      && !Overtaken(cfg, exec, scan)
      && ((|Users(scan)| < cfg.fullBlockTxns && |Ends(scan)| > 1) ||
          (Users(scan) == {} && (cfg.fullBlockTxns == 0 || EndsFull(exec, scan))))
  {
    FullExactlyWhen(cfg, exec, scan);
    CountsUsers(scan);
  }

  // ---- Prices respect the minimum ----

  ghost predicate RespectsMin(txns: seq<Txn>, minPrice: nat) {
    forall i :: 0 <= i < |txns| && txns[i].User? ==> txns[i].price >= minPrice
  }

  lemma {:induction false} ScannedPricesRespectMin(scan: seq<Txn>, minPrice: nat)
    requires RespectsMin(scan, minPrice)
    ensures forall i :: 0 <= i < |PricesAndUsed(scan)| ==> PricesAndUsed(scan)[i].0 >= minPrice
  {
    if scan != [] {
      ScannedPricesRespectMin(scan[..|scan| - 1], minPrice);
    }
  }

  lemma BlockPriceRespectsMin(cfg: Config, exec: ExecConfig, b: Block, minPrice: nat)
    requires b.Valid() && RespectsMin(b.txns, minPrice)
    ensures BlockPrice(cfg, exec, b).Priced? ==> BlockPrice(cfg, exec, b).price >= minPrice
  {
    ScannedPricesRespectMin(b.txns[..|b.txns| - 1], minPrice);
  }
}
