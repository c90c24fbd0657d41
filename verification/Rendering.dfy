/**
 Rendering transactions with the timestamp of their block: in one pass that
 carries a running timestamp, or with a block lookup per transaction; and the
 ledger tip that the API reports when it follows the internal indexer.
 */
module Rendering {
  import opened Common
  import opened GasChain

  datatype Txn = BlockMetadata(timestamp: nat) | BlockMetadataExt(timestamp: nat) | Other(id: nat) {
    predicate IsMetadata() {
      !Other?
    }
  }

  datatype OnChain = OnChain(version: nat, txn: Txn)

  /** Block i has timestamp stamps[i]; txns[v] is the transaction at version v. */
  datatype Chain = Chain(layout: Layout, stamps: seq<nat>, txns: seq<Txn>) {
    ghost predicate Valid() {
      && layout.Valid() && |stamps| == |layout.ends|
      && |txns| == layout.ends[|layout.ends| - 1] + 1
    }

    /** get_block_timestamp. */
    function BlockTimestamp(version: nat): Option<nat>
      requires Valid()
    {
      var b := layout.Find(version);
      if b.Some? then Some(stamps[b.value]) else None
    }

    /** The timestamp of the one block that holds the version, or nothing past the chain. */
    lemma TimestampIs(version: nat, b: nat)
      requires Valid() && b < |stamps|
      ensures layout.First(b) <= version <= layout.ends[b] ==> BlockTimestamp(version) == Some(stamps[b])
      ensures BlockTimestamp(version).None? <==> version >= |txns|
    {
      if layout.First(b) <= version <= layout.ends[b] {
        layout.FindUnique(version, b);
      }
      if layout.Find(version).Some? {
        layout.Increasing(layout.Find(version).value, |layout.ends| - 1);
      }
    }

    function Get(first: nat, n: nat): seq<OnChain>
      requires first + n <= |txns|
    {
      seq(n, j requires 0 <= j < n => OnChain(first + j, txns[first + j]))
    }

    /**
     Block metadata carries its block's timestamp, and a block that does not begin
     with metadata has the timestamp of the block before.
     */
    ghost predicate StampedAt(v: nat)
      requires Valid() && v < |txns|
    {
      if txns[v].IsMetadata() then BlockTimestamp(v) == Some(txns[v].timestamp)
      else v > 0 ==> BlockTimestamp(v) == BlockTimestamp(v - 1)
    }

    lemma InChain(v: nat)
      requires Valid() && v < |txns|
      ensures BlockTimestamp(v).Some?
    {
    }
  }

  // ---- One pass ----

  /** The running timestamp at each transaction. */
  function Stamps(data: seq<OnChain>, timestamp: nat): (r: seq<nat>)
    ensures |r| == |data|
  {
    if data == [] then []
    else
      var now := if data[0].txn.IsMetadata() then data[0].txn.timestamp else timestamp;
      [now] + Stamps(data[1..], now)
  }

  /** Convert each transaction with its timestamp; the first failure fails all. */
  function Convert<R>(convert: (nat, OnChain) -> Option<R>, data: seq<OnChain>, stamps: seq<Option<nat>>):
    Option<seq<R>>
    requires |data| == |stamps|
  {
    if data == [] then Some([])
    else if stamps[0].None? || convert(stamps[0].value, data[0]).None? then None
    else
      var rest := Convert(convert, data[1..], stamps[1..]);
      if rest.None? then None else Some([convert(stamps[0].value, data[0]).value] + rest.value)
  }

  function Known(stamps: seq<nat>): (r: seq<Option<nat>>)
    ensures |r| == |stamps|
  {
    seq(|stamps|, j requires 0 <= j < |stamps| => Some(stamps[j]))
  }

  ghost predicate ConvertedAt<R>(
    convert: (nat, OnChain) -> Option<R>, data: seq<OnChain>, stamps: seq<Option<nat>>, out: seq<R>, j: nat)
  {
    j < |data| == |stamps| == |out| && stamps[j].Some? && convert(stamps[j].value, data[j]) == Some(out[j])
  }

  ghost predicate AllConverted<R>(
    convert: (nat, OnChain) -> Option<R>, data: seq<OnChain>, stamps: seq<Option<nat>>, out: seq<R>)
  {
    |data| == |out| && forall j: nat {:trigger ConvertedAt(convert, data, stamps, out, j)} :: j < |data| ==>
      ConvertedAt(convert, data, stamps, out, j)
  }

  lemma ConvertedRest<R>(
    convert: (nat, OnChain) -> Option<R>, data: seq<OnChain>, stamps: seq<Option<nat>>, out: seq<R>)
    requires |data| == |stamps| == |out| > 0
    ensures AllConverted(convert, data, stamps, out) <==>
      ConvertedAt(convert, data, stamps, out, 0) && AllConverted(convert, data[1..], stamps[1..], out[1..])
  {
    forall j: nat | j < |data| - 1
      ensures ConvertedAt(convert, data[1..], stamps[1..], out[1..], j) <==>
        ConvertedAt(convert, data, stamps, out, j + 1)
    {
    }
    forall j: nat | 0 < j < |data|
      ensures ConvertedAt(convert, data, stamps, out, j) <==>
        ConvertedAt(convert, data[1..], stamps[1..], out[1..], j - 1)
    {
    }
  }

  /** All are converted, each with its timestamp, or none when some timestamp or conversion fails. */
  lemma {:induction false} ConvertExactlyWhen<R>(
    convert: (nat, OnChain) -> Option<R>, data: seq<OnChain>, stamps: seq<Option<nat>>, out: seq<R>)
    requires |data| == |stamps|
    ensures Convert(convert, data, stamps) == Some(out) <==> AllConverted(convert, data, stamps, out)
  {
    if data != [] && |out| == |data| {
      ConvertExactlyWhen(convert, data[1..], stamps[1..], out[1..]);
      ConvertedRest(convert, data, stamps, out);
      assert out == [out[0]] + out[1..];
    } else {
      ConvertLength(convert, data, stamps);
    }
  }

  lemma {:induction false} ConvertLength<R>(
    convert: (nat, OnChain) -> Option<R>, data: seq<OnChain>, stamps: seq<Option<nat>>)
    requires |data| == |stamps|
    ensures var out := Convert(convert, data, stamps); out.Some? ==> |out.value| == |data|
  {
    if data != [] {
      ConvertLength(convert, data[1..], stamps[1..]);
    }
  }

  /** The last metadata at or before a place, if any. */
  ghost predicate LastMetadata(data: seq<OnChain>, j: nat, m: nat) {
    m <= j < |data| && !data[m].txn.Other? && forall n :: m < n <= j ==> data[n].txn.Other?
  }

  /** The running timestamp is that of the last metadata so far... */
  lemma {:induction false} StampFromMetadata(data: seq<OnChain>, timestamp: nat, j: nat, m: nat)
    requires LastMetadata(data, j, m)
    ensures Stamps(data, timestamp)[j] == data[m].txn.timestamp
  {
    var now := if data[0].txn.IsMetadata() then data[0].txn.timestamp else timestamp;
    if m > 0 {
      assert LastMetadata(data[1..], j - 1, m - 1);
      StampFromMetadata(data[1..], now, j - 1, m - 1);
    } else if j > 0 {
      StampFromStart(data[1..], now, j - 1);
    }
  }

  /** ... or, before any metadata, the one to start with. */
  lemma {:induction false} StampFromStart(data: seq<OnChain>, timestamp: nat, j: nat)
    requires j < |data| && forall n :: 0 <= n <= j ==> data[n].txn.Other?
    ensures Stamps(data, timestamp)[j] == timestamp
  {
    if j > 0 {
      StampFromStart(data[1..], timestamp, j - 1);
    }
  }

  method RenderSequential<R>(data: seq<OnChain>, start: nat, convert: (nat, OnChain) -> Option<R>)
    returns (r: Option<seq<R>>)
    ensures r == Convert(convert, data, Known(Stamps(data, start)))
  {
    var timestamp, out := start, [];
    RestStart(convert, data, start);
    for i := 0 to |data|
      invariant Rest(convert, data, start, i, timestamp, out)
    {
      RestStep(convert, data, start, i, timestamp, out);
      if data[i].txn.BlockMetadataExt? {
        timestamp := data[i].txn.timestamp;
      } else if data[i].txn.BlockMetadata? {
        timestamp := data[i].txn.timestamp;
      }
      var item := convert(timestamp, data[i]);
      if item.None? {
        return None;
      }
      out := out + [item.value];
    }
    assert data[|data|..] == [] && out + [] == out;
    return Some(out);
  }

  /** What is rendered so far, followed by rendering the rest from the running timestamp, is the whole. */
  ghost predicate Rest<R>(convert: (nat, OnChain) -> Option<R>, data: seq<OnChain>, start: nat, i: nat,
                          timestamp: nat, out: seq<R>)
    requires i <= |data|
  {
    var rest := Convert(convert, data[i..], Known(Stamps(data[i..], timestamp)));
    Convert(convert, data, Known(Stamps(data, start))) == if rest.None? then None else Some(out + rest.value)
  }

  lemma RestStart<R>(convert: (nat, OnChain) -> Option<R>, data: seq<OnChain>, start: nat)
    ensures Rest(convert, data, start, 0, start, [])
  {
    assert data[0..] == data;
    var rest := Convert(convert, data, Known(Stamps(data, start)));
    if rest.Some? {
      assert [] + rest.value == rest.value;
    }
  }

  lemma RestStep<R>(convert: (nat, OnChain) -> Option<R>, data: seq<OnChain>, start: nat, i: nat,
                    timestamp: nat, out: seq<R>)
    requires i < |data| && Rest(convert, data, start, i, timestamp, out)
    ensures var now := if data[i].txn.IsMetadata() then data[i].txn.timestamp else timestamp;
      var item := convert(now, data[i]);
      if item.None? then Convert(convert, data, Known(Stamps(data, start))) == None
      else Rest(convert, data, start, i + 1, now, out + [item.value])
  {
    var now := if data[i].txn.IsMetadata() then data[i].txn.timestamp else timestamp;
    var stamps := Stamps(data[i..], timestamp);
    assert data[i..][1..] == data[i + 1..];
    assert Known(stamps)[1..] == Known(Stamps(data[i + 1..], now));
    var item, rest := convert(now, data[i]), Convert(convert, data[i + 1..], Known(Stamps(data[i + 1..], now)));
    if item.Some? && rest.Some? {
      assert out + ([item.value] + rest.value) == (out + [item.value]) + rest.value;
    }
  }

  // ---- A lookup per transaction ----

  function Lookups(c: Chain, data: seq<OnChain>): (r: seq<Option<nat>>)
    requires c.Valid()
    ensures |r| == |data|
  {
    seq(|data|, j requires 0 <= j < |data| => c.BlockTimestamp(data[j].version))
  }

  lemma KnownCons(data: seq<OnChain>, timestamp: nat, now: nat)
    requires data != [] && now == if data[0].txn.IsMetadata() then data[0].txn.timestamp else timestamp
    ensures Known(Stamps(data, timestamp)) == [Some(now)] + Known(Stamps(data[1..], now))
  {
  }

  /** Over a stamped stretch the running timestamp is the block's, for every transaction. */
  lemma {:induction false} StampsAreLookups(c: Chain, first: nat, n: nat, timestamp: nat)
    requires c.Valid() && first + n <= |c.txns|
    requires forall v: nat :: first <= v < first + n ==> c.StampedAt(v)
    requires n > 0 && !c.txns[first].IsMetadata() ==> Some(timestamp) == c.BlockTimestamp(first)
    ensures Known(Stamps(c.Get(first, n), timestamp)) == Lookups(c, c.Get(first, n))
    decreases n
  {
    if n > 0 {
      var data := c.Get(first, n);
      var now := if data[0].txn.IsMetadata() then data[0].txn.timestamp else timestamp;
      assert data[1..] == c.Get(first + 1, n - 1);
      assert c.StampedAt(first);
      if n > 1 {
        assert c.StampedAt(first + 1);
      }
      StampsAreLookups(c, first + 1, n - 1, now);
      KnownCons(data, timestamp, now);
      assert Lookups(c, data) == [c.BlockTimestamp(first)] + Lookups(c, data[1..]);
    }
  }

  /** One pass over versions first, ..., first + n - 1 from the timestamp of the first one's block. */
  ghost predicate Agrees(c: Chain, first: nat, n: nat)
    requires c.Valid() && first + n <= |c.txns| && n > 0
  {
    c.InChain(first);
    Known(Stamps(c.Get(first, n), c.BlockTimestamp(first).value)) == Lookups(c, c.Get(first, n))
  }

  ghost predicate AlwaysAgrees(c: Chain)
    requires c.Valid()
  {
    forall first: nat, n: nat {:trigger Agrees(c, first, n)} :: n > 0 && first + n <= |c.txns| ==> Agrees(c, first, n)
  }

  /** The two renderings agree on every contiguous range, wherever it starts, exactly when every version is stamped. */
  lemma SequentialMatchesLookups(c: Chain)
    requires c.Valid()
    ensures AlwaysAgrees(c) <==>
      forall v: nat {:trigger c.StampedAt(v)} :: v < |c.txns| ==> c.StampedAt(v)
  {
    if forall v: nat {:trigger c.StampedAt(v)} :: v < |c.txns| ==> c.StampedAt(v) {
      forall first: nat, n: nat | n > 0 && first + n <= |c.txns| ensures Agrees(c, first, n) {
        c.InChain(first);
        StampsAreLookups(c, first, n, c.BlockTimestamp(first).value);
      }
    }
    if AlwaysAgrees(c) {
      forall v: nat | v < |c.txns| ensures c.StampedAt(v) {
        AgreementStamps(c, v);
      }
    }
  }

  lemma AgreementStamps(c: Chain, v: nat)
    requires c.Valid() && v < |c.txns| && Agrees(c, v, 1) && (v > 0 ==> Agrees(c, v - 1, 2))
    ensures c.StampedAt(v)
  {
    c.InChain(v);
    var data := c.Get(v, 1);
    var t := c.BlockTimestamp(v).value;
    assert Lookups(c, data)[0] == c.BlockTimestamp(v);
    assert Known(Stamps(data, t))[0] == Some(Stamps(data, t)[0]);
    if v > 0 && !c.txns[v].IsMetadata() {
      c.InChain(v - 1);
      var two, u := c.Get(v - 1, 2), c.BlockTimestamp(v - 1).value;
      var now := if two[0].txn.IsMetadata() then two[0].txn.timestamp else u;
      assert two[1..] == [OnChain(v, c.txns[v])];
      assert Stamps(two, u) == [now] + Stamps(two[1..], now);
      assert Stamps(two[1..], now)[0] == now;
      assert Known(Stamps(two, u))[0] == Lookups(c, two)[0] == c.BlockTimestamp(v - 1);
      assert Known(Stamps(two, u))[1] == Lookups(c, two)[1] == c.BlockTimestamp(v);
    }
  }

  // ---- The reported tip ----

  /** The end of the block that holds the lower of the indexer's and the storage's version. */
  function IndexerTip(l: Layout, indexer: nat, storage: nat): Option<nat>
    requires l.Valid()
  {
    var b := l.Find(Min(indexer, storage));
    if b.Some? then Some(l.ends[b.value]) else None
  }

  /** The tip is a block end, never past storage, and past the indexer's version exactly when that is mid-block. */
  lemma TipIsBlockEnd(l: Layout, indexer: nat, storage: nat)
    requires l.Valid() && l.EndIndex(storage) >= 0
    ensures var tip := IndexerTip(l, indexer, storage);
      && tip.Some? && l.EndIndex(tip.value) >= 0
      && Min(indexer, storage) <= tip.value <= storage
      && (tip.value > indexer <==> indexer < storage && l.EndIndex(indexer) < 0)
  {
    l.FindMonotone(Min(indexer, storage), storage);
    var b := l.Find(Min(indexer, storage)).value;
    l.EndIndexOf(b);
    l.Increasing(b, l.EndIndex(storage));
  }

  /** Blocks 0 and 1 to 3, storage at 3 and the indexer at 2: the tip is 3. */
  lemma TipPastIndexer(l: Layout)
    requires l == Layout([0, 3], [0, 1])
    ensures l.Valid() && l.EndIndex(3) >= 0 && IndexerTip(l, 2, 3) == Some(3)
  {
    assert l.Valid();
    l.EndIndexOf(1);
    l.FindUnique(2, 1);
  }

  /** As indexer and storage advance, the tip never goes back. */
  lemma TipMonotone(l: Layout, indexer: nat, storage: nat, indexer': nat, storage': nat)
    requires l.Valid() && indexer <= indexer' && storage <= storage' && l.EndIndex(storage') >= 0
    ensures IndexerTip(l, indexer, storage).Some? && IndexerTip(l, indexer', storage').Some?
    ensures IndexerTip(l, indexer, storage).value <= IndexerTip(l, indexer', storage').value
  {
    l.FindMonotone(Min(indexer', storage'), storage');
    l.FindMonotone(Min(indexer, storage), Min(indexer', storage'));
    l.Increasing(l.Find(Min(indexer, storage)).value, l.Find(Min(indexer', storage')).value);
  }
}
