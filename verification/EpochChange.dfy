/** Epoch-ending ledger infos, the storage that serves them in pages, and their verification against a waypoint. */
module EpochChange {
  import opened Common
  import opened TwoChainRules

  /** A ledger info; `signed` says it verifies under its own epoch's validator set. */
  datatype LedgerInfo = LedgerInfo(epoch: nat, version: nat, nextEpoch: Option<nat>, signed: bool)

  /** A version with the collision-free hash of the ledger info found there. */
  datatype Waypoint = Waypoint(version: nat, value: (nat, nat, Option<nat>))

  function WaypointOf(li: LedgerInfo): Waypoint {
    Waypoint(li.version, (li.epoch, li.version, li.nextEpoch))
  }

  /** The length of the stale prefix that verification skips. */
  function StalePrefix(proof: seq<LedgerInfo>, version: nat): (k: nat)
    ensures k <= |proof|
    ensures forall i :: 0 <= i < k ==> proof[i].version < version
    ensures k < |proof| ==> proof[k].version >= version
  {
    if proof == [] || proof[0].version >= version then 0
    else 1 + StalePrefix(proof[1..], version)
  }

  /** Signed by the epoch that the entry before opens. */
  predicate Linked(proof: seq<LedgerInfo>, i: nat)
    requires 0 < i < |proof|
  {
    Some(proof[i].epoch) == proof[i - 1].nextEpoch && proof[i].signed
  }

  lemma {:induction false} StalePrefixIs(proof: seq<LedgerInfo>, version: nat, p: nat)
    requires p < |proof| && forall i: nat :: i < |proof| ==> (i < p <==> proof[i].version < version)
    ensures StalePrefix(proof, version) == p
  {
    if p > 0 {
      forall i: nat | i < |proof| - 1 ensures i < p - 1 <==> proof[1..][i].version < version {
        assert i + 1 < p <==> proof[i + 1].version < version;
      }
      StalePrefixIs(proof[1..], version, p - 1);
    }
  }

  /** The proof starts at the waypoint and each later entry is signed by the epoch its predecessor opens. */
  ghost predicate ProofVerifies(proof: seq<LedgerInfo>, waypoint: Waypoint) {
    && proof != []
    && proof[|proof| - 1].version >= waypoint.version
    && var k := StalePrefix(proof, waypoint.version);
    && k < |proof|
    && WaypointOf(proof[k]) == waypoint
    && (forall i :: k <= i < |proof| ==> proof[i].nextEpoch.Some?)
    && (forall i: nat {:trigger Linked(proof, i)} :: k < i < |proof| ==> Linked(proof, i))
  }

  method VerifyProof(proof: seq<LedgerInfo>, waypoint: Waypoint) returns (ok: bool)
    ensures ok <==> ProofVerifies(proof, waypoint)
  {
    if proof == [] || proof[|proof| - 1].version < waypoint.version {
      return false;
    }
    var k := StalePrefix(proof, waypoint.version);
    var verifier: Option<nat> := None;
    for i := k to |proof|
      invariant verifier == if i == k then None else proof[i - 1].nextEpoch
      invariant i > k ==> WaypointOf(proof[k]) == waypoint && verifier.Some?
      invariant forall j :: k <= j < i ==> proof[j].nextEpoch.Some?
      invariant forall j: nat {:trigger Linked(proof, j)} :: k < j < i ==> Linked(proof, j)
    {
      var verified := if verifier.None? then WaypointOf(proof[i]) == waypoint
                      else proof[i].epoch == verifier.value && proof[i].signed;
      assert i > k ==> (verified <==> Linked(proof, i));
      if !verified || proof[i].nextEpoch.None? {
        return false;
      }
      verifier := proof[i].nextEpoch;
    }
    ok := true;
  }

  // ---- Storage ----

  const MAX_NUM_EPOCH_ENDING_LEDGER_INFO: nat := 100

  /** endings[i] ends epoch i; the ledger may have grown past the last ending. */
  datatype Storage = Storage(endings: seq<LedgerInfo>, latestVersion: nat) {
    ghost predicate Valid() {
      && (forall i :: 0 <= i < |endings| ==>
           endings[i].epoch == i && endings[i].nextEpoch == Some(i + 1) && endings[i].signed
           && endings[i].version <= latestVersion)
      && (forall i, j :: 0 <= i < j < |endings| ==> endings[i].version < endings[j].version)
    }

    /** As many epoch endings from epoch k on as one answer holds. */
    function Page(k: nat): seq<LedgerInfo>
      requires k <= |endings|
    {
      endings[k..Min(k + MAX_NUM_EPOCH_ENDING_LEDGER_INFO, |endings|)]
    }

    /** The page of epoch endings from the epoch of the known version on. */
    function RetrieveEpochChangeProof(knownVersion: nat): Result<seq<LedgerInfo>, Error> {
      if knownVersion > latestVersion then Failure(InternalError) else
      var known := StalePrefix(endings, knownVersion);
      Success(Page(known))
    }

    /** The epoch whose ending the waypoint names, if any. */
    ghost function EndingAt(waypoint: Waypoint): (k: Option<nat>)
      ensures k.Some? ==> k.value < |endings| && WaypointOf(endings[k.value]) == waypoint
      ensures k.None? ==> forall i :: 0 <= i < |endings| ==> WaypointOf(endings[i]) != waypoint
    {
      if i: nat :| i < |endings| && WaypointOf(endings[i]) == waypoint then Some(i) else None
    }

    lemma KnownEpoch(k: nat)
      requires Valid() && k < |endings|
      ensures StalePrefix(endings, endings[k].version) == k
    {
      var known := StalePrefix(endings, endings[k].version);
      assert known <= k;
    }

    /** Every stretch of endings verifies against every waypoint in it, whatever comes before that one. */
    lemma StretchVerifies(j: nat, k: nat, m: nat)
      requires Valid() && j <= k < m <= |endings|
      ensures ProofVerifies(endings[j..m], WaypointOf(endings[k]))
    {
      FollowsVerifies(endings[j..m], j, k);
    }

    /** Item i of the proof is the ending of epoch j + i. */
    ghost predicate IsEnding(proof: seq<LedgerInfo>, j: nat, i: nat) {
      i < |proof| && j + i < |endings| && proof[i] == endings[j + i]
    }

    lemma EndingOrder(i: nat, k: nat)
      requires Valid() && i < |endings| && k < |endings|
      ensures i < k <==> endings[i].version < endings[k].version
    {
    }

    ghost predicate AllEndings(proof: seq<LedgerInfo>, j: nat) {
      forall i: nat {:trigger IsEnding(proof, j, i)} :: i < |proof| ==> IsEnding(proof, j, i)
    }

    lemma FollowsPrefix(proof: seq<LedgerInfo>, j: nat, k: nat)
      requires Valid() && j <= k < j + |proof| <= |endings| && AllEndings(proof, j)
      ensures StalePrefix(proof, endings[k].version) == k - j
      ensures proof[|proof| - 1].version >= endings[k].version
    {
      forall i: nat | i < |proof| ensures i < k - j <==> proof[i].version < endings[k].version {
        assert IsEnding(proof, j, i);
        EndingOrder(j + i, k);
      }
      StalePrefixIs(proof, endings[k].version, k - j);
    }

    lemma FollowsVerifies(proof: seq<LedgerInfo>, j: nat, k: nat)
      requires Valid() && j <= k < j + |proof| <= |endings| && AllEndings(proof, j)
      ensures ProofVerifies(proof, WaypointOf(endings[k]))
    {
      FollowsPrefix(proof, j, k);
      assert IsEnding(proof, j, k - j);
      forall i: nat | i < |proof| ensures proof[i].nextEpoch.Some? && (i > 0 ==> Linked(proof, i)) {
        assert IsEnding(proof, j, i) && (i > 0 ==> IsEnding(proof, j, i - 1));
      }
    }

    /** The ledger info is the one that ended its epoch. */
    ghost predicate Genuine(li: LedgerInfo) {
      li.epoch < |endings| && WaypointOf(li) == WaypointOf(endings[li.epoch])
    }

    /**
     When nothing but what ended an epoch carries its validators' signatures, a proof that
     verifies against a stored ending consists, from there on, of the endings that follow it.
     */
    lemma {:induction false} VerifiedIsGenuine(proof: seq<LedgerInfo>, k: nat, i: nat)
      requires Valid() && k < |endings| && ProofVerifies(proof, WaypointOf(endings[k]))
      requires forall j :: 0 <= j < |proof| && proof[j].signed && proof[j].nextEpoch.Some? ==> Genuine(proof[j])
      requires StalePrefix(proof, endings[k].version) <= i < |proof|
      ensures var p := StalePrefix(proof, endings[k].version);
        k + (i - p) < |endings| && WaypointOf(proof[i]) == WaypointOf(endings[k + (i - p)])
    {
      var p := StalePrefix(proof, endings[k].version);
      if i > p {
        VerifiedIsGenuine(proof, k, i - 1);
        assert Linked(proof, i) && proof[i].nextEpoch.Some?;
        assert Genuine(proof[i]);
      }
    }

    lemma PageFollowsWaypoint(k: nat)
      requires Valid() && k < |endings|
      ensures ProofVerifies(Page(k), WaypointOf(endings[k]))
    {
      StretchVerifies(k, k, Min(k + MAX_NUM_EPOCH_ENDING_LEDGER_INFO, |endings|));
    }

    /** The ending that the page from ending k ends with. */
    function PageEnd(k: nat): (next: nat)
      requires k < |endings|
      ensures k <= next < |endings| && (next == k <==> k == |endings| - 1)
    {
      Min(k + MAX_NUM_EPOCH_ENDING_LEDGER_INFO, |endings|) - 1
    }

    lemma LaterEnding(i: nat, j: nat)
      requires Valid() && i <= j < |endings|
      ensures endings[j].nextEpoch == Some(j + 1)
      ensures j > i ==> endings[j].version > endings[i].version
    {
    }

    /** From the ending of epoch k, storage serves a page that verifies against the waypoint there. */
    lemma PageVerifies(k: nat)
      requires Valid() && k < |endings|
      ensures var page := RetrieveEpochChangeProof(endings[k].version);
        && page.Success? && ProofVerifies(page.value, WaypointOf(endings[k]))
        && page.value == endings[k..PageEnd(k) + 1] && page.value[|page.value| - 1] == endings[PageEnd(k)]
    {
      KnownEpoch(k);
      PageFollowsWaypoint(k);
      assert RetrieveEpochChangeProof(endings[k].version) == Success(Page(k));
    }

    /** A waypoint that is not one of the stored endings never verifies a page of them. */
    lemma UnknownWaypointFails(waypoint: Waypoint)
      requires EndingAt(waypoint).None?
      ensures var r := RetrieveEpochChangeProof(waypoint.version);
        r.Success? ==> !ProofVerifies(r.value, waypoint)
    {
      var r := RetrieveEpochChangeProof(waypoint.version);
      if r.Success? {
        forall i | 0 <= i < |r.value| ensures WaypointOf(r.value[i]) != waypoint {
          assert r.value[i] == endings[StalePrefix(endings, waypoint.version) + i];
        }
      }
    }
  }
}
