/**
 The SafetyRules service of one validator: its persisted state, the guarded
 signing requests, initialisation from epoch-change proofs, and the wrapper
 that initialises on demand and retries a request.
 */
module SafetyRules {
  import opened Common
  import opened TwoChainRules
  import opened EpochChange
  import opened Agreement
  import opened Quorum

  /** A signing request; the flags are the outcomes of the signature checks on its contents. */
  datatype Request =
    | SignVote(block: Block, qcVerifies: bool, wellFormed: bool, tc: Option<TimeoutCert>, tcVerifies: bool)
    | SignTimeout(epoch: nat, round: nat, hqc: Block, qcVerifies: bool, tc: Option<TimeoutCert>, tcVerifies: bool)
    | SignOrderVote(block: Block, certified: Block, qcVerifies: bool)

  datatype Signed =
    | Voted(vote: Vote)
    | TimedOut(round: nat, hqcRound: nat)
    | OrderVoted(block: Block)

  datatype LocalState = LocalState(
    safetyData: SafetyData,
    waypoint: Waypoint,
    epochState: Option<nat>,
    signer: Option<nat>)

  function VerifyEpoch(st: LocalState, epoch: nat): Result<(), Error> {
    if epoch != st.safetyData.epoch then Failure(IncorrectEpoch(epoch, st.safetyData.epoch)) else Success(())
  }

  function VerifyCert(st: LocalState, verifies: bool, error: Error): Result<(), Error> {
    if st.epochState.None? then Failure(NotInitialized) else if verifies then Success(()) else Failure(error)
  }

  function VerifyTc(st: LocalState, tc: Option<TimeoutCert>, verifies: bool): Result<(), Error> {
    if tc.None? then Success(()) else VerifyCert(st, verifies, InvalidTimeoutCertificate)
  }

  /** The checks that precede the two-chain rules. */
  function Verify(st: LocalState, req: Request): Result<(), Error> {
    if st.signer.None? then Failure(NotInitialized) else
    match req
    case SignVote(block, qcVerifies, wellFormed, tc, tcVerifies) =>
      var _ :- VerifyEpoch(st, block.epoch);
      var _ :- VerifyCert(st, qcVerifies, InvalidQuorumCertificate);
      if block.Genesis? || block.parent.Round() >= block.round || block.parent.epoch != block.epoch || !wellFormed
      then Failure(InvalidProposal)
      else VerifyTc(st, tc, tcVerifies)
    case SignTimeout(epoch, round, hqc, qcVerifies, tc, tcVerifies) =>
      var _ :- VerifyEpoch(st, epoch);
      var _ :- VerifyCert(st, hqc.Round() < round && qcVerifies, InvalidTimeout);
      VerifyTc(st, tc, tcVerifies)
    case SignOrderVote(block, certified, qcVerifies) =>
      var _ :- VerifyEpoch(st, block.epoch);
      if certified != block then Failure(InvalidOneChainQuorumCertificate)
      else VerifyCert(st, qcVerifies, InvalidQuorumCertificate)
  }

  /** The answer to a request and the state it leaves; a refused request leaves the state alone. */
  function Respond(st: LocalState, author: nat, req: Request): (LocalState, Result<Signed, Error>) {
    var verified := Verify(st, req);
    if verified.Failure? then (st, Failure(verified.error)) else
    match req
    case SignVote(block, _, _, tc, _) => (
      match DecideVote(st.safetyData, author, block, tc)
      case Success((sd, vote)) => (st.(safetyData := sd), Success(Voted(vote)))
      case Failure(e) => (st, Failure(e)))
    case SignTimeout(_, round, hqc, _, tc, _) => (
      match DecideTimeout(st.safetyData, round, hqc.Round(), tc)
      case Success(sd) => (st.(safetyData := sd), Success(TimedOut(round, hqc.Round())))
      case Failure(e) => (st, Failure(e)))
    case SignOrderVote(block, _, _) => (
      match DecideOrderVote(st.safetyData, block)
      case Success(sd) => (st.(safetyData := sd), Success(OrderVoted(block)))
      case Failure(e) => (st, Failure(e)))
  }

  // ---- When a request is answered ----

  function RequestEpoch(req: Request): nat {
    match req
    case SignVote(block, _, _, _, _) => block.epoch
    case SignTimeout(epoch, _, _, _, _, _) => epoch
    case SignOrderVote(block, _, _) => block.epoch
  }

  /** Well formed, with certificates that verify. */
  ghost predicate Sound(req: Request) {
    match req
    case SignVote(block, qcVerifies, wellFormed, tc, tcVerifies) =>
      && block.Block? && block.parent.Round() < block.round && block.parent.epoch == block.epoch
      && qcVerifies && wellFormed && (tc.Some? ==> tcVerifies)
    case SignTimeout(_, round, hqc, qcVerifies, tc, tcVerifies) =>
      hqc.Round() < round && qcVerifies && (tc.Some? ==> tcVerifies)
    case SignOrderVote(block, certified, qcVerifies) => certified == block && qcVerifies
  }

  /** The checks pass exactly for a sound request of the validator's epoch to a validator that is initialised. */
  lemma VerifiesExactlyWhen(st: LocalState, req: Request)
    ensures Verify(st, req).Success? <==>
      && st.signer.Some? && st.epochState.Some? && RequestEpoch(req) == st.safetyData.epoch && Sound(req)
  {
    match req
    case SignVote(block, _, _, tc, _) =>
    case SignTimeout(_, round, hqc, _, tc, _) =>
    case SignOrderVote(block, certified, _) =>
  }

  /** The error of a failed check names one that fails. */
  lemma CheckFailedBecause(st: LocalState, req: Request)
    requires Verify(st, req).Failure?
    ensures match Verify(st, req).error
      case NotInitialized => st.signer.None? || st.epochState.None?
      case IncorrectEpoch(given, stored) => given == RequestEpoch(req) != stored == st.safetyData.epoch
      case InvalidQuorumCertificate => !req.SignTimeout? && !req.qcVerifies
      case InvalidProposal =>
        req.SignVote? && (req.block.Genesis? || !req.wellFormed ||
        req.block.parent.Round() >= req.block.round || req.block.parent.epoch != req.block.epoch)
      case InvalidTimeout => req.SignTimeout? && (req.hqc.Round() >= req.round || !req.qcVerifies)
      case InvalidTimeoutCertificate => !req.SignOrderVote? && req.tc.Some? && !req.tcVerifies
      case InvalidOneChainQuorumCertificate => req.SignOrderVote? && req.certified != req.block
      case _ => false
  {
    match req
    case SignVote(block, _, _, tc, _) =>
    case SignTimeout(_, round, hqc, _, tc, _) =>
    case SignOrderVote(block, certified, _) =>
  }

  /** The two-chain rules allow the signature. */
  ghost predicate Allowed(sd: SafetyData, req: Request) {
    match req
    case SignVote(block, _, _, tc, _) => VotedIn(sd, block.Round()) || MayVote(sd, block, tc)
    case SignTimeout(_, round, hqc, _, tc, _) => MayTimeout(sd, round, hqc.Round(), tc)
    case SignOrderVote(block, _, _) => sd.highestTimeoutRound < block.Round()
  }

  /** What is signed: a vote on the block, or again the vote of that round; the timeout; the order vote. */
  ghost predicate Answers(sd: SafetyData, author: nat, req: Request, signed: Signed) {
    match req
    case SignVote(block, _, _, _, _) =>
      && signed.Voted?
      && if VotedIn(sd, block.Round()) then signed.vote == sd.lastVote.value else VoteOn(signed.vote, author, block)
    case SignTimeout(_, round, hqc, _, _, _) => signed == TimedOut(round, hqc.Round())
    case SignOrderVote(block, _, _) => signed == OrderVoted(block)
  }

  /** A request is answered exactly when the checks pass and the rounds allow it. */
  lemma AnsweredExactlyWhen(st: LocalState, author: nat, req: Request)
    ensures var (now, r) := Respond(st, author, req);
      && (r.Success? <==>
           && st.signer.Some? && st.epochState.Some? && RequestEpoch(req) == st.safetyData.epoch
           && Sound(req) && Allowed(st.safetyData, req))
      && (r.Success? ==> Answers(st.safetyData, author, req, r.value))
      && now == st.(safetyData := now.safetyData)
  {
    VerifiesExactlyWhen(st, req);
    match req {
      case SignVote(block, _, _, tc, _) => VotesExactlyWhen(st.safetyData, author, block, tc);
      case SignTimeout(_, round, hqc, _, tc, _) => TimesOutExactlyWhen(st.safetyData, round, hqc.Round(), tc);
      case SignOrderVote(block, _, _) => OrderVotesExactlyWhen(st.safetyData, block);
    }
  }

  predicate NeedsInitialize(e: Error) {
    e.NotInitialized? || e.IncorrectEpoch? || e.WaypointOutOfDate?
  }

  function StepOf(req: Request): Step {
    match req
    case SignVote(block, _, _, tc, _) => HonestVote(block, tc)
    case SignTimeout(_, round, hqc, _, tc, _) => HonestTimeout(round, hqc, tc)
    case SignOrderVote(block, _, _) => HonestOrderVote(block)
  }

  predicate SignedIn(n: Node, signed: Signed) {
    match signed
    case Voted(vote) => vote.block in n.votes
    case TimedOut(round, hqcRound) => Timeout(round, hqcRound) in n.timeouts
    case OrderVoted(block) => block in n.orders
  }

  /** The outcomes of the signature checks are true of the certificates that exist. */
  ghost predicate FlagsHold(c: Committee, epoch: nat, s: State, req: Request) {
    match req
    case SignVote(block, qcVerifies, _, tc, tcVerifies) =>
      && (qcVerifies ==> Certified(c, epoch, s, block.Parent()))
      && (tc.Some? && tcVerifies ==> TcBacked(c, s, tc.value))
    case SignTimeout(_, _, hqc, qcVerifies, tc, tcVerifies) =>
      && (qcVerifies ==> Certified(c, epoch, s, hqc))
      && (tc.Some? && tcVerifies ==> TcBacked(c, s, tc.value))
    case SignOrderVote(_, certified, qcVerifies) => qcVerifies ==> Certified(c, epoch, s, certified)
  }

  /** A request that passes the checks is an enabled step of the agreement protocol. */
  lemma VerifiedIsEnabled(c: Committee, s: State, v: nat, st: LocalState, req: Request)
    requires v in c.Honest() && FlagsHold(c, st.safetyData.epoch, s, req) && Verify(st, req).Success?
    ensures Enabled(c, st.safetyData.epoch, s, v, StepOf(req))
  {
    match req
    case SignVote(block, _, _, tc, _) =>
    case SignTimeout(_, round, hqc, _, tc, _) =>
    case SignOrderVote(block, _, _) =>
  }

  /** An enabled step, put as a sound request to a validator that is initialised, passes the checks. */
  lemma EnabledIsVerified(c: Committee, s: State, v: nat, st: LocalState, req: Request)
    requires Enabled(c, st.safetyData.epoch, s, v, StepOf(req)) && RequestEpoch(req) == st.safetyData.epoch
    requires st.signer.Some? && st.epochState.Some? && (req.SignVote? ==> req.wellFormed)
    requires req.SignOrderVote? ==> req.certified == req.block
    requires req.qcVerifies && (!req.SignOrderVote? && req.tc.Some? ==> req.tcVerifies)
    ensures Verify(st, req).Success?
  {
    VerifiesExactlyWhen(st, req);
  }

  /** The persisted data moves as the step moves it, and what is signed is what the step records. */
  lemma RespondsAsStep(st: LocalState, n: Node, author: nat, req: Request)
    requires st.safetyData == n.sd && NodeInv(n)
    ensures var (now, r) := Respond(st, author, req);
      var n' := Apply(n, author, StepOf(req));
      && (Verify(st, req).Success? ==> now.safetyData == n'.sd && (r.Success? ==> SignedIn(n', r.value)))
      && (r.Failure? ==> now == st && (Verify(st, req).Success? ==> n' == n))
  {
    match req
    case SignVote(block, _, _, tc, _) =>
    case SignTimeout(_, round, hqc, _, tc, _) =>
    case SignOrderVote(block, _, _) =>
  }

  /**
   The service takes honest steps of the agreement protocol and signs nothing else:
   an answered request is a step of the protocol that records the signature, and a
   refused one changes nothing.
   */
  lemma ServiceTakesHonestSteps(c: Committee, s: State, v: nat, st: LocalState, req: Request)
    requires Inv(c, st.safetyData.epoch, s) && v in c.Honest() && s[v].sd == st.safetyData
    requires FlagsHold(c, st.safetyData.epoch, s, req)
    ensures var (now, r) := Respond(st, v, req);
      var s' := s[v := Apply(s[v], v, StepOf(req))];
      if r.Success? then
        && Next(c, st.safetyData.epoch, s, v, StepOf(req), s')
        && s'[v].sd == now.safetyData && SignedIn(s'[v], r.value)
      else now == st
  {
    RespondsAsStep(st, s[v], v, req);
    if Respond(st, v, req).1.Success? {
      VerifiedIsEnabled(c, s, v, st, req);
    }
  }

  // ---- Initialisation ----

  /** The consensus key each epoch's validator set holds for this author, and the keys in secure storage. */
  datatype KeyRing = KeyRing(expected: map<nat, nat>, stored: set<nat>) {
    /** The outcome of reconciling the signing key with the epoch's validator set. */
    function Reconcile(epoch: nat, signer: Option<nat>): Result<nat, Error> {
      if epoch !in expected then Failure(ValidatorNotInSet)
      else if signer == Some(expected[epoch]) || expected[epoch] in stored then Success(expected[epoch])
      else Failure(ValidatorKeyNotFound)
    }
  }

  /** The effect of a verified proof that ends with the ledger info `last`. */
  function Install(st: LocalState, keys: KeyRing, last: LedgerInfo): (LocalState, Result<(), Error>)
    requires last.nextEpoch.Some?
  {
    var target := last.nextEpoch.value;
    var moved := if last.version > st.waypoint.version then st.(waypoint := WaypointOf(last)) else st;
    if st.safetyData.epoch > target then
      (moved, Failure(WaypointOutOfDate(st.waypoint.version, last.version, st.safetyData.epoch, target)))
    else
      var sd := if st.safetyData.epoch < target then FreshSafetyData(target) else st.safetyData;
      match keys.Reconcile(target, st.signer)
      case Success(key) => (LocalState(sd, moved.waypoint, Some(target), Some(key)), Success(()))
      case Failure(e) => (LocalState(sd, moved.waypoint, Some(target), None), Failure(e))
  }

  /** In an epoch no earlier than before, with the waypoint at the ending that opened it. */
  ghost predicate Settled(storage: Storage, was: LocalState, now: LocalState) {
    && now.epochState == Some(now.safetyData.epoch)
    && was.safetyData.epoch <= now.safetyData.epoch
    && 0 < now.safetyData.epoch <= |storage.endings|
    && now.waypoint == WaypointOf(storage.endings[now.safetyData.epoch - 1])
    && (now.safetyData.epoch == was.safetyData.epoch ==> now.safetyData == was.safetyData)
    && (was.safetyData.epoch < now.safetyData.epoch ==> StartsOver(now.safetyData))
  }

  /** Nothing signed and nothing seen in the epoch yet. */
  ghost predicate StartsOver(sd: SafetyData) {
    && sd.lastVotedRound == 0 && sd.preferredRound == 0 && sd.oneChainRound == 0 && sd.highestTimeoutRound == 0
    && sd.lastVote == None
  }

  /** The epoch's validator set knows the author, whose key is in use or in secure storage. */
  ghost predicate HoldsKey(keys: KeyRing, epoch: nat, signer: Option<nat>) {
    && epoch in keys.expected
    && (signer == Some(keys.expected[epoch]) || keys.expected[epoch] in keys.stored)
  }

  /** The signing key is the epoch's, or there is none and the error says why. */
  ghost predicate KeyReconciled(keys: KeyRing, was: LocalState, now: LocalState, r: Result<(), Error>) {
    var epoch := now.safetyData.epoch;
    if HoldsKey(keys, epoch, was.signer) then r == Success(()) && now.signer == Some(keys.expected[epoch])
    else
      && now.signer == None
      && r == Failure(if epoch in keys.expected then ValidatorKeyNotFound else ValidatorNotInSet)
  }

  /** Installing a page up to a stored ending settles in the epoch it opens, or only moves the waypoint there. */
  lemma InstallOutcome(storage: Storage, st: LocalState, keys: KeyRing, at: nat, next: nat)
    requires at <= next < |storage.endings| && st.waypoint == WaypointOf(storage.endings[at])
    requires storage.endings[next].nextEpoch == Some(next + 1)
    requires next > at ==> storage.endings[next].version > storage.endings[at].version
    ensures var (now, r) := Install(st, keys, storage.endings[next]);
      if st.safetyData.epoch > next + 1 then
        && r == Failure(WaypointOutOfDate(
             storage.endings[at].version, storage.endings[next].version, st.safetyData.epoch, next + 1))
        && now == st.(waypoint := WaypointOf(storage.endings[next]))
      else Settled(storage, st, now) && KeyReconciled(keys, st, now, r) && !(r.Failure? && r.error.WaypointOutOfDate?)
  {
  }

  /** Any proof that verifies has the effect of one that storage serves, when no other signatures exist. */
  lemma AnyProofInstalls(storage: Storage, keys: KeyRing, st: LocalState, proof: seq<LedgerInfo>, at: nat)
    returns (next: nat)
    requires storage.Valid() && at < |storage.endings| && st.waypoint == WaypointOf(storage.endings[at])
    requires ProofVerifies(proof, st.waypoint)
    requires forall j :: 0 <= j < |proof| && proof[j].signed && proof[j].nextEpoch.Some? ==> storage.Genuine(proof[j])
    ensures at <= next < |storage.endings|
    ensures Install(st, keys, proof[|proof| - 1]) == Install(st, keys, storage.endings[next])
  {
    var p, last := StalePrefix(proof, st.waypoint.version), |proof| - 1;
    storage.VerifiedIsGenuine(proof, at, last);
    next := at + (last - p);
  }

  // ---- The initialise loop ----

  /** The endings a validator in an epoch holds as its waypoint, page after page, from ending k on. */
  function Visited(storage: Storage, epoch: nat, k: nat): (path: seq<nat>)
    requires k < |storage.endings|
    ensures path != [] && path[0] == k && forall i :: 0 <= i < |path| ==> k <= path[i] < |storage.endings|
    decreases |storage.endings| - k
  {
    var next := storage.PageEnd(k);
    if next > k && epoch > next + 1 then [k] + Visited(storage, epoch, next) else [k]
  }

  /** Each is the end of the page of the one before, and the last is where the waypoint stops mattering. */
  lemma {:induction false} VisitedAt(storage: Storage, epoch: nat, k: nat, i: nat)
    requires k < |storage.endings| && i < |Visited(storage, epoch, k)|
    ensures var path := Visited(storage, epoch, k);
      var next := storage.PageEnd(path[i]);
      && (i + 1 < |path| <==> next > path[i] && epoch > next + 1)
      && (i + 1 < |path| ==> path[i + 1] == next)
    decreases i
  {
    if i > 0 {
      VisitedAt(storage, epoch, storage.PageEnd(k), i - 1);
    }
  }

  /** The waypoint moves forward all the way, by whole pages except perhaps at the end. */
  lemma {:induction false} VisitedGrows(storage: Storage, epoch: nat, k: nat)
    requires storage.Valid() && k < |storage.endings|
    ensures var path := Visited(storage, epoch, k);
      && (forall i, j :: 0 <= i < j < |path| ==> storage.endings[path[i]].version < storage.endings[path[j]].version)
      && (MAX_NUM_EPOCH_ENDING_LEDGER_INFO - 1) * (|path| - 2) < |storage.endings| - k
    decreases |storage.endings| - k
  {
    var next := storage.PageEnd(k);
    if next > k && epoch > next + 1 {
      VisitedGrows(storage, epoch, next);
    }
  }

  function Last(path: seq<nat>): nat
    requires path != []
  {
    path[|path| - 1]
  }

  lemma TakeNext(s: seq<nat>, i: nat)
    requires i + 1 < |s|
    ensures s[..i + 1] + [s[i + 1]] == s[..i + 1 + 1]
  {
  }

  /** What initialising page by page comes to. */
  ghost function Initialized(storage: Storage, keys: KeyRing, st: LocalState): (LocalState, Result<(), Error>)
    requires storage.Valid()
  {
    var at := storage.EndingAt(st.waypoint);
    if at.None? then
      (st, Failure(if st.waypoint.version > storage.latestVersion then InternalError else InvalidEpochChangeProof))
    else
      var last := Last(Visited(storage, st.safetyData.epoch, at.value));
      Install(st.(waypoint := WaypointOf(storage.endings[last])), keys, storage.endings[storage.PageEnd(last)])
  }

  /** The waypoint at visited ending i. */
  ghost function StateAt(storage: Storage, st: LocalState, path: seq<nat>, i: nat): LocalState
    requires i < |path| && path[i] < |storage.endings|
  {
    st.(waypoint := WaypointOf(storage.endings[path[i]]))
  }

  /** Initialising once with the page that storage serves for the waypoint. */
  ghost function PageResult(storage: Storage, keys: KeyRing, st: LocalState): (LocalState, Result<(), Error>) {
    var page := storage.RetrieveEpochChangeProof(st.waypoint.version);
    if page.Failure? then (st, Failure(page.error))
    else if ProofVerifies(page.value, st.waypoint) then Install(st, keys, page.value[|page.value| - 1])
    else (st, Failure(InvalidEpochChangeProof))
  }

  /** The waypoint moved but not far enough yet. */
  predicate Continues(r: Result<(), Error>) {
    r.Failure? && r.error.WaypointOutOfDate? && r.error.previous < r.error.current
  }

  lemma PageInstalls(storage: Storage, keys: KeyRing, st: LocalState, k: nat)
    requires storage.Valid() && k < |storage.endings| && st.waypoint == WaypointOf(storage.endings[k])
    ensures PageResult(storage, keys, st) == Install(st, keys, storage.endings[storage.PageEnd(k)])
  {
    storage.PageVerifies(k);
  }

  lemma UnknownPage(storage: Storage, keys: KeyRing, st: LocalState)
    requires storage.Valid() && storage.EndingAt(st.waypoint).None?
    ensures PageResult(storage, keys, st) == Initialized(storage, keys, st)
    ensures !Continues(PageResult(storage, keys, st).1)
  {
    storage.UnknownWaypointFails(st.waypoint);
  }

  /** One more page, from visited ending i, moves the waypoint to the next one or settles the outcome. */
  lemma OnePage(storage: Storage, keys: KeyRing, st: LocalState, k: nat, path: seq<nat>, i: nat)
    requires storage.Valid() && storage.EndingAt(st.waypoint) == Some(k)
    requires path == Visited(storage, st.safetyData.epoch, k) && i < |path|
    ensures var after := PageResult(storage, keys, StateAt(storage, st, path, i));
      && (Continues(after.1) <==> i + 1 < |path|)
      && if i + 1 < |path| then
           && after.0 == StateAt(storage, st, path, i + 1)
           && after.1.error.current == after.0.waypoint.version
         else after == Initialized(storage, keys, st)
  {
    var at, next := path[i], storage.PageEnd(path[i]);
    VisitedAt(storage, st.safetyData.epoch, k, i);
    PageInstalls(storage, keys, StateAt(storage, st, path, i), at);
    storage.LaterEnding(at, next);
    InstallOutcome(storage, StateAt(storage, st, path, i), keys, at, next);
  }

  /** The states that initialising passes through: one per waypoint it tries. */
  ghost function Stages(storage: Storage, st: LocalState): (stages: seq<LocalState>)
    ensures stages != [] && stages[0] == st
  {
    var at := storage.EndingAt(st.waypoint);
    if at.None? then [st]
    else
      var path := Visited(storage, st.safetyData.epoch, at.value);
      seq(|path|, i requires 0 <= i < |path| => StateAt(storage, st, path, i))
  }

  /** The versions of the waypoints it tries. */
  ghost function Trail(stages: seq<LocalState>): seq<nat> {
    seq(|stages|, i requires 0 <= i < |stages| => stages[i].waypoint.version)
  }

  lemma OneStage(storage: Storage, keys: KeyRing, st: LocalState, stages: seq<LocalState>, i: nat)
    requires storage.Valid() && stages == Stages(storage, st) && i < |stages|
    ensures var after := PageResult(storage, keys, stages[i]);
      && (Continues(after.1) <==> i + 1 < |stages|)
      && if i + 1 < |stages| then after.0 == stages[i + 1] && after.1.error.current == stages[i + 1].waypoint.version
         else after == Initialized(storage, keys, st)
  {
    var at := storage.EndingAt(st.waypoint);
    if at.None? {
      UnknownPage(storage, keys, st);
    } else {
      var path := Visited(storage, st.safetyData.epoch, at.value);
      OnePage(storage, keys, st, at.value, path, i);
      assert |stages| == |path| && stages[i] == StateAt(storage, st, path, i);
      if i + 1 < |path| {
        assert stages[i + 1] == StateAt(storage, st, path, i + 1);
      }
    }
  }

  /**
   The trail starts at the waypoint's version and moves strictly forward from one
   stored ending to another, by whole pages except perhaps at the end.
   */
  lemma TrailGrows(storage: Storage, st: LocalState)
    requires storage.Valid()
    ensures var trail := Trail(Stages(storage, st));
      && trail[0] == st.waypoint.version
      && (forall i, j :: 0 <= i < j < |trail| ==> trail[i] < trail[j])
      && (storage.EndingAt(st.waypoint).Some? ==>
           && (forall i :: 0 <= i < |trail| ==>
                exists k :: 0 <= k < |storage.endings| && trail[i] == storage.endings[k].version)
           && (MAX_NUM_EPOCH_ENDING_LEDGER_INFO - 1) * (|trail| - 2) < |storage.endings|)
  {
    var at := storage.EndingAt(st.waypoint);
    if at.Some? {
      VisitedGrows(storage, st.safetyData.epoch, at.value);
      var path, trail := Visited(storage, st.safetyData.epoch, at.value), Trail(Stages(storage, st));
      forall i | 0 <= i < |trail|
        ensures exists k :: 0 <= k < |storage.endings| && trail[i] == storage.endings[k].version
      {
        assert trail[i] == storage.endings[path[i]].version;
      }
    }
  }

  /** The epoch that initialising ends in. */
  ghost function ReachedEpoch(storage: Storage, st: LocalState): nat
    requires storage.EndingAt(st.waypoint).Some?
  {
    storage.PageEnd(Last(Visited(storage, st.safetyData.epoch, storage.EndingAt(st.waypoint).value))) + 1
  }

  const PAGE_STEP: nat := MAX_NUM_EPOCH_ENDING_LEDGER_INFO - 1

  /** The waypoint visits every PAGE_STEP-th ending from its own on. */
  lemma {:induction false} VisitedIs(storage: Storage, epoch: nat, k: nat, i: nat)
    requires k < |storage.endings| && i < |Visited(storage, epoch, k)|
    ensures Visited(storage, epoch, k)[i] == Min(k + PAGE_STEP * i, |storage.endings| - 1)
  {
    if i > 0 {
      var path, n := Visited(storage, epoch, k), |storage.endings|;
      VisitedIs(storage, epoch, k, i - 1);
      VisitedAt(storage, epoch, k, i - 1);
      assert path[i] == storage.PageEnd(path[i - 1]) == Min(path[i - 1] + PAGE_STEP, n - 1);
    }
  }

  lemma LastPage(storage: Storage, epoch: nat, k: nat)
    requires k < |storage.endings|
    ensures var path, n := Visited(storage, epoch, k), |storage.endings|;
      var next := storage.PageEnd(Last(path));
      && next == Min(k + PAGE_STEP * |path|, n - 1)
      && (next + 1 >= epoch || next == n - 1)
      && (|path| > 1 ==> Min(k + PAGE_STEP * (|path| - 1), n - 1) + 1 < epoch)
  {
    var path, n := Visited(storage, epoch, k), |storage.endings|;
    var i := |path| - 1;
    VisitedIs(storage, epoch, k, i);
    VisitedAt(storage, epoch, k, i);
    assert storage.PageEnd(path[i]) == Min(path[i] + PAGE_STEP, n - 1);
    if i > 0 {
      VisitedAt(storage, epoch, k, i - 1);
    }
  }

  /**
   The epoch that initialising ends in, in terms of the waypoint's ending k and the n
   endings stored: the first of the epochs that the pages from k end with which is not
   before the validator's own, or the newest when there is none.
   */
  lemma ReachedIs(storage: Storage, st: LocalState, k: nat) returns (pages: nat)
    requires storage.Valid() && storage.EndingAt(st.waypoint) == Some(k)
    ensures var reached, n := ReachedEpoch(storage, st), |storage.endings|;
      && pages > 0 && reached == Min(k + PAGE_STEP * pages + 1, n)
      && (reached >= st.safetyData.epoch || reached == n)
      && (pages > 1 ==> Min(k + PAGE_STEP * (pages - 1) + 1, n) < st.safetyData.epoch)
  {
    pages := |Visited(storage, st.safetyData.epoch, k)|;
    LastPage(storage, st.safetyData.epoch, k);
  }

  /**
   Initialising fails on a waypoint storage does not know and when storage is behind
   the validator's epoch; otherwise it settles in the epoch that the pages reach, and
   succeeds if the key reconciles.
   */
  lemma InitializedOutcome(storage: Storage, keys: KeyRing, st: LocalState)
    requires storage.Valid()
    ensures var (now, r) := Initialized(storage, keys, st);
      if storage.EndingAt(st.waypoint).None? then
        && now == st
        && r == Failure(if st.waypoint.version > storage.latestVersion then InternalError else InvalidEpochChangeProof)
      else if st.safetyData.epoch > |storage.endings| then
        && r.Failure? && r.error.WaypointOutOfDate? && !Continues(r)
        && r.error.currentEpoch == st.safetyData.epoch && r.error.providedEpoch == |storage.endings|
        && now == st.(waypoint := WaypointOf(storage.endings[|storage.endings| - 1]))
      else
        && Settled(storage, st, now) && KeyReconciled(keys, st, now, r)
        && now.safetyData.epoch == ReachedEpoch(storage, st)
  {
    var at := storage.EndingAt(st.waypoint);
    if at.Some? {
      var path := Visited(storage, st.safetyData.epoch, at.value);
      var last := Last(path);
      VisitedAt(storage, st.safetyData.epoch, at.value, |path| - 1);
      InstallOutcome(storage, st.(waypoint := WaypointOf(storage.endings[last])), keys, last, storage.PageEnd(last));
    }
  }

  /** Initialising succeeds exactly under conditions that can be read off storage, the keys and the state before it. */
  lemma InitializedExactlyWhen(storage: Storage, keys: KeyRing, st: LocalState)
    requires storage.Valid()
    ensures Initialized(storage, keys, st).1.Success? <==>
      && storage.EndingAt(st.waypoint).Some? && st.safetyData.epoch <= |storage.endings|
      && HoldsKey(keys, ReachedEpoch(storage, st), st.signer)
  {
    InitializedOutcome(storage, keys, st);
  }

  /**
   Initialising stops at the first page that reaches the validator's epoch, so it
   ends in storage's newest epoch exactly when that page is the last one.
   */
  lemma NewestExactlyWhen(storage: Storage, st: LocalState)
    requires storage.Valid() && storage.EndingAt(st.waypoint).Some?
    ensures var last := Last(Visited(storage, st.safetyData.epoch, storage.EndingAt(st.waypoint).value));
      ReachedEpoch(storage, st) == |storage.endings| <==>
      |storage.endings| <= last + MAX_NUM_EPOCH_ENDING_LEDGER_INFO
  {
  }

  /** The validator has no key, is in another epoch, or has not set up its epoch when that is asked for. */
  ghost predicate NotReady(st: LocalState, req: Request) {
    || st.signer.None? || RequestEpoch(req) != st.safetyData.epoch
    || (st.epochState.None? && (req.SignOrderVote? ==> req.certified == req.block))
  }

  /** Exactly then the answer asks for initialising. */
  lemma NotReadyExactlyWhen(st: LocalState, author: nat, req: Request)
    ensures var r := Respond(st, author, req).1;
      r.Failure? && NeedsInitialize(r.error) <==> NotReady(st, req)
  {
    match req
    case SignVote(block, _, _, tc, _) =>
    case SignTimeout(_, round, hqc, _, tc, _) =>
    case SignOrderVote(block, _, _) =>
  }

  /** After initialising, a request is still refused for its epoch exactly when that is not the one reached. */
  lemma StillWrongEpoch(storage: Storage, keys: KeyRing, st: LocalState, author: nat, req: Request)
    requires storage.Valid() && Initialized(storage, keys, st).1.Success?
    ensures var r := Respond(Initialized(storage, keys, st).0, author, req).1;
      r.Failure? && r.error.IncorrectEpoch? <==> RequestEpoch(req) != ReachedEpoch(storage, st)
  {
    InitializedOutcome(storage, keys, st);
    InitializedExactlyWhen(storage, keys, st);
    WrongEpochExactlyWhen(Initialized(storage, keys, st).0, author, req);
  }

  lemma WrongEpochExactlyWhen(st: LocalState, author: nat, req: Request)
    requires st.signer.Some?
    ensures var r := Respond(st, author, req).1;
      r.Failure? && r.error.IncorrectEpoch? <==> RequestEpoch(req) != st.safetyData.epoch
  {
    match req
    case SignVote(block, _, _, tc, _) =>
    case SignTimeout(_, round, hqc, _, tc, _) =>
    case SignOrderVote(block, _, _) =>
  }

  /** After moving to a new epoch, the first proposal on its genesis is voted for. */
  lemma NewEpochVotes(storage: Storage, keys: KeyRing, st: LocalState, author: nat, payload: nat)
    requires storage.Valid() && Initialized(storage, keys, st).1.Success?
    requires st.safetyData.epoch < ReachedEpoch(storage, st)
    ensures var epoch := ReachedEpoch(storage, st);
      var block := Block(epoch, 1, Genesis(epoch), payload);
      Respond(Initialized(storage, keys, st).0, author, SignVote(block, true, true, None, false)).1
        == Success(Voted(Vote(author, block, None)))
  {
    var ready, epoch := Initialized(storage, keys, st).0, ReachedEpoch(storage, st);
    InitializedOutcome(storage, keys, st);
    InitializedExactlyWhen(storage, keys, st);
    AnsweredExactlyWhen(ready, author, SignVote(Block(epoch, 1, Genesis(epoch), payload), true, true, None, false));
  }

  /** One version per epoch. */
  function Endings(n: nat): seq<LedgerInfo> {
    seq(n, i requires 0 <= i < n => LedgerInfo(i, i, Some(i + 1), true))
  }

  /** With 250 epochs ended and a validator in epoch 1, initialising succeeds in epoch 100. */
  lemma OnePageIsNotEnough(storage: Storage, st: LocalState)
    requires storage == Storage(Endings(250), 249)
    requires st.waypoint == WaypointOf(storage.endings[0]) && st.safetyData.epoch == 1
    ensures storage.Valid() && storage.EndingAt(st.waypoint) == Some(0) && ReachedEpoch(storage, st) == 100
  {
    assert storage.EndingAt(st.waypoint) == Some(0) by {
      var k := storage.EndingAt(st.waypoint).value;
      assert storage.endings[k].version == storage.endings[0].version;
    }
    assert Visited(storage, 1, 0) == [0];
  }

  // ---- Retrying ----

  /**
   The first answer stands unless it says that the validator is not ready; then the
   request runs once more on the state that initialising leaves, or the error of
   initialising is the answer.
   */
  ghost predicate RetryOutcome(storage: Storage, keys: KeyRing, author: nat, st: LocalState, req: Request,
                               now: LocalState, r: Result<Signed, Error>, runs: nat)
    requires storage.Valid()
  {
    var first, init := Respond(st, author, req), Initialized(storage, keys, st);
    if first.1.Success? || !NeedsInitialize(first.1.error) then runs == 1 && now == first.0 && r == first.1
    else if init.1.Failure? then runs == 1 && now == init.0 && r == Failure(init.1.error)
    else
      var second := Respond(init.0, author, req);
      runs == 2 && now == second.0 && r == second.1
  }

  /**
   Two runs happen exactly when the validator is not ready and initialising succeeds;
   then it has settled with its key, and the second answer refuses the epoch exactly
   when that is not the one reached.  The request is answered exactly when it is sound
   and allowed by the rules, in the state it finds or in the one that initialising leaves.
   */
  ghost predicate RetryMeaning(storage: Storage, keys: KeyRing, st: LocalState, req: Request,
                               r: Result<Signed, Error>, runs: nat)
    requires storage.Valid()
  {
    var ready := Initialized(storage, keys, st).0;
    && (runs == 2 <==>
         && NotReady(st, req)
         && storage.EndingAt(st.waypoint).Some? && st.safetyData.epoch <= |storage.endings|
         && HoldsKey(keys, ReachedEpoch(storage, st), st.signer))
    && (runs == 2 ==>
         && Settled(storage, st, ready) && KeyReconciled(keys, st, ready, Success(()))
         && (r.Failure? && r.error.IncorrectEpoch? <==> RequestEpoch(req) != ReachedEpoch(storage, st)))
    && (r.Success? <==>
         && Sound(req)
         && if !NotReady(st, req) then Allowed(st.safetyData, req)
            else runs == 2 && RequestEpoch(req) == ready.safetyData.epoch && Allowed(ready.safetyData, req))
  }

  lemma RetryMeans(storage: Storage, keys: KeyRing, author: nat, st: LocalState, req: Request,
                   now: LocalState, r: Result<Signed, Error>, runs: nat)
    requires storage.Valid() && RetryOutcome(storage, keys, author, st, req, now, r, runs)
    ensures RetryMeaning(storage, keys, st, req, r, runs)
  {
    NotReadyExactlyWhen(st, author, req);
    AnsweredExactlyWhen(st, author, req);
    InitializedOutcome(storage, keys, st);
    InitializedExactlyWhen(storage, keys, st);
    if runs == 2 {
      StillWrongEpoch(storage, keys, st, author, req);
      AnsweredExactlyWhen(Initialized(storage, keys, st).0, author, req);
    }
  }

  class SafetyRules {
    var waypoint: Waypoint
    var safetyData: SafetyData
    var epochState: Option<nat>
    var signer: Option<nat>
    const author: nat
    const keys: KeyRing

    constructor (waypoint: Waypoint, safetyData: SafetyData, author: nat, keys: KeyRing)
      ensures State() == LocalState(safetyData, waypoint, None, None)
      ensures this.author == author && this.keys == keys
    {
      this.waypoint := waypoint;
      this.safetyData := safetyData;
      this.epochState := None;
      this.signer := None;
      this.author := author;
      this.keys := keys;
    }

    function State(): LocalState
      reads this
    {
      LocalState(safetyData, waypoint, epochState, signer)
    }

    method SignVoteTwoChain(block: Block, tc: Option<TimeoutCert>) returns (r: Result<Signed, Error>)
      modifies this`safetyData
      ensures match DecideVote(old(safetyData), author, block, tc)
        case Success((sd, vote)) => safetyData == sd && r == Success(Voted(vote))
        case Failure(e) => safetyData == old(safetyData) && r == Failure(e)
      ensures r.Success? <==> VotedIn(old(safetyData), block.Round()) || MayVote(old(safetyData), block, tc)
    {
      VotesExactlyWhen(safetyData, author, block, tc);
      var sd := safetyData;
      if sd.lastVote.Some? && sd.lastVote.value.block.Round() == block.Round() {
        return Success(Voted(sd.lastVote.value));
      }
      if block.Round() <= sd.lastVotedRound {
        return Failure(IncorrectLastVotedRound(block.Round(), sd.lastVotedRound));
      }
      sd := sd.(lastVotedRound := block.Round());
      var safe := SafeToVote(block, tc);
      if safe.Failure? {
        return Failure(safe.error);
      }
      if block.Parent().Round() > sd.oneChainRound {
        sd := sd.(oneChainRound := block.Parent().Round());
      }
      if block.Parent().Parent().Round() > sd.preferredRound {
        sd := sd.(preferredRound := block.Parent().Parent().Round());
      }
      var commit := CommitInfo(block);
      if commit.Failure? {
        return Failure(commit.error);
      }
      var vote := Vote(author, block, commit.value);
      safetyData := sd.(lastVote := Some(vote));
      r := Success(Voted(vote));
    }

    method SignTimeoutWithQc(round: nat, hqc: Block, tc: Option<TimeoutCert>) returns (r: Result<Signed, Error>)
      modifies this`safetyData
      ensures match DecideTimeout(old(safetyData), round, hqc.Round(), tc)
        case Success(sd) => safetyData == sd && r == Success(TimedOut(round, hqc.Round()))
        case Failure(e) => safetyData == old(safetyData) && r == Failure(e)
      ensures r.Success? <==> MayTimeout(old(safetyData), round, hqc.Round(), tc)
    {
      TimesOutExactlyWhen(safetyData, round, hqc.Round(), tc);
      var sd := safetyData;
      var safe := SafeToTimeout(sd, round, hqc.Round(), tc);
      if safe.Failure? {
        return Failure(safe.error);
      }
      if round < sd.lastVotedRound {
        return Failure(IncorrectLastVotedRound(round, sd.lastVotedRound));
      }
      if round > sd.lastVotedRound {
        sd := sd.(lastVotedRound := round);
      }
      if round > sd.highestTimeoutRound {
        sd := sd.(highestTimeoutRound := round);
      }
      safetyData := sd;
      r := Success(TimedOut(round, hqc.Round()));
    }

    method SignOrderVoteFor(block: Block) returns (r: Result<Signed, Error>)
      modifies this`safetyData
      ensures match DecideOrderVote(old(safetyData), block)
        case Success(sd) => safetyData == sd && r == Success(OrderVoted(block))
        case Failure(e) => safetyData == old(safetyData) && r == Failure(e)
      ensures r.Success? <==> old(safetyData).highestTimeoutRound < block.Round()
    {
      var sd := safetyData;
      if block.Round() > sd.oneChainRound {
        sd := sd.(oneChainRound := block.Round());
      }
      if block.Parent().Round() > sd.preferredRound {
        sd := sd.(preferredRound := block.Parent().Round());
      }
      if block.Round() <= sd.highestTimeoutRound {
        return Failure(NotSafeForOrderVote);
      }
      safetyData := sd;
      r := Success(OrderVoted(block));
    }

    /** One guarded request: the checks, then the rule. */
    method Handle(req: Request) returns (r: Result<Signed, Error>)
      modifies this`safetyData
      ensures (State(), r) == Respond(old(State()), author, req)
    {
      var verified := Verify(State(), req);
      if verified.Failure? {
        return Failure(verified.error);
      }
      match req {
        case SignVote(block, _, _, tc, _) => r := SignVoteTwoChain(block, tc);
        case SignTimeout(_, round, hqc, _, tc, _) => r := SignTimeoutWithQc(round, hqc, tc);
        case SignOrderVote(block, _, _) => r := SignOrderVoteFor(block);
      }
    }

    method Initialize(proof: seq<LedgerInfo>) returns (r: Result<(), Error>)
      modifies this
      ensures ProofVerifies(proof, old(waypoint)) ==> (State(), r) == Install(old(State()), keys, proof[|proof| - 1])
      ensures !ProofVerifies(proof, old(waypoint)) ==> (State(), r) == (old(State()), Failure(InvalidEpochChangeProof))
      ensures ProofVerifies(proof, old(waypoint)) ==>
        var target := proof[|proof| - 1].nextEpoch.value;
        if old(safetyData.epoch) < target then safetyData.epoch == target && StartsOver(safetyData)
        else safetyData == old(safetyData)
    {
      var verified := VerifyProof(proof, waypoint);
      if !verified {
        return Failure(InvalidEpochChangeProof);
      }
      var last := proof[|proof| - 1];
      if last.nextEpoch.None? {
        return Failure(InvalidLedgerInfo);
      }
      var target := last.nextEpoch.value;
      var previous := waypoint;
      if last.version > previous.version {
        waypoint := WaypointOf(last);
      }
      if safetyData.epoch > target {
        return Failure(WaypointOutOfDate(previous.version, last.version, safetyData.epoch, target));
      }
      if safetyData.epoch < target {
        safetyData := FreshSafetyData(target);
      }
      epochState := Some(target);
      if target !in keys.expected {
        signer := None;
        return Failure(ValidatorNotInSet);
      }
      if signer != Some(keys.expected[target]) {
        if keys.expected[target] in keys.stored {
          signer := Some(keys.expected[target]);
        } else {
          signer := None;
          return Failure(ValidatorKeyNotFound);
        }
      }
      r := Success(());
    }

    method InitializeOnce(storage: Storage, version: nat) returns (r: Result<(), Error>)
      requires version == waypoint.version
      modifies this
      ensures State() == PageResult(storage, keys, old(State())).0
      ensures r == PageResult(storage, keys, old(State())).1
    {
      var page := storage.RetrieveEpochChangeProof(version);
      if page.Failure? {
        return Failure(page.error);
      }
      r := Initialize(page.value);
    }

    /** One pass of the loop: on to the next stage, or the outcome. */
    method InitializeStage(storage: Storage, version: nat,
                           ghost st: LocalState, ghost stages: seq<LocalState>, ghost i: nat)
      returns (r: Result<(), Error>)
      requires storage.Valid() && stages == Stages(storage, st) && i < |stages|
      requires State() == stages[i] && version == waypoint.version
      modifies this
      ensures Continues(r) <==> i + 1 < |stages|
      ensures Continues(r) ==> State() == stages[i + 1] && r.error.current == waypoint.version
      ensures !Continues(r) ==>
        State() == Initialized(storage, keys, st).0 && r == Initialized(storage, keys, st).1
    {
      OneStage(storage, keys, st, stages, i);
      r := InitializeOnce(storage, version);
    }

    /**
     Initialise page by page until the waypoint stops moving; `trail` lists the
     versions of the waypoints that were tried.
     */
    method PerformInitialize(storage: Storage) returns (r: Result<(), Error>, ghost trail: seq<nat>)
      requires storage.Valid()
      modifies this
      ensures State() == Initialized(storage, keys, old(State())).0
      ensures r == Initialized(storage, keys, old(State())).1
      ensures trail == Trail(Stages(storage, old(State())))
    {
      var version := waypoint.version;
      trail := [version];
      ghost var stages, i := Stages(storage, State()), 0;
      ghost var all := Trail(stages);
      while true
        invariant i < |stages| && State() == stages[i] && version == waypoint.version
        invariant trail == all[..i + 1]
        decreases |stages| - i
      {
        r := InitializeStage(storage, version, old(State()), stages, i);
        if Continues(r) {
          version := r.error.current;
          trail := trail + [version];
          TakeNext(all, i);
          i := i + 1;
        } else {
          return;
        }
      }
    }

    /** Run the request; when this validator turns out not to be ready, initialise and run it once more. */
    method Retry(storage: Storage, req: Request) returns (r: Result<Signed, Error>, ghost runs: nat)
      requires storage.Valid()
      modifies this
      ensures RetryOutcome(storage, keys, author, old(State()), req, State(), r, runs)
      ensures RetryMeaning(storage, keys, old(State()), req, r, runs)
    {
      ghost var st := State();
      r := Handle(req);
      runs := 1;
      if r.Failure? && NeedsInitialize(r.error) {
        var init, _ := PerformInitialize(storage);
        if init.Failure? {
          r := Failure(init.error);
        } else {
          r := Handle(req);
          runs := 2;
        }
      }
      RetryMeans(storage, keys, author, st, req, State(), r, runs);
    }
  }
}
