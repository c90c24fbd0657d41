/**
 The two-chain voting, timeout and order-vote rules, as decisions on the
 persisted SafetyData of one validator.  A block names its parent through the
 quorum certificate it carries, so a Block value stands for the block together
 with the chain of certified blocks below it (block ids are collision free).
 */
module TwoChainRules {
  import opened Common

  datatype Block =
    | Genesis(epoch: nat)
    | Block(epoch: nat, round: nat, parent: Block, payload: nat)
  {
    function Round(): nat {
      if Genesis? then 0 else round
    }

    /** The certified block below this one; genesis is its own parent. */
    function Parent(): Block {
      if Genesis? then this else parent
    }
  }

  datatype Error =
    | NotInitialized
    | IncorrectEpoch(given: nat, stored: nat)
    | WaypointOutOfDate(previous: nat, current: nat, currentEpoch: nat, providedEpoch: nat)
    | IncorrectRound(round: nat)
    | IncorrectLastVotedRound(round: nat, lastVoted: nat)
    | NotSafeToVote
    | NotSafeToTimeout
    | NotSafeForOrderVote
    | InvalidProposal
    | InvalidTimeout
    | InvalidTimeoutCertificate
    | InvalidQuorumCertificate
    | InvalidOneChainQuorumCertificate
    | InvalidEpochChangeProof
    | InvalidLedgerInfo
    | InternalError
    | ValidatorNotInSet
    | ValidatorKeyNotFound

  /** A vote carries the block it certifies and the block its ledger info commits, if any. */
  datatype Vote = Vote(author: nat, block: Block, commit: Option<Block>)

  datatype SafetyData = SafetyData(
    epoch: nat,
    lastVotedRound: nat,
    preferredRound: nat,
    oneChainRound: nat,
    lastVote: Option<Vote>,
    highestTimeoutRound: nat)

  function FreshSafetyData(epoch: nat): SafetyData {
    SafetyData(epoch, 0, 0, 0, None, 0)
  }

  /** What the voting rule reads of a timeout certificate. */
  datatype TimeoutCert = TimeoutCert(round: nat, hqcRound: nat)

  function TcRound(tc: Option<TimeoutCert>): nat {
    if tc.Some? then tc.value.round else 0
  }

  function TcHqcRound(tc: Option<TimeoutCert>): nat {
    if tc.Some? then tc.value.hqcRound else 0
  }

  function NextRound(round: nat): Result<nat, Error> {
    if round < U64_MAX then Success(round + 1) else Failure(IncorrectRound(round))
  }

  function SafeToVote(block: Block, tc: Option<TimeoutCert>): Result<(), Error> {
    var qcRound := block.Parent().Round();
    var afterQc :- NextRound(qcRound);
    if block.Round() == afterQc then Success(()) else
    var afterTc :- NextRound(TcRound(tc));
    if block.Round() == afterTc && qcRound >= TcHqcRound(tc) then Success(())
    else Failure(NotSafeToVote)
  }

  function SafeToTimeout(sd: SafetyData, round: nat, qcRound: nat, tc: Option<TimeoutCert>): Result<(), Error> {
    var afterQc :- NextRound(qcRound);
    var follows :- if round == afterQc then Success(true) else
      var afterTc :- NextRound(TcRound(tc)); Success(round == afterTc);
    if follows && qcRound >= sd.oneChainRound then Success(()) else Failure(NotSafeToTimeout)
  }

  function ObserveQc(sd: SafetyData, certified: Block): SafetyData {
    sd.(oneChainRound := Max(sd.oneChainRound, certified.Round()),
        preferredRound := Max(sd.preferredRound, certified.Parent().Round()))
  }

  /** The block that a vote on `block` commits under the two-chain rule. */
  function CommitInfo(block: Block): Result<Option<Block>, Error> {
    var afterQc :- NextRound(block.Parent().Round());
    Success(if afterQc == block.Round() && block.Parent().Round() > 0 then Some(block.Parent()) else None)
  }

  /** The decision on a proposal whose certificates verify: the new SafetyData and the vote sent. */
  function DecideVote(sd: SafetyData, author: nat, block: Block, tc: Option<TimeoutCert>):
    Result<(SafetyData, Vote), Error>
  {
    if sd.lastVote.Some? && sd.lastVote.value.block.Round() == block.Round() then
      Success((sd, sd.lastVote.value))
    else if block.Round() <= sd.lastVotedRound then
      Failure(IncorrectLastVotedRound(block.Round(), sd.lastVotedRound))
    else
      var _ :- SafeToVote(block, tc);
      var commit :- CommitInfo(block);
      var vote := Vote(author, block, commit);
      Success((ObserveQc(sd.(lastVotedRound := block.Round()), block.Parent()).(lastVote := Some(vote)), vote))
  }

  function DecideTimeout(sd: SafetyData, round: nat, qcRound: nat, tc: Option<TimeoutCert>):
    Result<SafetyData, Error>
  {
    var _ :- SafeToTimeout(sd, round, qcRound, tc);
    if round < sd.lastVotedRound then
      Failure(IncorrectLastVotedRound(round, sd.lastVotedRound))
    else
      Success(sd.(lastVotedRound := round, highestTimeoutRound := Max(sd.highestTimeoutRound, round)))
  }

  function DecideOrderVote(sd: SafetyData, block: Block): Result<SafetyData, Error> {
    if block.Round() > sd.highestTimeoutRound then Success(ObserveQc(sd, block))
    else Failure(NotSafeForOrderVote)
  }

  // ---- The rules in rounds ----

  /** One round above the certified parent, or above a timeout certificate that saw no higher certificate. */
  predicate VoteFollows(round: nat, qcRound: nat, tc: Option<TimeoutCert>) {
    || round == qcRound + 1
    || match tc
       case None => round == 1
       case Some(t) => round == t.round + 1 && t.hqcRound <= qcRound
  }

  predicate TimeoutFollows(round: nat, qcRound: nat, tc: Option<TimeoutCert>) {
    || round == qcRound + 1
    || match tc
       case None => round == 1
       case Some(t) => round == t.round + 1
  }

  /** A round number that is needed has no successor. */
  predicate OutOfRounds(round: nat, qcRound: nat, tc: Option<TimeoutCert>) {
    qcRound >= U64_MAX || (round != qcRound + 1 && tc.Some? && tc.value.round >= U64_MAX)
  }

  predicate VotedIn(sd: SafetyData, round: nat) {
    sd.lastVote.Some? && sd.lastVote.value.block.Round() == round
  }

  /** A new vote is signed. */
  predicate MayVote(sd: SafetyData, block: Block, tc: Option<TimeoutCert>) {
    var round, qcRound := block.Round(), block.Parent().Round();
    && !VotedIn(sd, round) && sd.lastVotedRound < round
    && !OutOfRounds(round, qcRound, tc) && VoteFollows(round, qcRound, tc)
  }

  predicate MayTimeout(sd: SafetyData, round: nat, qcRound: nat, tc: Option<TimeoutCert>) {
    && sd.lastVotedRound <= round && sd.oneChainRound <= qcRound
    && !OutOfRounds(round, qcRound, tc) && TimeoutFollows(round, qcRound, tc)
  }

  /** The persisted rounds after a vote: the voted round, and the highest certified round and parent round seen. */
  ghost predicate VoteRecorded(sd: SafetyData, sd': SafetyData, block: Block, vote: Vote) {
    var parent := block.Parent();
    && sd'.epoch == sd.epoch && sd'.highestTimeoutRound == sd.highestTimeoutRound
    && sd'.lastVotedRound == block.Round() == vote.block.Round() && sd'.lastVote == Some(vote)
    && IsMax(sd'.oneChainRound, sd.oneChainRound, parent.Round())
    && IsMax(sd'.preferredRound, sd.preferredRound, parent.Parent().Round())
  }

  predicate IsMax(m: nat, a: nat, b: nat) {
    a <= m && b <= m && (m == a || m == b)
  }

  /** The vote is on the block, and commits its parent exactly when that is the round before and not genesis. */
  ghost predicate VoteOn(vote: Vote, author: nat, block: Block) {
    && vote.author == author && vote.block == block
    && (vote.commit.Some? <==> block.Round() == block.Parent().Round() + 1 && block.Parent().Round() > 0)
    && (vote.commit.Some? ==> vote.commit.value == block.Parent())
  }

  /** A vote is given exactly in a round voted in before, where it is the same vote, or where the rounds allow one. */
  lemma VotesExactlyWhen(sd: SafetyData, author: nat, block: Block, tc: Option<TimeoutCert>)
    ensures var d := DecideVote(sd, author, block, tc);
      && (d.Success? <==> VotedIn(sd, block.Round()) || MayVote(sd, block, tc))
      && (VotedIn(sd, block.Round()) ==> d == Success((sd, sd.lastVote.value)))
      && (MayVote(sd, block, tc) ==>
           VoteOn(d.value.1, author, block) && VoteRecorded(sd, d.value.0, block, d.value.1))
  {
  }

  /** The error of a refused vote names what was wrong. */
  lemma VoteRefusedBecause(sd: SafetyData, author: nat, block: Block, tc: Option<TimeoutCert>)
    requires DecideVote(sd, author, block, tc).Failure?
    ensures var e, round, qcRound := DecideVote(sd, author, block, tc).error, block.Round(), block.Parent().Round();
      && (e == IncorrectLastVotedRound(round, sd.lastVotedRound) <==> round <= sd.lastVotedRound)
      && (e.IncorrectRound? <==> sd.lastVotedRound < round && OutOfRounds(round, qcRound, tc))
      && (e == NotSafeToVote <==>
           sd.lastVotedRound < round && !OutOfRounds(round, qcRound, tc) && !VoteFollows(round, qcRound, tc))
  {
  }

  /** A timeout is signed exactly where the rounds allow one; it moves the two rounds it is about and nothing else. */
  lemma TimesOutExactlyWhen(sd: SafetyData, round: nat, qcRound: nat, tc: Option<TimeoutCert>)
    ensures var d := DecideTimeout(sd, round, qcRound, tc);
      && (d.Success? <==> MayTimeout(sd, round, qcRound, tc))
      && (d.Success? ==>
           && d.value.(lastVotedRound := sd.lastVotedRound, highestTimeoutRound := sd.highestTimeoutRound) == sd
           && d.value.lastVotedRound == round
           && IsMax(d.value.highestTimeoutRound, sd.highestTimeoutRound, round))
      && (d.Failure? ==>
           && (d.error.IncorrectRound? <==> OutOfRounds(round, qcRound, tc))
           && (d.error == IncorrectLastVotedRound(round, sd.lastVotedRound) <==>
                MayTimeout(sd.(lastVotedRound := 0), round, qcRound, tc))
           && (d.error.IncorrectRound? || d.error.IncorrectLastVotedRound? || d.error.NotSafeToTimeout?))
  {
  }

  /** An order vote is signed exactly above every round timed out in, and moves the two certified rounds. */
  lemma OrderVotesExactlyWhen(sd: SafetyData, block: Block)
    ensures var d := DecideOrderVote(sd, block);
      && (d.Success? <==> sd.highestTimeoutRound < block.Round())
      && (d.Failure? ==> d.error == NotSafeForOrderVote)
      && (d.Success? ==>
           && d.value.(oneChainRound := sd.oneChainRound, preferredRound := sd.preferredRound) == sd
           && IsMax(d.value.oneChainRound, sd.oneChainRound, block.Round())
           && IsMax(d.value.preferredRound, sd.preferredRound, block.Parent().Round()))
  {
  }
}
