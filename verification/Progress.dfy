/**
 The voting rules never lock the honest validators out: from every state of every
 run they can commit a new block among themselves, as long as round numbers last.
 */
module Progress {
  import opened Common
  import opened TwoChainRules
  import opened Quorum
  import opened Agreement

  // ---- What a run keeps beside the agreement invariant ----

  /** Some certified block has this round. */
  ghost predicate QcAt(c: Committee, epoch: nat, s: State, round: nat) {
    exists b: Block :: Certified(c, epoch, s, b) && b.Round() == round
  }

  ghost predicate TcAt(c: Committee, s: State, round: nat) {
    exists tc: TimeoutCert :: TcBacked(c, s, tc) && tc.round == round
  }

  /** A certificate exists that lets validators enter the round. */
  ghost predicate Entered(c: Committee, epoch: nat, s: State, round: nat) {
    round > 0 ==> QcAt(c, epoch, s, round - 1) || TcAt(c, s, round - 1)
  }

  /** What a validator has seen and done is backed by certificates that anybody can show. */
  ghost predicate Backed(c: Committee, epoch: nat, s: State, n: Node) {
    && QcAt(c, epoch, s, n.sd.oneChainRound)
    && Entered(c, epoch, s, n.sd.lastVotedRound)
    && forall b :: b in n.votes ==> b.epoch == epoch
  }

  ghost predicate AllBacked(c: Committee, epoch: nat, s: State) {
    s.Keys == c.Validators() && forall v :: v in c.Honest() ==> Backed(c, epoch, s, s[v])
  }

  lemma QcAtGrows(c: Committee, epoch: nat, s: State, s': State, round: nat)
    requires Grows(s, s') && QcAt(c, epoch, s, round)
    ensures QcAt(c, epoch, s', round)
  {
    var b: Block :| Certified(c, epoch, s, b) && b.Round() == round;
    CertifiedGrows(c, epoch, s, s', b);
  }

  lemma EnteredGrows(c: Committee, epoch: nat, s: State, s': State, round: nat)
    requires Grows(s, s') && Entered(c, epoch, s, round)
    ensures Entered(c, epoch, s', round)
  {
    if round > 0 {
      if QcAt(c, epoch, s, round - 1) {
        QcAtGrows(c, epoch, s, s', round - 1);
      } else {
        var tc: TimeoutCert :| TcBacked(c, s, tc) && tc.round == round - 1;
        TcBackedGrows(c, s, s', tc);
      }
    }
  }

  lemma BackedGrows(c: Committee, epoch: nat, s: State, s': State, n: Node)
    requires Grows(s, s') && Backed(c, epoch, s, n)
    ensures Backed(c, epoch, s', n)
  {
    QcAtGrows(c, epoch, s, s', n.sd.oneChainRound);
    EnteredGrows(c, epoch, s, s', n.sd.lastVotedRound);
  }

  /** A round signed in was entered by the certificates shown. */
  lemma FollowingEnters(c: Committee, epoch: nat, s: State, round: nat, qc: Block, tc: Option<TimeoutCert>)
    requires Certified(c, epoch, s, qc) && qc.Round() < round && (tc.Some? ==> TcBacked(c, s, tc.value))
    requires TimeoutFollows(round, qc.Round(), tc)
    ensures Entered(c, epoch, s, round)
  {
  }

  lemma StepKeepsBacked(c: Committee, epoch: nat, s: State, n: Node, v: nat, step: Step)
    requires NodeInv(n) && Backed(c, epoch, s, n) && v in c.Honest() && Enabled(c, epoch, s, v, step)
    ensures Backed(c, epoch, s, Apply(n, v, step))
  {
    match step {
      case HonestVote(b, tc) =>
        VotesExactlyWhen(n.sd, v, b, tc);
        if MayVote(n.sd, b, tc) {
          FollowingEnters(c, epoch, s, b.round, b.parent, tc);
          assert Certified(c, epoch, s, b.parent);
        }
      case HonestTimeout(round, hqc, tc) =>
        TimesOutExactlyWhen(n.sd, round, hqc.Round(), tc);
        if MayTimeout(n.sd, round, hqc.Round(), tc) {
          FollowingEnters(c, epoch, s, round, hqc, tc);
        }
      case HonestOrderVote(b) =>
        OrderVotesExactlyWhen(n.sd, b);
        assert Certified(c, epoch, s, b);
    }
  }

  lemma NextBacked(c: Committee, epoch: nat, s: State, v: nat, step: Step, s': State)
    requires Inv(c, epoch, s) && AllBacked(c, epoch, s) && Next(c, epoch, s, v, step, s')
    ensures AllBacked(c, epoch, s')
  {
    NextGrows(c, epoch, s, v, step, s');
    forall w | w in c.Honest() ensures Backed(c, epoch, s', s'[w]) {
      if w == v {
        StepKeepsBacked(c, epoch, s, s[v], v, step);
      }
      BackedGrows(c, epoch, s, s', s'[w]);
    }
  }

  lemma {:induction false} RunBacked(c: Committee, epoch: nat, run: seq<State>, i: nat)
    requires IsRun(c, epoch, run) && i < |run|
    ensures AllBacked(c, epoch, run[i])
  {
    if i == 0 {
      assert Certified(c, epoch, run[0], Genesis(epoch));
    } else {
      RunBacked(c, epoch, run, i - 1);
      RunInv(c, epoch, run, i - 1);
      assert Reaches(c, epoch, run[i - 1], run[i - 1 + 1]);
      var v, step :| Next(c, epoch, run[i - 1], v, step, run[i]);
      NextBacked(c, epoch, run[i - 1], v, step, run[i]);
    }
  }

  // ---- Honest validators acting together ----

  ghost predicate HonestReaches(c: Committee, epoch: nat, s: State, s': State) {
    exists v, step :: v in c.Honest() && Next(c, epoch, s, v, step, s')
  }

  /** Steps of honest validators only. */
  ghost predicate HonestPath(c: Committee, epoch: nat, path: seq<State>) {
    |path| > 0 && forall i :: 0 <= i < |path| - 1 ==> HonestReaches(c, epoch, path[i], path[i + 1])
  }

  function Last(path: seq<State>): State
    requires |path| > 0
  {
    path[|path| - 1]
  }

  lemma EnabledGrows(c: Committee, epoch: nat, s: State, s': State, v: nat, step: Step)
    requires Grows(s, s') && Enabled(c, epoch, s, v, step)
    ensures Enabled(c, epoch, s', v, step)
  {
    match step {
      case HonestVote(b, tc) =>
        CertifiedGrows(c, epoch, s, s', b.parent);
        if tc.Some? {
          TcBackedGrows(c, s, s', tc.value);
        }
      case HonestTimeout(round, hqc, tc) =>
        CertifiedGrows(c, epoch, s, s', hqc);
        if tc.Some? {
          TcBackedGrows(c, s, s', tc.value);
        }
      case HonestOrderVote(b) => CertifiedGrows(c, epoch, s, s', b);
      case ByzantineSigns(_, _, _) =>
    }
  }

  /** Exactly the validators of the set took the step. */
  ghost predicate AllTook(s: State, step: Step, todo: set<nat>, s': State) {
    s'.Keys == s.Keys && forall v :: v in s ==> s'[v] == if v in todo then Apply(s[v], v, step) else s[v]
  }

  /** One validator takes the step, and it stays possible for the others. */
  lemma TakeOne(c: Committee, epoch: nat, s: State, step: Step, todo: set<nat>, v: nat) returns (s': State)
    requires s.Keys == c.Validators() && todo <= c.Honest() && v in todo
    requires forall w :: w in todo ==> Enabled(c, epoch, s, w, step)
    ensures HonestReaches(c, epoch, s, s') && s' == s[v := Apply(s[v], v, step)] && s'.Keys == s.Keys
    ensures forall w :: w in todo - {v} ==> Enabled(c, epoch, s', w, step)
  {
    s' := s[v := Apply(s[v], v, step)];
    assert Next(c, epoch, s, v, step, s');
    NextGrows(c, epoch, s, v, step, s');
    forall w | w in todo - {v} ensures Enabled(c, epoch, s', w, step) {
      EnabledGrows(c, epoch, s, s', w, step);
    }
  }

  /** Every validator of a set takes the step, one after the other. */
  lemma {:induction false} TakeAll(c: Committee, epoch: nat, s: State, step: Step, todo: set<nat>)
    returns (path: seq<State>)
    requires s.Keys == c.Validators() && todo <= c.Honest()
    requires forall v :: v in todo ==> Enabled(c, epoch, s, v, step)
    ensures HonestPath(c, epoch, path) && path[0] == s && AllTook(s, step, todo, Last(path))
    decreases todo
  {
    if todo == {} {
      path := [s];
    } else {
      var v :| v in todo;
      var s' := TakeOne(c, epoch, s, step, todo, v);
      var rest := TakeAll(c, epoch, s', step, todo - {v});
      path := [s] + rest;
      Prepend(c, epoch, s, rest);
      OneMoreTook(s, step, todo, v, s', Last(rest));
    }
  }

  lemma OneMoreTook(s: State, step: Step, todo: set<nat>, v: nat, s': State, s'': State)
    requires v in todo && v in s && s' == s[v := Apply(s[v], v, step)] && AllTook(s', step, todo - {v}, s'')
    ensures AllTook(s, step, todo, s'')
  {
    assert s'.Keys == s.Keys;
    forall w | w in s ensures s''[w] == if w in todo then Apply(s[w], w, step) else s[w] {
      assert w != v ==> s'[w] == s[w];
    }
  }

  lemma Prepend(c: Committee, epoch: nat, s: State, rest: seq<State>)
    requires HonestPath(c, epoch, rest) && HonestReaches(c, epoch, s, rest[0])
    ensures HonestPath(c, epoch, [s] + rest) && Last([s] + rest) == Last(rest)
  {
    var path := [s] + rest;
    forall i | 0 <= i < |path| - 1 ensures HonestReaches(c, epoch, path[i], path[i + 1]) {
      if i > 0 {
        assert path[i] == rest[i - 1] && path[i + 1] == rest[i - 1 + 1];
      }
    }
  }

  lemma Join(c: Committee, epoch: nat, p: seq<State>, q: seq<State>)
    requires HonestPath(c, epoch, p) && HonestPath(c, epoch, q) && Last(p) == q[0]
    ensures HonestPath(c, epoch, p + q[1..]) && (p + q[1..])[0] == p[0] && Last(p + q[1..]) == Last(q)
  {
    var path := p + q[1..];
    forall i | 0 <= i < |path| - 1 ensures HonestReaches(c, epoch, path[i], path[i + 1]) {
      if i < |p| - 1 {
        assert path[i] == p[i] && path[i + 1] == p[i + 1];
      } else {
        var j := i - (|p| - 1);
        assert path[i] == q[j] && path[i + 1] == q[j + 1];
      }
    }
  }

  // ---- One new block ----

  /** All honest validators are at or below a round, and none has seen a certificate above another. */
  ghost predicate Within(c: Committee, s: State, round: nat, qcRound: nat) {
    && s.Keys == c.Validators()
    && forall v :: v in c.Honest() ==>
         NodeInv(s[v]) && s[v].sd.lastVotedRound <= round && s[v].sd.oneChainRound <= qcRound
  }

  lemma VoteTaken(n: Node, v: nat, b: Block, tc: Option<TimeoutCert>, qcRound: nat)
    requires NodeInv(n) && b.Block? && n.sd.lastVotedRound < b.round && b.parent.Round() < b.round
    requires !OutOfRounds(b.round, b.parent.Round(), tc) && VoteFollows(b.round, b.parent.Round(), tc)
    requires n.sd.oneChainRound <= qcRound && b.parent.Round() <= qcRound
    ensures var n' := Apply(n, v, HonestVote(b, tc));
      && NodeInv(n') && b in n'.votes
      && n'.sd.lastVotedRound == b.round && n'.sd.oneChainRound <= qcRound
  {
    if VotedIn(n.sd, b.round) {
      assert VoteBounded(n.sd, n.sd.lastVote.value.block);
    }
    VotesExactlyWhen(n.sd, v, b, tc);
    VoteKeepsNodeInv(n, v, b, tc);
  }

  lemma TimeoutTaken(n: Node, v: nat, round: nat, hqc: Block, tc: Option<TimeoutCert>)
    requires NodeInv(n) && MayTimeout(n.sd, round, hqc.Round(), tc)
    ensures var n' := Apply(n, v, HonestTimeout(round, hqc, tc));
      && NodeInv(n') && Timeout(round, hqc.Round()) in n'.timeouts
      && n'.sd.lastVotedRound == round && n'.sd.oneChainRound == n.sd.oneChainRound
  {
    TimesOutExactlyWhen(n.sd, round, hqc.Round(), tc);
    TimeoutKeepsNodeInv(n, v, round, hqc, tc);
  }

  /** The honest validators vote for a block above them all, which certifies it. */
  lemma AllVote(c: Committee, epoch: nat, s: State, b: Block, tc: Option<TimeoutCert>, qcRound: nat)
    returns (path: seq<State>)
    requires c.Valid() && ProposalVerifies(c, epoch, s, b, tc) && Within(c, s, b.round - 1, qcRound)
    requires !OutOfRounds(b.round, b.parent.Round(), tc) && VoteFollows(b.round, b.parent.Round(), tc)
    requires b.parent.Round() <= qcRound
    ensures HonestPath(c, epoch, path) && path[0] == s
    ensures Within(c, Last(path), b.round, qcRound) && Certified(c, epoch, Last(path), b)
  {
    path := TakeAll(c, epoch, s, HonestVote(b, tc), c.Honest());
    forall v | v in c.Honest()
      ensures NodeInv(Last(path)[v]) && Last(path)[v].sd.lastVotedRound == b.round
      ensures Last(path)[v].sd.oneChainRound <= qcRound && b in Last(path)[v].votes
    {
      VoteTaken(s[v], v, b, tc, qcRound);
    }
    c.HonestIsQuorum();
    assert VotedBy(c, Last(path), b, c.Honest());
  }

  lemma TimeoutsCertify(c: Committee, s: State, round: nat, qcRound: nat)
    requires c.Valid() && qcRound < round
    requires forall v :: v in c.Honest() ==> v in s && Timeout(round, qcRound) in s[v].timeouts
    ensures TcBacked(c, s, TimeoutCert(round, qcRound))
  {
    c.HonestIsQuorum();
    var signers := map v | v in c.Honest() :: qcRound;
    assert signers.Keys == c.Honest();
    var v :| v in c.Honest();
    assert v in signers && signers[v] == qcRound;
    assert TcSignedBy(c, s, TimeoutCert(round, qcRound), signers);
  }

  /** The honest validators time out in a round that can be entered, which makes a timeout certificate. */
  lemma AllTimeOut(c: Committee, epoch: nat, s: State, round: nat, hqc: Block, tc: Option<TimeoutCert>)
    returns (path: seq<State>)
    requires c.Valid() && Within(c, s, round, hqc.Round()) && Certified(c, epoch, s, hqc) && hqc.Round() < round
    requires tc.Some? ==> TcBacked(c, s, tc.value)
    requires !OutOfRounds(round, hqc.Round(), tc) && TimeoutFollows(round, hqc.Round(), tc)
    ensures HonestPath(c, epoch, path) && path[0] == s
    ensures Within(c, Last(path), round, hqc.Round()) && Certified(c, epoch, Last(path), hqc)
    ensures TcBacked(c, Last(path), TimeoutCert(round, hqc.Round()))
  {
    path := TakeAll(c, epoch, s, HonestTimeout(round, hqc, tc), c.Honest());
    var s' := Last(path);
    forall v | v in c.Honest()
      ensures NodeInv(s'[v]) && s'[v].sd.lastVotedRound == round && s'[v].sd.oneChainRound <= hqc.Round()
      ensures Timeout(round, hqc.Round()) in s'[v].timeouts
    {
      TimeoutTaken(s[v], v, round, hqc, tc);
    }
    TimeoutsCertify(c, s', round, hqc.Round());
    PathGrows(c, epoch, path, |path| - 1);
    CertifiedGrows(c, epoch, s, s', hqc);
  }

  lemma {:induction false} PathGrows(c: Committee, epoch: nat, path: seq<State>, i: nat)
    requires HonestPath(c, epoch, path) && i < |path|
    ensures Grows(path[0], path[i])
  {
    if i > 0 {
      PathGrows(c, epoch, path, i - 1);
      assert HonestReaches(c, epoch, path[i - 1], path[i - 1 + 1]);
      var v, step :| v in c.Honest() && Next(c, epoch, path[i - 1], v, step, path[i]);
      NextGrows(c, epoch, path[i - 1], v, step, path[i]);
    }
  }

  lemma WithinMore(c: Committee, s: State, round: nat, qcRound: nat, more: nat)
    requires Within(c, s, round, qcRound) && qcRound <= more
    ensures Within(c, s, round, more)
  {
  }

  /** A proposal on a certified block, entered by the given certificates, is certified. */
  lemma Extend(c: Committee, epoch: nat, s: State, qc: Block, round: nat, tc: Option<TimeoutCert>)
    returns (path: seq<State>)
    requires c.Valid() && Within(c, s, round, qc.Round()) && qc.epoch == epoch && qc.Round() <= round < U64_MAX
    requires Certified(c, epoch, s, qc) && VoteFollows(round + 1, qc.Round(), tc)
    requires tc.Some? ==> TcBacked(c, s, tc.value) && tc.value.round < U64_MAX
    ensures HonestPath(c, epoch, path) && path[0] == s
    ensures Within(c, Last(path), round + 1, round + 1)
    ensures Certified(c, epoch, Last(path), Block(epoch, round + 1, qc, 0))
  {
    var b := Block(epoch, round + 1, qc, 0);
    path := AllVote(c, epoch, s, b, tc, qc.Round());
    WithinMore(c, Last(path), round + 1, qc.Round(), round + 1);
  }

  lemma ChildCommits(c: Committee, epoch: nat, s: State, b: Block)
    requires 0 < b.Round() < U64_MAX && Certified(c, epoch, s, Block(epoch, b.Round() + 1, b, 0))
    ensures Committed(c, epoch, s, b)
  {
    assert CommitsParent(c, epoch, s, Block(epoch, b.Round() + 1, b, 0), b);
  }

  /** A certified block that everybody is at is committed by one more proposal. */
  lemma CommitTop(c: Committee, epoch: nat, s: State, b: Block) returns (path: seq<State>)
    requires c.Valid() && Within(c, s, b.Round(), b.Round()) && Certified(c, epoch, s, b)
    requires b.epoch == epoch && 0 < b.Round() < U64_MAX
    ensures HonestPath(c, epoch, path) && path[0] == s && Committed(c, epoch, Last(path), b)
  {
    path := Extend(c, epoch, s, b, b.Round(), None);
    ChildCommits(c, epoch, Last(path), b);
  }

  /** Two proposals in a row commit the first. */
  lemma CommitOn(c: Committee, epoch: nat, s: State, qc: Block, round: nat, tc: Option<TimeoutCert>)
    returns (path: seq<State>)
    requires c.Valid() && Within(c, s, round, qc.Round()) && qc.epoch == epoch && qc.Round() <= round
    requires Certified(c, epoch, s, qc) && VoteFollows(round + 1, qc.Round(), tc) && round + 2 <= U64_MAX
    requires tc.Some? ==> TcBacked(c, s, tc.value) && tc.value.round < U64_MAX
    ensures HonestPath(c, epoch, path) && path[0] == s
    ensures Committed(c, epoch, Last(path), Block(epoch, round + 1, qc, 0))
  {
    var b := Block(epoch, round + 1, qc, 0);
    var first := Extend(c, epoch, s, qc, round, tc);
    assert b.Round() == round + 1;
    var second := CommitTop(c, epoch, Last(first), b);
    Join(c, epoch, first, second);
    path := first + second[1..];
  }

  /** When the round was not entered by the certified block, time out of it first. */
  lemma TimeOutAndCommit(c: Committee, epoch: nat, s: State, qc: Block, round: nat, tc: Option<TimeoutCert>)
    returns (path: seq<State>)
    requires c.Valid() && Within(c, s, round, qc.Round()) && qc.epoch == epoch && qc.Round() < round
    requires Certified(c, epoch, s, qc) && TimeoutFollows(round, qc.Round(), tc) && round + 2 <= U64_MAX
    requires tc.Some? ==> TcBacked(c, s, tc.value) && tc.value.round < U64_MAX
    ensures HonestPath(c, epoch, path) && path[0] == s
    ensures Committed(c, epoch, Last(path), Block(epoch, round + 1, qc, 0))
  {
    var out := AllTimeOut(c, epoch, s, round, qc, tc);
    var commit := CommitOn(c, epoch, Last(out), qc, round, Some(TimeoutCert(round, qc.Round())));
    Join(c, epoch, out, commit);
    path := out + commit[1..];
  }

  /** A quorum timed out in each of the first rounds, having seen no certificate but genesis. */
  ghost predicate TimedOutTo(c: Committee, s: State, k: nat) {
    forall tc: TimeoutCert :: 1 <= tc.round <= k && tc.hqcRound == 0 ==> TcBacked(c, s, tc)
  }

  lemma TimedOutGrows(c: Committee, epoch: nat, path: seq<State>, k: nat)
    requires HonestPath(c, epoch, path) && TimedOutTo(c, path[0], k)
    ensures TimedOutTo(c, Last(path), k)
  {
    PathGrows(c, epoch, path, |path| - 1);
    forall tc: TimeoutCert | 1 <= tc.round <= k && tc.hqcRound == 0 ensures TcBacked(c, Last(path), tc) {
      TcBackedGrows(c, path[0], Last(path), tc);
    }
  }

  /** The certificate of the last of those rounds. */
  function LastTc(k: nat): Option<TimeoutCert> {
    if k == 0 then None else Some(TimeoutCert(k, 0))
  }

  lemma NextTimesOut(c: Committee, epoch: nat, s: State, k: nat) returns (path: seq<State>)
    requires c.Valid() && Within(c, s, k, 0) && TimedOutTo(c, s, k) && k + 1 < U64_MAX
    ensures HonestPath(c, epoch, path) && path[0] == s
    ensures Within(c, Last(path), k + 1, 0) && TimedOutTo(c, Last(path), k + 1)
  {
    var g := Genesis(epoch);
    assert Within(c, s, k + 1, g.Round());
    LastTcBacked(c, s, k);
    path := AllTimeOut(c, epoch, s, k + 1, g, LastTc(k));
    TimedOutGrows(c, epoch, path, k);
    OneMoreTimedOut(c, Last(path), k);
  }

  lemma LastTcBacked(c: Committee, s: State, k: nat)
    requires TimedOutTo(c, s, k)
    ensures LastTc(k).Some? ==> TcBacked(c, s, LastTc(k).value)
  {
  }

  lemma OneMoreTimedOut(c: Committee, s: State, k: nat)
    requires TimedOutTo(c, s, k) && TcBacked(c, s, TimeoutCert(k + 1, 0))
    ensures TimedOutTo(c, s, k + 1)
  {
    forall tc: TimeoutCert | 1 <= tc.round <= k + 1 && tc.hqcRound == 0 ensures TcBacked(c, s, tc) {
      if tc.round == k + 1 {
        assert tc == TimeoutCert(k + 1, 0);
      }
    }
  }

  /** One round after the other times out before any block was certified. */
  lemma {:induction false} RoundsTimeOut(c: Committee, epoch: nat, s: State, k: nat) returns (path: seq<State>)
    requires c.Valid() && Init(c, epoch, s) && k < U64_MAX
    ensures HonestPath(c, epoch, path) && path[0] == s
    ensures Within(c, Last(path), k, 0) && TimedOutTo(c, Last(path), k)
  {
    if k == 0 {
      path := [s];
    } else {
      var before := RoundsTimeOut(c, epoch, s, k - 1);
      var last := NextTimesOut(c, epoch, Last(before), k - 1);
      Join(c, epoch, before, last);
      path := before + last[1..];
    }
  }

  lemma PathIsRun(c: Committee, epoch: nat, path: seq<State>)
    requires HonestPath(c, epoch, path) && Init(c, epoch, path[0])
    ensures IsRun(c, epoch, path)
  {
    forall i | 0 <= i < |path| - 1 ensures Reaches(c, epoch, path[i], path[i + 1]) {
      assert HonestReaches(c, epoch, path[i], path[i + 1]);
    }
  }

  /** However many rounds time out first, the next proposal can still be committed, in any committee. */
  lemma CommitAfterTimeouts(c: Committee, epoch: nat, s: State, k: nat) returns (run: seq<State>)
    requires c.Valid() && Init(c, epoch, s) && k + 2 <= U64_MAX
    ensures IsRun(c, epoch, run) && run[0] == s && TimedOutTo(c, Last(run), k)
    ensures Committed(c, epoch, Last(run), Block(epoch, k + 1, Genesis(epoch), 0))
  {
    var out := RoundsTimeOut(c, epoch, s, k);
    var g := Genesis(epoch);
    assert g.Round() == 0 && VoteFollows(k + 1, 0, LastTc(k));
    LastTcBacked(c, Last(out), k);
    var commit := CommitOn(c, epoch, Last(out), g, k, LastTc(k));
    TimedOutGrows(c, epoch, commit, k);
    Join(c, epoch, out, commit);
    run := out + commit[1..];
    PathIsRun(c, epoch, run);
  }

  // ---- From any state of any run ----

  lemma {:induction false} Greatest(m: map<nat, nat>) returns (k: nat)
    requires m != map[]
    ensures k in m && forall j :: j in m ==> m[j] <= m[k]
    decreases m.Keys
  {
    var i :| i in m;
    var rest := m - {i};
    assert forall j :: j in m && j != i ==> j in rest && rest[j] == m[j];
    k := i;
    if rest != map[] {
      var r := Greatest(rest);
      if m[i] <= m[r] {
        k := r;
      }
    }
  }

  /** A certified block is of the epoch, and in a round some honest validator has voted in. */
  lemma CertifiedWithin(c: Committee, epoch: nat, s: State, b: Block, round: nat)
    requires c.Valid() && Inv(c, epoch, s) && AllBacked(c, epoch, s) && Certified(c, epoch, s, b)
    requires forall v :: v in c.Honest() ==> s[v].sd.lastVotedRound <= round
    ensures b.epoch == epoch && b.Round() <= round
  {
    if b != Genesis(epoch) {
      var v := HonestVoter(c, epoch, s, b);
      assert Backed(c, epoch, s, s[v]);
    }
  }

  /** The highest round an honest validator is in, and a certified block as high as any of them has seen. */
  lemma Frontier(c: Committee, epoch: nat, s: State) returns (round: nat, qc: Block)
    requires c.Valid() && Inv(c, epoch, s) && AllBacked(c, epoch, s)
    ensures Within(c, s, round, qc.Round()) && Certified(c, epoch, s, qc)
    ensures qc.epoch == epoch && qc.Round() <= round && Entered(c, epoch, s, round)
    ensures exists v :: v in c.Honest() && s[v].sd.lastVotedRound == round
  {
    c.HonestIsQuorum();
    var v :| v in c.Honest();
    var rounds := map v | v in c.Honest() :: s[v].sd.lastVotedRound;
    var seen := map v | v in c.Honest() :: s[v].sd.oneChainRound;
    assert v in rounds && v in seen;
    var top := Greatest(rounds);
    var best := Greatest(seen);
    round := rounds[top];
    assert Backed(c, epoch, s, s[top]) && Backed(c, epoch, s, s[best]);
    qc :| Certified(c, epoch, s, qc) && qc.Round() == s[best].sd.oneChainRound;
    forall v | v in c.Honest() ensures s[v].sd.lastVotedRound <= round && s[v].sd.oneChainRound <= qc.Round() {
      assert v in rounds && v in seen;
    }
    CertifiedWithin(c, epoch, s, qc, round);
  }

  /** From the frontier: vote on the highest certified block, after timing out of a round it does not enter. */
  lemma CommitFrom(c: Committee, epoch: nat, s: State, round: nat, seen: Block) returns (path: seq<State>, b: Block)
    requires c.Valid() && Inv(c, epoch, s) && AllBacked(c, epoch, s)
    requires Within(c, s, round, seen.Round()) && Certified(c, epoch, s, seen)
    requires seen.epoch == epoch && seen.Round() <= round && Entered(c, epoch, s, round)
    requires round + 2 <= U64_MAX
    ensures HonestPath(c, epoch, path) && path[0] == s
    ensures Committed(c, epoch, Last(path), b) && b.Round() == round + 1
  {
    if seen.Round() == round {
      path := CommitOn(c, epoch, s, seen, round, None);
      b := Block(epoch, round + 1, seen, 0);
    } else {
      var qc, tc := seen, None;
      if QcAt(c, epoch, s, round - 1) {
        qc :| Certified(c, epoch, s, qc) && qc.Round() == round - 1;
        CertifiedWithin(c, epoch, s, qc, round);
      } else {
        var t: TimeoutCert :| TcBacked(c, s, t) && t.round == round - 1;
        tc := Some(t);
      }
      path := TimeOutAndCommit(c, epoch, s, qc, round, tc);
      b := Block(epoch, round + 1, qc, 0);
    }
  }

  /** The highest round voted in has two successors. */
  ghost predicate RoundsLeft(c: Committee, s: State) {
    forall v :: v in c.Honest() && v in s ==> s[v].sd.lastVotedRound + 2 <= U64_MAX
  }

  /**
   From every state of every run, whatever Byzantine validators signed before, the
   honest validators alone can go on to commit a block that was not committed yet,
   as long as there are rounds left.
   */
  lemma HonestCanCommit(c: Committee, epoch: nat, run: seq<State>) returns (path: seq<State>, b: Block)
    requires c.Valid() && IsRun(c, epoch, run)
    requires RoundsLeft(c, run[|run| - 1])
    ensures HonestPath(c, epoch, path) && path[0] == run[|run| - 1]
    ensures Committed(c, epoch, Last(path), b) && !Committed(c, epoch, path[0], b)
  {
    var s := run[|run| - 1];
    RunInv(c, epoch, run, |run| - 1);
    RunBacked(c, epoch, run, |run| - 1);
    var round, qc := Frontier(c, epoch, s);
    path, b := CommitFrom(c, epoch, s, round, qc);
    if Committed(c, epoch, s, b) {
      CommittedIsCertified(c, epoch, s, b);
      CertifiedWithin(c, epoch, s, b, round);
    }
  }
}
