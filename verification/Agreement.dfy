/**
 AptosBFT in one epoch as a state machine: honest validators answer arbitrary
 requests by the two-chain rules, Byzantine validators sign anything they like,
 and a certificate is any quorum of signatures produced so far.  Committed
 blocks never conflict, over every run.
 */
module Agreement {
  import opened Common
  import opened TwoChainRules
  import opened Quorum

  datatype Timeout = Timeout(round: nat, hqcRound: nat)

  /** One validator: its persisted data and everything it has ever signed. */
  datatype Node = Node(sd: SafetyData, votes: set<Block>, timeouts: set<Timeout>, orders: set<Block>)

  type State = map<nat, Node>

  datatype Step =
    | HonestVote(block: Block, tc: Option<TimeoutCert>)
    | HonestTimeout(round: nat, hqc: Block, tc: Option<TimeoutCert>)
    | HonestOrderVote(block: Block)
    | ByzantineSigns(vote: Block, timeout: Timeout, order: Block)

  // ---- Certificates ----

  /** A quorum of votes on the block exists; the epoch's genesis is agreed on implicitly. */
  ghost predicate Certified(c: Committee, epoch: nat, s: State, b: Block) {
    b == Genesis(epoch) || exists q: set<nat> :: VotedBy(c, s, b, q)
  }

  ghost predicate VotedBy(c: Committee, s: State, b: Block, q: set<nat>) {
    c.IsQuorum(q) && forall v :: v in q ==> v in s && b in s[v].votes
  }

  /** A quorum of order votes on the block exists. */
  ghost predicate Ordered(c: Committee, s: State, b: Block) {
    exists q: set<nat> :: OrderedBy(c, s, b, q)
  }

  ghost predicate OrderedBy(c: Committee, s: State, b: Block, q: set<nat>) {
    c.IsQuorum(q) && forall v :: v in q ==> v in s && b in s[v].orders
  }

  /** The certificate is backed by one signed timeout per signer, and names their highest QC round. */
  ghost predicate TcBacked(c: Committee, s: State, tc: TimeoutCert) {
    exists hqc: map<nat, nat> :: TcSignedBy(c, s, tc, hqc)
  }

  ghost predicate TcSignedBy(c: Committee, s: State, tc: TimeoutCert, hqc: map<nat, nat>) {
    && c.IsQuorum(hqc.Keys)
    && tc.hqcRound < tc.round
    && (forall v :: v in hqc ==> v in s && Timeout(tc.round, hqc[v]) in s[v].timeouts && hqc[v] <= tc.hqcRound)
    && (exists v :: v in hqc && hqc[v] == tc.hqcRound)
  }

  // ---- Steps ----

  ghost predicate Init(c: Committee, epoch: nat, s: State) {
    && s.Keys == c.Validators()
    && forall v :: v in s ==> s[v] == Node(FreshSafetyData(epoch), {}, {}, {})
  }

  /** What verify_proposal and verify_tc demand of a proposal in this epoch. */
  ghost predicate ProposalVerifies(c: Committee, epoch: nat, s: State, b: Block, tc: Option<TimeoutCert>) {
    && b.Block?
    && b.epoch == epoch && b.parent.epoch == epoch
    && b.parent.Round() < b.round
    && Certified(c, epoch, s, b.parent)
    && (tc.Some? ==> TcBacked(c, s, tc.value))
  }

  /** Whether validator v may take the step now, given the certificates that exist. */
  ghost predicate Enabled(c: Committee, epoch: nat, s: State, v: nat, step: Step) {
    match step
    case HonestVote(b, tc) => v in c.Honest() && ProposalVerifies(c, epoch, s, b, tc)
    case HonestTimeout(round, hqc, tc) =>
      && v in c.Honest()
      && hqc.Round() < round
      && Certified(c, epoch, s, hqc)
      && (tc.Some? ==> TcBacked(c, s, tc.value))
    case HonestOrderVote(b) => v in c.Honest() && Certified(c, epoch, s, b)
    case ByzantineSigns(_, _, _) => v in c.byzantine
  }

  /** The effect of a step on the validator that takes it; a refused request changes nothing. */
  function Apply(n: Node, v: nat, step: Step): Node {
    match step
    case HonestVote(b, tc) =>
      var d := DecideVote(n.sd, v, b, tc);
      if d.Success? then n.(sd := d.value.0, votes := n.votes + {d.value.1.block}) else n
    case HonestTimeout(round, hqc, tc) =>
      var d := DecideTimeout(n.sd, round, hqc.Round(), tc);
      if d.Success? then n.(sd := d.value, timeouts := n.timeouts + {Timeout(round, hqc.Round())}) else n
    case HonestOrderVote(b) =>
      var d := DecideOrderVote(n.sd, b);
      if d.Success? then n.(sd := d.value, orders := n.orders + {b}) else n
    case ByzantineSigns(b, m, o) =>
      n.(votes := n.votes + {b}, timeouts := n.timeouts + {m}, orders := n.orders + {o})
  }

  ghost predicate Next(c: Committee, epoch: nat, s: State, v: nat, step: Step, s': State) {
    v in s && Enabled(c, epoch, s, v, step) && s' == s[v := Apply(s[v], v, step)]
  }

  ghost predicate Reaches(c: Committee, epoch: nat, s: State, s': State) {
    exists v, step :: Next(c, epoch, s, v, step, s')
  }

  ghost predicate IsRun(c: Committee, epoch: nat, run: seq<State>) {
    && |run| > 0
    && Init(c, epoch, run[0])
    && forall i :: 0 <= i < |run| - 1 ==> Reaches(c, epoch, run[i], run[i + 1])
  }

  // ---- Commitment ----

  /** Committed by a certified child in the next round, or by a quorum of order votes. */
  ghost predicate Committed(c: Committee, epoch: nat, s: State, b: Block) {
    || (exists child: Block :: CommitsParent(c, epoch, s, child, b))
    || Ordered(c, s, b)
  }

  ghost predicate CommitsParent(c: Committee, epoch: nat, s: State, child: Block, b: Block) {
    && child.Block?
    && Certified(c, epoch, s, child)
    && CommitInfo(child) == Success(Some(b))
  }

  ghost predicate Extends(b: Block, ancestor: Block) {
    b == ancestor || (b.Block? && Extends(b.parent, ancestor))
  }

  // ---- What an honest validator's signatures satisfy ----

  ghost predicate VoteBounded(sd: SafetyData, b: Block) {
    && b.Block?
    && b.parent.Round() < b.round <= sd.lastVotedRound
    && b.parent.Round() <= sd.oneChainRound
  }

  ghost predicate NodeInv(n: Node) {
    && (forall b :: b in n.votes ==> VoteBounded(n.sd, b))
    && (n.sd.lastVote.Some? ==> n.sd.lastVote.value.block in n.votes)
    && (forall b, b' :: b in n.votes && b' in n.votes && b.Round() == b'.Round() ==> b == b')
    && (forall m :: m in n.timeouts ==> m.round <= n.sd.lastVotedRound && m.round <= n.sd.highestTimeoutRound)
    && (forall b :: b in n.orders ==> 0 < b.Round() <= n.sd.oneChainRound)
    // A timeout signed after a vote or an order vote carries a QC at least as high as the one seen then.
    && (forall m, b :: m in n.timeouts && b in n.votes && m.round >= b.Round() ==> m.hqcRound >= b.Parent().Round())
    && (forall m, b :: m in n.timeouts && b in n.orders && m.round >= b.Round() ==> m.hqcRound >= b.Round())
  }

  /** The block follows its certified parent directly, or by a timeout certificate that allows the gap. */
  ghost predicate VoteJustified(c: Committee, epoch: nat, s: State, b: Block) {
    && b.Block?
    && Certified(c, epoch, s, b.parent)
    && (b.round == b.parent.Round() + 1 || exists tc :: Justifies(c, s, tc, b))
  }

  ghost predicate Justifies(c: Committee, s: State, tc: TimeoutCert, b: Block) {
    TcBacked(c, s, tc) && b.Round() == tc.round + 1 && tc.hqcRound <= b.Parent().Round()
  }

  ghost predicate SignaturesJustified(c: Committee, epoch: nat, s: State, v: nat)
    requires v in s
  {
    && (forall b :: b in s[v].votes ==> VoteJustified(c, epoch, s, b))
    && (forall b :: b in s[v].orders ==> Certified(c, epoch, s, b))
  }

  ghost predicate Inv(c: Committee, epoch: nat, s: State) {
    && s.Keys == c.Validators()
    && forall v :: v in c.Honest() ==> NodeInv(s[v]) && SignaturesJustified(c, epoch, s, v)
  }

  // ---- Certificates never go away ----

  ghost predicate NodeGrows(n: Node, n': Node) {
    n.votes <= n'.votes && n.timeouts <= n'.timeouts && n.orders <= n'.orders
  }

  ghost predicate Grows(s: State, s': State) {
    s'.Keys == s.Keys && forall v :: v in s ==> NodeGrows(s[v], s'[v])
  }

  lemma CertifiedGrows(c: Committee, epoch: nat, s: State, s': State, b: Block)
    requires Grows(s, s') && Certified(c, epoch, s, b)
    ensures Certified(c, epoch, s', b)
  {
    if b != Genesis(epoch) {
      var q :| VotedBy(c, s, b, q);
      assert VotedBy(c, s', b, q);
    }
  }

  lemma TcBackedGrows(c: Committee, s: State, s': State, tc: TimeoutCert)
    requires Grows(s, s') && TcBacked(c, s, tc)
    ensures TcBacked(c, s', tc)
  {
    var hqc :| TcSignedBy(c, s, tc, hqc);
    assert TcSignedBy(c, s', tc, hqc);
  }

  lemma CommittedGrows(c: Committee, epoch: nat, s: State, s': State, b: Block)
    requires Grows(s, s') && Committed(c, epoch, s, b)
    ensures Committed(c, epoch, s', b)
  {
    if Ordered(c, s, b) {
      var q :| OrderedBy(c, s, b, q);
      assert OrderedBy(c, s', b, q);
    } else {
      var child :| CommitsParent(c, epoch, s, child, b);
      CertifiedGrows(c, epoch, s, s', child);
      assert CommitsParent(c, epoch, s', child, b);
    }
  }

  lemma VoteJustifiedGrows(c: Committee, epoch: nat, s: State, s': State, b: Block)
    requires Grows(s, s') && VoteJustified(c, epoch, s, b)
    ensures VoteJustified(c, epoch, s', b)
  {
    CertifiedGrows(c, epoch, s, s', b.parent);
    if b.round != b.parent.Round() + 1 {
      var tc :| Justifies(c, s, tc, b);
      TcBackedGrows(c, s, s', tc);
      assert Justifies(c, s', tc, b);
    }
  }

  lemma NextGrows(c: Committee, epoch: nat, s: State, v: nat, step: Step, s': State)
    requires Next(c, epoch, s, v, step, s')
    ensures Grows(s, s')
  {
    assert NodeGrows(s[v], s'[v]);
  }

  // ---- Every step keeps the invariant ----

  /** A vote in a round past every earlier one, with its parent's certificate noted. */
  lemma VoteAdded(n: Node, n': Node, b: Block)
    requires NodeInv(n) && VoteBounded(n'.sd, b) && n.sd.lastVotedRound < b.round
    requires n'.votes == n.votes + {b} && n'.timeouts == n.timeouts && n'.orders == n.orders
    requires n.sd.lastVotedRound <= n'.sd.lastVotedRound && n.sd.oneChainRound <= n'.sd.oneChainRound
    requires n'.sd.highestTimeoutRound == n.sd.highestTimeoutRound
    requires n'.sd.lastVote.Some? && n'.sd.lastVote.value.block == b
    ensures NodeInv(n')
  {
  }

  lemma VoteKeepsNodeInv(n: Node, v: nat, b: Block, tc: Option<TimeoutCert>)
    requires NodeInv(n) && b.Block? && b.parent.Round() < b.round
    ensures NodeInv(Apply(n, v, HonestVote(b, tc)))
  {
    var n' := Apply(n, v, HonestVote(b, tc));
    if n' != n {
      VoteAdded(n, n', b);
    }
  }

  /** A timeout in no earlier round than the last vote, with a certificate as high as any seen. */
  lemma TimeoutAdded(n: Node, n': Node, m: Timeout)
    requires NodeInv(n) && m.hqcRound >= n.sd.oneChainRound
    requires n'.votes == n.votes && n'.timeouts == n.timeouts + {m} && n'.orders == n.orders
    requires n.sd.lastVotedRound <= n'.sd.lastVotedRound && n'.sd.oneChainRound == n.sd.oneChainRound
    requires n'.sd.lastVote == n.sd.lastVote
    requires m.round <= n'.sd.lastVotedRound && Max(n.sd.highestTimeoutRound, m.round) <= n'.sd.highestTimeoutRound
    ensures NodeInv(n')
  {
    forall b | b in n.votes ensures VoteBounded(n'.sd, b) && m.hqcRound >= b.Parent().Round() {
      assert VoteBounded(n.sd, b);
    }
    forall b | b in n.orders ensures m.hqcRound >= b.Round() {
      assert b.Round() <= n.sd.oneChainRound;
    }
  }

  lemma TimeoutKeepsNodeInv(n: Node, v: nat, round: nat, hqc: Block, tc: Option<TimeoutCert>)
    requires NodeInv(n)
    ensures NodeInv(Apply(n, v, HonestTimeout(round, hqc, tc)))
  {
    var n' := Apply(n, v, HonestTimeout(round, hqc, tc));
    if n' != n {
      TimeoutAdded(n, n', Timeout(round, hqc.Round()));
    }
  }

  lemma OrderVoteKeepsNodeInv(n: Node, v: nat, b: Block)
    requires NodeInv(n)
    ensures NodeInv(Apply(n, v, HonestOrderVote(b)))
  {
    var n' := Apply(n, v, HonestOrderVote(b));
    if n' != n {
      assert n'.votes == n.votes && n'.timeouts == n.timeouts;
      assert b.Round() > n.sd.highestTimeoutRound;
    }
  }

  /** The three rules keep one honest validator's signatures consistent, whatever it is asked. */
  lemma RulesKeepNodeInv(n: Node, v: nat, step: Step)
    requires NodeInv(n)
    requires step.HonestVote? ==> step.block.Block? && step.block.parent.Round() < step.block.round
    requires !step.ByzantineSigns?
    ensures NodeInv(Apply(n, v, step))
  {
    match step {
      case HonestVote(b, tc) => VoteKeepsNodeInv(n, v, b, tc);
      case HonestTimeout(round, hqc, tc) => TimeoutKeepsNodeInv(n, v, round, hqc, tc);
      case HonestOrderVote(b) => OrderVoteKeepsNodeInv(n, v, b);
    }
  }

  /** A newly signed vote is justified by the certificates that were verified. */
  lemma NewVoteJustified(c: Committee, epoch: nat, s: State, n: Node, v: nat, step: Step, b: Block)
    requires NodeInv(n) && step.HonestVote? && Enabled(c, epoch, s, v, step)
    requires b in Apply(n, v, step).votes && b !in n.votes
    ensures VoteJustified(c, epoch, s, b)
  {
    assert b == step.block;
    if b.round != b.parent.Round() + 1 && step.tc.Some? {
      assert Justifies(c, s, step.tc.value, b);
    }
  }

  lemma NextJustified(c: Committee, epoch: nat, s: State, v: nat, step: Step, s': State, w: nat)
    requires Inv(c, epoch, s) && Next(c, epoch, s, v, step, s') && w in c.Honest()
    ensures SignaturesJustified(c, epoch, s', w)
  {
    NextGrows(c, epoch, s, v, step, s');
    forall b | b in s'[w].votes ensures VoteJustified(c, epoch, s', b) {
      if b !in s[w].votes {
        NewVoteJustified(c, epoch, s, s[v], v, step, b);
      }
      VoteJustifiedGrows(c, epoch, s, s', b);
    }
    forall b | b in s'[w].orders ensures Certified(c, epoch, s', b) {
      CertifiedGrows(c, epoch, s, s', b);
    }
  }

  /** Every step, honest or Byzantine, keeps the invariant. */
  lemma NextInv(c: Committee, epoch: nat, s: State, v: nat, step: Step, s': State)
    requires Inv(c, epoch, s) && Next(c, epoch, s, v, step, s')
    ensures Inv(c, epoch, s')
  {
    forall w | w in c.Honest() ensures NodeInv(s'[w]) && SignaturesJustified(c, epoch, s', w) {
      NextJustified(c, epoch, s, v, step, s', w);
      if w == v {
        RulesKeepNodeInv(s[v], v, step);
      }
    }
  }

  // ---- Agreement ----

  /** An honest voter stands behind every certified block other than genesis. */
  lemma HonestVoter(c: Committee, epoch: nat, s: State, b: Block) returns (v: nat)
    requires c.Valid() && Inv(c, epoch, s) && Certified(c, epoch, s, b) && b != Genesis(epoch)
    ensures v in c.Honest() && b in s[v].votes
    ensures VoteBounded(s[v].sd, b) && VoteJustified(c, epoch, s, b)
  {
    var q :| VotedBy(c, s, b, q);
    v := c.QuorumsShareHonest(q, q);
  }

  /** Two certified blocks of one round are the same block. */
  lemma OneCertifiedPerRound(c: Committee, epoch: nat, s: State, a: Block, b: Block)
    requires c.Valid() && Inv(c, epoch, s)
    requires Certified(c, epoch, s, a) && Certified(c, epoch, s, b)
    requires a.Round() == b.Round()
    ensures a == b
  {
    if a == Genesis(epoch) || b == Genesis(epoch) {
      if a != b {
        var v := HonestVoter(c, epoch, s, if a == Genesis(epoch) then b else a);
        assert false;
      }
    } else {
      var p :| VotedBy(c, s, a, p);
      var q :| VotedBy(c, s, b, q);
      var v := c.QuorumsShareHonest(p, q);
      assert NodeInv(s[v]);
    }
  }

  lemma CommittedIsCertified(c: Committee, epoch: nat, s: State, b: Block)
    requires c.Valid() && Inv(c, epoch, s) && Committed(c, epoch, s, b)
    ensures Certified(c, epoch, s, b) && b.Round() > 0
  {
    if Ordered(c, s, b) {
      var q :| OrderedBy(c, s, b, q);
      var v := c.QuorumsShareHonest(q, q);
    } else {
      var child :| CommitsParent(c, epoch, s, child, b);
      var v := HonestVoter(c, epoch, s, child);
    }
  }

  lemma TimeoutsRememberOrder(c: Committee, epoch: nat, s: State, b: Block, q: set<nat>, tc: TimeoutCert)
    requires c.Valid() && Inv(c, epoch, s) && OrderedBy(c, s, b, q) && TcBacked(c, s, tc)
    requires tc.round >= b.Round()
    ensures tc.hqcRound >= b.Round()
  {
    var hqc :| TcSignedBy(c, s, tc, hqc);
    var v := c.QuorumsShareHonest(q, hqc.Keys);
    assert NodeInv(s[v]);
    assert Timeout(tc.round, hqc[v]) in s[v].timeouts;
  }

  lemma TimeoutsRememberVotes(c: Committee, epoch: nat, s: State, b: Block, q: set<nat>, tc: TimeoutCert)
    requires c.Valid() && Inv(c, epoch, s) && VotedBy(c, s, b, q) && TcBacked(c, s, tc)
    requires tc.round >= b.Round()
    ensures tc.hqcRound >= b.Parent().Round()
  {
    var hqc :| TcSignedBy(c, s, tc, hqc);
    var v := c.QuorumsShareHonest(q, hqc.Keys);
    assert NodeInv(s[v]);
    assert Timeout(tc.round, hqc[v]) in s[v].timeouts;
  }

  lemma TimeoutsRememberChild(c: Committee, epoch: nat, s: State, b: Block, child: Block, tc: TimeoutCert, x: Block)
    requires c.Valid() && Inv(c, epoch, s) && CommitsParent(c, epoch, s, child, b) && Certified(c, epoch, s, x)
    requires TcBacked(c, s, tc) && x.Round() == tc.round + 1 && tc.hqcRound <= x.Parent().Round()
    requires tc.round >= b.Round()
    ensures x.Parent().Round() >= b.Round()
  {
    assert child.parent == b && child.round == b.Round() + 1;
    if tc.round == b.Round() {
      OneCertifiedPerRound(c, epoch, s, child, x);
    } else {
      var q :| VotedBy(c, s, child, q);
      TimeoutsRememberVotes(c, epoch, s, child, q, tc);
    }
  }

  /** No certificate of timeouts at or above a committed round hides the committed block's QC. */
  lemma TimeoutsRememberCommit(c: Committee, epoch: nat, s: State, b: Block, tc: TimeoutCert, x: Block)
    requires c.Valid() && Inv(c, epoch, s) && Committed(c, epoch, s, b) && Certified(c, epoch, s, x)
    requires Justifies(c, s, tc, x) && tc.round >= b.Round()
    ensures x.Parent().Round() >= b.Round()
  {
    if Ordered(c, s, b) {
      var q :| OrderedBy(c, s, b, q);
      TimeoutsRememberOrder(c, epoch, s, b, q, tc);
    } else {
      var child :| CommitsParent(c, epoch, s, child, b);
      TimeoutsRememberChild(c, epoch, s, b, child, tc, x);
    }
  }

  /** Every certified block at or above a committed round extends the committed block. */
  lemma {:induction false} CertifiedExtendsCommitted(c: Committee, epoch: nat, s: State, b: Block, x: Block)
    requires c.Valid() && Inv(c, epoch, s)
    requires Committed(c, epoch, s, b) && Certified(c, epoch, s, x) && x.Round() >= b.Round()
    ensures Extends(x, b)
    decreases x
  {
    CommittedIsCertified(c, epoch, s, b);
    if x.Round() == b.Round() {
      OneCertifiedPerRound(c, epoch, s, x, b);
    } else {
      var v := HonestVoter(c, epoch, s, x);
      if x.parent.Round() < b.Round() {
        var tc :| Justifies(c, s, tc, x);
        TimeoutsRememberCommit(c, epoch, s, b, tc, x);
      }
      CertifiedExtendsCommitted(c, epoch, s, b, x.parent);
    }
  }

  /** Two committed blocks lie on one chain. */
  lemma CommittedBlocksAgree(c: Committee, epoch: nat, s: State, a: Block, b: Block)
    requires c.Valid() && Inv(c, epoch, s)
    requires Committed(c, epoch, s, a) && Committed(c, epoch, s, b)
    ensures Extends(a, b) || Extends(b, a)
  {
    CommittedIsCertified(c, epoch, s, a);
    CommittedIsCertified(c, epoch, s, b);
    if a.Round() >= b.Round() {
      CertifiedExtendsCommitted(c, epoch, s, b, a);
    } else {
      CertifiedExtendsCommitted(c, epoch, s, a, b);
    }
  }

  // ---- Whole runs ----

  lemma {:induction false} RunInv(c: Committee, epoch: nat, run: seq<State>, i: nat)
    requires IsRun(c, epoch, run) && i < |run|
    ensures Inv(c, epoch, run[i])
  {
    if i > 0 {
      RunInv(c, epoch, run, i - 1);
      assert Reaches(c, epoch, run[i - 1], run[i - 1 + 1]);
      var v, step :| Next(c, epoch, run[i - 1], v, step, run[i]);
      NextInv(c, epoch, run[i - 1], v, step, run[i]);
    }
  }

  lemma {:induction false} RunGrows(c: Committee, epoch: nat, run: seq<State>, i: nat, j: nat)
    requires IsRun(c, epoch, run) && i <= j < |run|
    ensures Grows(run[i], run[j])
    decreases j
  {
    if i < j {
      RunGrows(c, epoch, run, i, j - 1);
      assert Reaches(c, epoch, run[j - 1], run[j - 1 + 1]);
      var v, step :| Next(c, epoch, run[j - 1], v, step, run[j]);
      NextGrows(c, epoch, run[j - 1], v, step, run[j]);
    }
  }

  /**
   Agreement.  Over every run with fewer than a third of the voting power
   Byzantine, blocks committed at any two moments lie on one chain.
   */
  lemma AgreementOverRuns(c: Committee, epoch: nat, run: seq<State>, i: nat, j: nat, a: Block, b: Block)
    requires c.Valid() && IsRun(c, epoch, run) && i < |run| && j < |run|
    requires Committed(c, epoch, run[i], a) && Committed(c, epoch, run[j], b)
    ensures Extends(a, b) || Extends(b, a)
  {
    var k := if i < j then j else i;
    RunGrows(c, epoch, run, i, k);
    RunGrows(c, epoch, run, j, k);
    CommittedGrows(c, epoch, run[i], run[k], a);
    CommittedGrows(c, epoch, run[j], run[k], b);
    RunInv(c, epoch, run, k);
    CommittedBlocksAgree(c, epoch, run[k], a, b);
  }

  /** The protocol does commit: a lone validator that votes for two consecutive blocks commits the first. */
  lemma CommitHappens(epoch: nat) returns (run: seq<State>)
    ensures var c := Committee(map[0 := 1], {});
      var b := Block(epoch, 1, Genesis(epoch), 0);
      c.Valid() && IsRun(c, epoch, run) && Committed(c, epoch, run[|run| - 1], b)
  {
    var c := Committee(map[0 := 1], {});
    var b1 := Block(epoch, 1, Genesis(epoch), 0);
    var b2 := Block(epoch, 2, b1, 0);
    var n0 := Node(FreshSafetyData(epoch), {}, {}, {});
    var n1 := Apply(n0, 0, HonestVote(b1, None));
    var n2 := Apply(n1, 0, HonestVote(b2, None));
    var s0, s1, s2 := map[0 := n0], map[0 := n1], map[0 := n2];
    assert c.IsQuorum({0});
    assert VotedBy(c, s1, b1, {0}) && VotedBy(c, s2, b2, {0});
    assert Next(c, epoch, s0, 0, HonestVote(b1, None), s1);
    assert Next(c, epoch, s1, 0, HonestVote(b2, None), s2);
    assert CommitsParent(c, epoch, s2, b2, b1);
    run := [s0, s1, s2];
  }

  /** Order votes commit as well: a block is committed with no block above it. */
  lemma CommitByOrderVote(epoch: nat) returns (run: seq<State>)
    ensures var c := Committee(map[0 := 1], {});
      var b := Block(epoch, 1, Genesis(epoch), 0);
      c.Valid() && IsRun(c, epoch, run) && Committed(c, epoch, run[|run| - 1], b) && run[|run| - 1][0].votes == {b}
  {
    var c := Committee(map[0 := 1], {});
    var b := Block(epoch, 1, Genesis(epoch), 0);
    var n0 := Node(FreshSafetyData(epoch), {}, {}, {});
    var n1 := Apply(n0, 0, HonestVote(b, None));
    var n2 := Apply(n1, 0, HonestOrderVote(b));
    var s0, s1, s2 := map[0 := n0], map[0 := n1], map[0 := n2];
    assert c.IsQuorum({0});
    assert VotedBy(c, s1, b, {0}) && OrderedBy(c, s2, b, {0});
    assert Next(c, epoch, s0, 0, HonestVote(b, None), s1);
    assert Next(c, epoch, s1, 0, HonestOrderVote(b), s2);
    run := [s0, s1, s2];
  }
}
