/**
 Voting power of sets of validators.  A quorum holds two thirds of the total
 power plus one; fewer than a third of the power is Byzantine, so two quorums
 always share an honest validator.
 */
module Quorum {
  import opened MapSum

  datatype Committee = Committee(power: map<nat, nat>, byzantine: set<nat>) {
    function Validators(): set<nat> {
      power.Keys
    }

    ghost function Honest(): set<nat> {
      Validators() - byzantine
    }

    ghost predicate Valid() {
      && byzantine <= Validators()
      && 3 * Sum(power, byzantine) < Sum(power, Validators())
    }

    ghost function QuorumPower(): nat {
      Sum(power, Validators()) * 2 / 3 + 1
    }

    ghost predicate IsQuorum(s: set<nat>) {
      s <= Validators() && Sum(power, s) >= QuorumPower()
    }

    /** The honest validators are a quorum on their own. */
    lemma HonestIsQuorum()
      requires Valid()
      ensures IsQuorum(Honest()) && Honest() != {}
    {
      SumDisjoint(power, Honest(), byzantine);
      assert Honest() + byzantine == Validators();
    }

    /** Any two quorums share a validator that is not Byzantine. */
    lemma QuorumsShareHonest(a: set<nat>, b: set<nat>) returns (v: nat)
      requires Valid() && IsQuorum(a) && IsQuorum(b)
      ensures v in a && v in b && v in Honest()
    {
      SumSplit(power, a, b);
      SumMonotone(power, a + b, Validators());
      if a * b <= byzantine {
        SumMonotone(power, a * b, byzantine);
        assert false;
      }
      v :| v in a * b && v !in byzantine;
    }
  }
}
