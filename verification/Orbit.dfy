/** Following a table of next positions from a first one until it leaves the table, if it ever does. */
module Orbit {

  function At(next: seq<nat>, first: nat, n: nat): nat {
    if n == 0 then first
    else
      var b := At(next, first, n - 1);
      if b < |next| then next[b] else b
  }

  ghost predicate Leaves(next: seq<nat>, first: nat) {
    exists n: nat :: n <= |next| && At(next, first, n) >= |next|
  }

  /** The first position outside the table, if any is. */
  lemma {:induction false} FirstOutside(next: seq<nat>, first: nat, n: nat) returns (m: nat)
    requires At(next, first, n) >= |next|
    ensures m <= n && At(next, first, m) >= |next|
    ensures forall i: nat :: i < m ==> At(next, first, i) < |next|
  {
    if i: nat :| i < n && At(next, first, i) >= |next| {
      m := FirstOutside(next, first, i);
    } else {
      m := n;
    }
  }

  /** A position met twice is met over and over. */
  lemma {:induction false} Repeats(next: seq<nat>, first: nat, i: nat, j: nat, k: nat)
    requires At(next, first, i) == At(next, first, j)
    ensures At(next, first, i + k) == At(next, first, j + k)
  {
    if k > 0 {
      Repeats(next, first, i, j, k - 1);
    }
  }

  ghost function Below(n: nat): (s: set<nat>)
    ensures |s| == n && forall i: nat :: i in s <==> i < n
  {
    if n == 0 then {} else Below(n - 1) + {n - 1}
  }

  ghost function Elements(s: seq<nat>): (r: set<nat>)
    requires forall i, j :: 0 <= i < j < |s| ==> s[i] != s[j]
    ensures |r| == |s| && forall x :: x in r <==> x in s
  {
    if s == [] then {}
    else
      assert s == s[..|s| - 1] + [s[|s| - 1]];
      Elements(s[..|s| - 1]) + {s[|s| - 1]}
  }

  lemma Pigeonhole(s: seq<nat>, n: nat)
    requires forall i, j :: 0 <= i < j < |s| ==> s[i] != s[j]
    requires forall i :: 0 <= i < |s| ==> s[i] < n
    ensures |s| <= n
  {
    var inside := Elements(s);
    assert inside <= Below(n);
    assert |Below(n)| == |inside| + |Below(n) - inside| by {
      assert Below(n) == inside + (Below(n) - inside);
    }
  }

  /** Positions inside that lead outside are all different, so there are no more of them than the table is long. */
  lemma FewInside(next: seq<nat>, first: nat, m: nat)
    requires At(next, first, m) >= |next| && forall i: nat :: i < m ==> At(next, first, i) < |next|
    ensures m <= |next|
  {
    forall i, j | 0 <= i < j < m ensures At(next, first, i) != At(next, first, j) {
      if At(next, first, i) == At(next, first, j) {
        Repeats(next, first, i, j, m - j);
      }
    }
    Pigeonhole(seq(m, i requires 0 <= i < m => At(next, first, i)), |next|);
  }

  /** Leaving at all means leaving within as many steps as the table is long. */
  lemma LeavesSoon(next: seq<nat>, first: nat, n: nat)
    requires At(next, first, n) >= |next|
    ensures Leaves(next, first)
  {
    var m := FirstOutside(next, first, n);
    FewInside(next, first, m);
  }
}
