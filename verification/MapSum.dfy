/** The sum of a map's values over a set of its keys, independent of the order they are visited in. */
module MapSum {

  ghost function Sum<K>(m: map<K, nat>, s: set<K>): nat
    requires s <= m.Keys
  {
    if s == {} then 0
    else
      var k :| k in s;
      m[k] + Sum(m, s - {k})
  }

  lemma {:induction false} SumRemove<K>(m: map<K, nat>, s: set<K>, k: K)
    requires s <= m.Keys && k in s
    ensures Sum(m, s) == m[k] + Sum(m, s - {k})
    decreases |s|
  {
    var j :| j in s && Sum(m, s) == m[j] + Sum(m, s - {j});
    if j != k {
      SumRemove(m, s - {j}, k);
      SumRemove(m, s - {k}, j);
      assert s - {j} - {k} == s - {k} - {j};
    }
  }

  lemma {:induction false} SumFrame<K>(m: map<K, nat>, m': map<K, nat>, s: set<K>)
    requires s <= m.Keys && s <= m'.Keys && forall k :: k in s ==> m[k] == m'[k]
    ensures Sum(m, s) == Sum(m', s)
    decreases |s|
  {
    if s != {} {
      var k :| k in s;
      SumRemove(m, s, k);
      SumRemove(m', s, k);
      SumFrame(m, m', s - {k});
    }
  }

  lemma {:induction false} SumDisjoint<K>(m: map<K, nat>, a: set<K>, b: set<K>)
    requires a <= m.Keys && b <= m.Keys && a !! b
    ensures Sum(m, a + b) == Sum(m, a) + Sum(m, b)
    decreases |a|
  {
    if a == {} {
      assert a + b == b;
    } else {
      var k :| k in a;
      SumRemove(m, a, k);
      SumRemove(m, a + b, k);
      assert (a + b) - {k} == (a - {k}) + b;
      SumDisjoint(m, a - {k}, b);
    }
  }

  /** Inclusion and exclusion. */
  lemma SumSplit<K>(m: map<K, nat>, a: set<K>, b: set<K>)
    requires a <= m.Keys && b <= m.Keys
    ensures Sum(m, a) + Sum(m, b) == Sum(m, a + b) + Sum(m, a * b)
  {
    SumDisjoint(m, a - b, a * b);
    SumDisjoint(m, a - b, b);
    assert (a - b) + (a * b) == a;
    assert (a - b) + b == a + b;
  }

  lemma SumMonotone<K>(m: map<K, nat>, a: set<K>, b: set<K>)
    requires a <= b <= m.Keys
    ensures Sum(m, a) <= Sum(m, b)
  {
    SumDisjoint(m, a, b - a);
    assert a + (b - a) == b;
  }

  /** Counting one more occurrence of a key adds one to the sum over all keys. */
  lemma SumIncrement<K>(m: map<K, nat>, k: K)
    ensures var m' := m[k := (if k in m then m[k] else 0) + 1];
      Sum(m', m'.Keys) == Sum(m, m.Keys) + 1
  {
    var m' := m[k := (if k in m then m[k] else 0) + 1];
    SumRemove(m', m'.Keys, k);
    var others := m.Keys - {k};
    assert m'.Keys - {k} == others;
    SumFrame(m, m', others);
    if k in m {
      SumRemove(m, m.Keys, k);
    } else {
      assert others == m.Keys;
    }
  }
}
