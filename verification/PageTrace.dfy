/**
 Paging through a list by cursors that may resume early.  Page i shows the stretch
 of `limit` items from q[i]; the item after it has an entry in `resume`, which says
 where its cursor really leads: there, or to an earlier item.
 */
module PageTrace {
  import opened Common
  import Orbit

  ghost predicate ShowsAt<T>(items: seq<T>, limit: nat, pages: seq<seq<T>>, q: seq<nat>, i: nat)
    requires i < |pages| == |q|
  {
    q[i] <= |items| && pages[i] == items[q[i]..Min(q[i] + limit, |items|)]
  }

  ghost predicate LeadsAt(resume: seq<nat>, limit: nat, q: seq<nat>, i: nat)
    requires i + 1 < |q|
  {
    q[i] + limit < |resume| && q[i + 1] == resume[q[i] + limit] <= q[i] + limit
  }

  /** The pages of a whole listing, and where each starts. */
  ghost predicate IsTrace<T>(items: seq<T>, resume: seq<nat>, limit: nat, pages: seq<seq<T>>, q: seq<nat>) {
    && |resume| == |items| && |q| == |pages| > 0 && q[0] == 0
    && (forall i: nat {:trigger ShowsAt(items, limit, pages, q, i)} :: i < |q| ==> ShowsAt(items, limit, pages, q, i))
    && (forall i: nat {:trigger LeadsAt(resume, limit, q, i)} :: i + 1 < |q| ==> LeadsAt(resume, limit, q, i))
    && q[|q| - 1] + limit >= |items|
  }

  lemma StartsWithin<T>(items: seq<T>, resume: seq<nat>, limit: nat, pages: seq<seq<T>>, q: seq<nat>)
    requires IsTrace(items, resume, limit, pages, q)
    ensures forall i :: 0 <= i < |q| ==> q[i] <= |items|
  {
    forall i | 0 <= i < |q| ensures q[i] <= |items| {
      assert ShowsAt(items, limit, pages, q, i);
    }
  }

  // ---- Nothing is skipped ----

  lemma {:induction false} PageWith<T>(
    items: seq<T>, resume: seq<nat>, limit: nat, pages: seq<seq<T>>, q: seq<nat>, x: nat, j: nat) returns (i: nat)
    requires IsTrace(items, resume, limit, pages, q) && j < |q| && x < |items| && x < q[j] + limit
    ensures i <= j && q[i] <= x < q[i] + limit
    decreases j
  {
    if q[j] <= x {
      i := j;
    } else {
      assert LeadsAt(resume, limit, q, j - 1);
      i := PageWith(items, resume, limit, pages, q, x, j - 1);
    }
  }

  /** Every item is on some page. */
  lemma Covers<T>(items: seq<T>, resume: seq<nat>, limit: nat, pages: seq<seq<T>>, q: seq<nat>, x: nat) returns (i: nat)
    requires IsTrace(items, resume, limit, pages, q) && x < |items|
    ensures i < |pages| && items[x] in pages[i]
  {
    i := PageWith(items, resume, limit, pages, q, x, |q| - 1);
    assert ShowsAt(items, limit, pages, q, i);
    assert pages[i][x - q[i]] == items[x];
  }

  // ---- Exactly once ----

  function Concat<T>(pages: seq<seq<T>>): seq<T> {
    if pages == [] then [] else Concat(pages[..|pages| - 1]) + pages[|pages| - 1]
  }

  lemma ConcatNext<T>(pages: seq<seq<T>>, i: nat)
    requires i < |pages|
    ensures Concat(pages[..i + 1]) == Concat(pages[..i]) + pages[i]
  {
    assert pages[..i + 1][..i] == pages[..i];
  }

  lemma {:induction false} ConcatPrefix<T>(pages: seq<seq<T>>, i: nat)
    requires i <= |pages|
    ensures Concat(pages[..i]) <= Concat(pages)
    decreases |pages| - i
  {
    if i == |pages| {
      assert pages[..i] == pages;
    } else {
      ConcatPrefix(pages, i + 1);
      ConcatNext(pages, i);
    }
  }

  ghost predicate Distinct<T>(items: seq<T>) {
    forall i, j :: 0 <= i < j < |items| ==> items[i] != items[j]
  }

  /** A positive multiple of the page size. */
  predicate IsBoundary(limit: nat, b: nat) {
    limit > 0 && (b == limit || (b > limit && IsBoundary(limit, b - limit)))
  }

  /** Cursors given out at the multiples of the page size lead where they should. */
  ghost predicate ResumesExactly(resume: seq<nat>, limit: nat) {
    forall b: nat {:trigger IsBoundary(limit, b)} :: b < |resume| && IsBoundary(limit, b) ==> resume[b] == b
  }

  /** Page i is a whole stretch that the next one continues. */
  lemma Stretch<T>(items: seq<T>, resume: seq<nat>, limit: nat, pages: seq<seq<T>>, q: seq<nat>, i: nat)
    requires IsTrace(items, resume, limit, pages, q) && i < |q|
    ensures q[i] <= |items|
    ensures items[..q[i]] + pages[i] == items[..Min(q[i] + limit, |items|)]
    ensures i + 1 < |q| ==> q[i] + limit < |items| && q[i + 1] <= q[i] + limit && q[i + 1] == resume[q[i] + limit]
    ensures i + 1 == |q| ==> q[i] + limit >= |items|
  {
    assert ShowsAt(items, limit, pages, q, i);
    if i + 1 < |q| {
      assert LeadsAt(resume, limit, q, i);
    }
  }

  lemma {:induction false} ExactlyOnce<T>(
    items: seq<T>, resume: seq<nat>, limit: nat, pages: seq<seq<T>>, q: seq<nat>, i: nat)
    requires IsTrace(items, resume, limit, pages, q) && ResumesExactly(resume, limit) && i < |q|
    requires limit > 0
    ensures IsBoundary(limit, q[i] + limit) && q[i] <= |items| && Concat(pages[..i]) == items[..q[i]]
  {
    if i > 0 {
      ExactlyOnce(items, resume, limit, pages, q, i - 1);
      Stretch(items, resume, limit, pages, q, i - 1);
      ConcatNext(pages, i - 1);
    }
  }

  /** Pages that add up to the list continue each other. */
  lemma {:induction false} Consecutive<T>(
    items: seq<T>, resume: seq<nat>, limit: nat, pages: seq<seq<T>>, q: seq<nat>, i: nat)
    requires IsTrace(items, resume, limit, pages, q) && Distinct(items) && Concat(pages) == items
    requires limit > 0 && i < |q|
    ensures q[i] <= |items| && Concat(pages[..i]) == items[..q[i]]
    ensures i > 0 ==> q[i] == q[i - 1] + limit
  {
    if i > 0 {
      var e := q[i - 1] + limit;
      Consecutive(items, resume, limit, pages, q, i - 1);
      Stretch(items, resume, limit, pages, q, i - 1);
      ConcatNext(pages, i - 1);
      assert Concat(pages[..i]) == items[..e];
      assert ShowsAt(items, limit, pages, q, i);
      assert pages[i][0] == items[q[i]];
      NextItem(items, pages, i, e);
    }
  }

  lemma NextItem<T>(items: seq<T>, pages: seq<seq<T>>, i: nat, e: nat)
    requires i < |pages| && e < |items| && Concat(pages) == items && Concat(pages[..i]) == items[..e] && pages[i] != []
    ensures pages[i][0] == items[e]
  {
    ConcatNext(pages, i);
    ConcatPrefix(pages, i + 1);
    assert (items[..e] + pages[i])[e] == pages[i][0];
  }

  lemma {:induction false} BoundaryIsPage<T>(
    items: seq<T>, resume: seq<nat>, limit: nat, pages: seq<seq<T>>, q: seq<nat>, b: nat) returns (i: nat)
    requires IsTrace(items, resume, limit, pages, q) && Distinct(items) && Concat(pages) == items
    requires b < |items| && IsBoundary(limit, b)
    ensures i + 1 < |q| && q[i] + limit == b
  {
    if b == limit {
      i := 0;
    } else {
      i := BoundaryIsPage(items, resume, limit, pages, q, b - limit);
      i := i + 1;
      Consecutive(items, resume, limit, pages, q, i);
    }
  }

  /** The pages add up to the list, each item once and in order, if and only if the cursors are exact. */
  lemma ExactlyWhen<T>(items: seq<T>, resume: seq<nat>, limit: nat, pages: seq<seq<T>>, q: seq<nat>)
    requires IsTrace(items, resume, limit, pages, q) && Distinct(items) && limit > 0
    ensures Concat(pages) == items <==> ResumesExactly(resume, limit)
  {
    var n := |q| - 1;
    if ResumesExactly(resume, limit) {
      ExactlyOnce(items, resume, limit, pages, q, n);
      Stretch(items, resume, limit, pages, q, n);
      ConcatNext(pages, n);
      assert pages[..n + 1] == pages;
    }
    if Concat(pages) == items {
      forall b: nat | b < |resume| && IsBoundary(limit, b) ensures resume[b] == b {
        var i := BoundaryIsPage(items, resume, limit, pages, q, b);
        Consecutive(items, resume, limit, pages, q, i + 1);
        assert LeadsAt(resume, limit, q, i);
      }
    }
  }

  // ---- Ending ----

  /** From the boundary at each item, the next one: a page size past the position its cursor resumes at. */
  function NextBoundaries(resume: seq<nat>, limit: nat): seq<nat> {
    seq(|resume|, b requires 0 <= b < |resume| => resume[b] + limit)
  }

  /** The pages end where the table of boundaries leads. */
  lemma {:induction false} EndsOnOrbit<T>(
    items: seq<T>, resume: seq<nat>, limit: nat, pages: seq<seq<T>>, q: seq<nat>, i: nat)
    requires IsTrace(items, resume, limit, pages, q) && i < |q|
    ensures q[i] + limit == Orbit.At(NextBoundaries(resume, limit), limit, i)
  {
    if i > 0 {
      EndsOnOrbit(items, resume, limit, pages, q, i - 1);
      assert LeadsAt(resume, limit, q, i - 1);
    }
  }

  lemma TraceLeaves<T>(items: seq<T>, resume: seq<nat>, limit: nat, pages: seq<seq<T>>, q: seq<nat>)
    requires IsTrace(items, resume, limit, pages, q)
    ensures Orbit.Leaves(NextBoundaries(resume, limit), limit)
  {
    EndsOnOrbit(items, resume, limit, pages, q, |q| - 1);
    Orbit.LeavesSoon(NextBoundaries(resume, limit), limit, |q| - 1);
  }

  /** Exact cursors move on by the page size. */
  lemma {:induction false} ExactMovesOn(resume: seq<nat>, limit: nat, n: nat)
    requires limit > 0 && ResumesExactly(resume, limit)
    ensures var b := Orbit.At(NextBoundaries(resume, limit), limit, n);
      b >= |resume| || (b > n && IsBoundary(limit, b))
  {
    if n > 0 {
      ExactMovesOn(resume, limit, n - 1);
    }
  }

  lemma ExactLeaves(resume: seq<nat>, limit: nat)
    requires limit > 0 && ResumesExactly(resume, limit)
    ensures Orbit.Leaves(NextBoundaries(resume, limit), limit)
  {
    ExactMovesOn(resume, limit, |resume|);
  }

  /** The stretches that follow the boundaries. */
  lemma {:induction false} PathTo(resume: seq<nat>, limit: nat, n: nat) returns (q: seq<nat>)
    requires forall i: nat :: i < n ==> Orbit.At(NextBoundaries(resume, limit), limit, i) < |resume|
    requires forall p :: 0 <= p < |resume| ==> resume[p] <= p
    ensures |q| == n + 1 && q[0] == 0 && forall i: nat {:trigger LeadsAt(resume, limit, q, i)} :: i + 1 < |q| ==>
      LeadsAt(resume, limit, q, i)
    ensures q[n] + limit == Orbit.At(NextBoundaries(resume, limit), limit, n) && (n > 0 ==> q[n] <= |resume|)
  {
    if n == 0 {
      q := [0];
    } else {
      var before := PathTo(resume, limit, n - 1);
      var b := before[n - 1] + limit;
      q := before + [resume[b]];
      forall i: nat | i + 1 < |q| ensures LeadsAt(resume, limit, q, i) {
        if i + 1 < n {
          assert LeadsAt(resume, limit, before, i);
        }
      }
    }
  }

  lemma {:induction false} WithinList(resume: seq<nat>, limit: nat, q: seq<nat>, i: nat)
    requires i < |q| && q[0] == 0
    requires forall j: nat {:trigger LeadsAt(resume, limit, q, j)} :: j + 1 < |q| ==> LeadsAt(resume, limit, q, j)
    ensures q[i] <= |resume|
  {
    if i > 0 {
      assert LeadsAt(resume, limit, q, i - 1);
    }
  }

  /** When the boundaries leave the list, there is a whole listing. */
  lemma Build<T>(items: seq<T>, resume: seq<nat>, limit: nat) returns (pages: seq<seq<T>>, q: seq<nat>)
    requires |resume| == |items| && Orbit.Leaves(NextBoundaries(resume, limit), limit)
    requires forall p :: 0 <= p < |resume| ==> resume[p] <= p
    ensures IsTrace(items, resume, limit, pages, q)
  {
    var next := NextBoundaries(resume, limit);
    var n: nat :| n <= |next| && Orbit.At(next, limit, n) >= |next|;
    var m := Orbit.FirstOutside(next, limit, n);
    q := PathTo(resume, limit, m);
    forall i | 0 <= i < |q| ensures q[i] <= |items| {
      WithinList(resume, limit, q, i);
    }
    pages := seq(|q|, i requires 0 <= i < |q| => items[q[i]..Min(q[i] + limit, |items|)]);
    forall i: nat | i < |q| ensures ShowsAt(items, limit, pages, q, i) {
    }
  }
}
