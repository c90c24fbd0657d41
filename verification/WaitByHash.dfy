/**
 Admission of wait-by-hash requests.  Each request bumps a shared atomic counter
 and long-polls only if the count it saw was below the limit; otherwise it takes
 its bump back and answers at once.  Requests interleave step by step, and a long
 poll may be dropped (its connection closes) without reaching its decrement.
 */
module WaitByHash {
  import opened Common

  datatype Phase =
    | Counted(seen: nat)
    | Refused
    | ShortPoll
    | LongPoll
    | Done
    | Dropped
  {
    /** Between its increment and its decrement; a dropped request stays there. */
    predicate Counts() {
      Counted? || Refused? || LongPoll? || Dropped?
    }

    /** Long-polling, about to, or dropped while doing so. */
    predicate Admitted(max: nat) {
      LongPoll? || Dropped? || (Counted? && seen < max)
    }
  }

  datatype State = State(counter: int, requests: map<nat, Phase>) {
    function With(i: nat, p: Phase): State {
      this.(requests := requests[i := p])
    }

    ghost function Counting(): set<nat> {
      set i | i in requests && requests[i].Counts()
    }

    ghost function Admitted(max: nat): set<nat> {
      set i | i in requests && requests[i].Admitted(max)
    }

    ghost function Leaked(): set<nat> {
      set i | i in requests && requests[i].Dropped?
    }

    ghost function LongPolling(): set<nat> {
      set i | i in requests && requests[i].LongPoll?
    }
  }

  /** A request arrives, moves on, or is dropped while it polls. */
  datatype Step = Arrive(i: nat) | Go(i: nat) | Drop(i: nat)

  function Next(max: nat, s: State, step: Step): Option<State> {
    var i := step.i;
    if step.Arrive? then
      if i in s.requests || s.counter < 0 then None else Some(s.(counter := s.counter + 1).With(i, Counted(s.counter)))
    else if i !in s.requests then None
    else if step.Drop? then
      match s.requests[i]
      case LongPoll => Some(s.With(i, Dropped))
      case ShortPoll => Some(s.With(i, Done))
      case _ => None
    else
      match s.requests[i]
      case Counted(seen) => Some(s.With(i, if seen >= max then Refused else LongPoll))
      case Refused => Some(s.(counter := s.counter - 1).With(i, ShortPoll))
      case ShortPoll => Some(s.With(i, Done))
      case LongPoll => Some(s.(counter := s.counter - 1).With(i, Done))
      case _ => None
  }

  ghost predicate Inv(max: nat, s: State) {
    s.counter == |s.Counting()| && |s.Admitted(max)| <= max
  }

  lemma SubsetSize(a: set<nat>, b: set<nat>)
    requires a <= b
    ensures |a| <= |b|
  {
    assert b == a + (b - a);
  }

  lemma CountingWith(s: State, i: nat, p: Phase)
    ensures s.With(i, p).Counting() == if p.Counts() then s.Counting() + {i} else s.Counting() - {i}
  {
  }

  lemma AdmittedWith(max: nat, s: State, i: nat, p: Phase)
    ensures s.With(i, p).Admitted(max) == if p.Admitted(max) then s.Admitted(max) + {i} else s.Admitted(max) - {i}
  {
  }

  lemma ArriveInv(max: nat, s: State, i: nat)
    requires Inv(max, s) && i !in s.requests
    ensures Inv(max, s.(counter := s.counter + 1).With(i, Counted(s.counter)))
  {
    var bumped := s.(counter := s.counter + 1);
    assert bumped.Counting() == s.Counting() && bumped.Admitted(max) == s.Admitted(max);
    CountingWith(bumped, i, Counted(s.counter));
    AdmittedWith(max, bumped, i, Counted(s.counter));
    SubsetSize(s.Admitted(max), s.Counting());
  }

  lemma MoveInv(max: nat, s: State, i: nat, p: Phase, counter: int)
    requires Inv(max, s) && i in s.requests && s.requests[i].Counts()
    requires p.Admitted(max) ==> s.requests[i].Admitted(max)
    requires counter == if p.Counts() then s.counter else s.counter - 1
    ensures Inv(max, s.(counter := counter).With(i, p))
  {
    var moved := s.(counter := counter);
    assert moved.Counting() == s.Counting() && moved.Admitted(max) == s.Admitted(max);
    CountingWith(moved, i, p);
    AdmittedWith(max, moved, i, p);
    assert i in s.Counting() && (p.Counts() ==> s.Counting() + {i} == s.Counting());
    assert p.Admitted(max) ==> i in s.Admitted(max) && s.Admitted(max) + {i} == s.Admitted(max);
    SubsetSize(s.Admitted(max) - {i}, s.Admitted(max));
  }

  lemma ShortInv(max: nat, s: State, i: nat)
    requires Inv(max, s) && i in s.requests && s.requests[i].ShortPoll?
    ensures Inv(max, s.With(i, Done))
  {
    assert s.With(i, Done).Counting() == s.Counting();
    assert s.With(i, Done).Admitted(max) == s.Admitted(max);
  }

  lemma NextInv(max: nat, s: State, step: Step)
    requires Inv(max, s) && Next(max, s, step).Some?
    ensures Inv(max, Next(max, s, step).value)
  {
    var i, s' := step.i, Next(max, s, step).value;
    if step.Arrive? {
      ArriveInv(max, s, i);
    } else if s.requests[i].ShortPoll? {
      ShortInv(max, s, i);
    } else {
      MoveInv(max, s, i, s'.requests[i], s'.counter);
      assert s.(counter := s'.counter).With(i, s'.requests[i]) == s';
    }
  }

  /** Any interleaving of arrivals, moves and drops, from no requests. */
  ghost predicate IsRun(max: nat, states: seq<State>, steps: seq<Step>) {
    && |states| == |steps| + 1 && states[0] == State(0, map[])
    && forall k :: 0 <= k < |steps| ==> Next(max, states[k], steps[k]) == Some(states[k + 1])
  }

  lemma {:induction false} RunInv(max: nat, states: seq<State>, steps: seq<Step>, k: nat)
    requires IsRun(max, states, steps) && k < |states|
    ensures Inv(max, states[k])
  {
    if k > 0 {
      RunInv(max, states, steps, k - 1);
      assert Next(max, states[k - 1], steps[k - 1]) == Some(states[k - 1 + 1]);
      NextInv(max, states[k - 1], steps[k - 1]);
    } else {
      assert states[0].Counting() == {} && states[0].Admitted(max) == {};
    }
  }

  /** At every moment at most `max` requests long-poll, and the counter is the number of requests it counts. */
  lemma NeverTooMany(max: nat, states: seq<State>, steps: seq<Step>, k: nat)
    requires IsRun(max, states, steps) && k < |states|
    ensures |states[k].LongPolling()| <= max
    ensures states[k].counter == |states[k].Counting()| >= 0
  {
    RunInv(max, states, steps, k);
    SubsetSize(states[k].LongPolling(), states[k].Admitted(max));
  }

  /** Once every request is over, the counter is back at zero exactly when none was dropped in its long poll. */
  lemma CounterReturns(max: nat, states: seq<State>, steps: seq<Step>, k: nat)
    requires IsRun(max, states, steps) && k < |states|
    requires forall i :: i in states[k].requests ==> states[k].requests[i].Done? || states[k].requests[i].Dropped?
    ensures states[k].counter == |states[k].Leaked()|
    ensures states[k].counter == 0 <==> Dropped !in states[k].requests.Values
  {
    RunInv(max, states, steps, k);
    var dropped := states[k].Leaked();
    assert states[k].Counting() == dropped;
    if Dropped in states[k].requests.Values {
      var i :| i in states[k].requests && states[k].requests[i] == Dropped;
      assert i in dropped;
    } else {
      assert dropped == {};
    }
  }

  /** A request still under way that saw room when it arrived is admitted, and one that did not is not. */
  ghost predicate Treated(max: nat, room: bool, p: Phase) {
    match p
    case Counted(seen) => room <==> seen < max
    case LongPoll | Dropped => room
    case Refused | ShortPoll => !room
    case Done => true
  }

  /** Whether a request long-polls is settled by the number counted when it arrived, whatever the others do. */
  lemma {:induction false} SettledOnArrival(max: nat, states: seq<State>, steps: seq<Step>, k: nat, m: nat, i: nat)
    requires IsRun(max, states, steps) && k < m < |states| && steps[k] == Arrive(i)
    ensures i in states[m].requests && Treated(max, |states[k].Counting()| < max, states[m].requests[i])
    decreases m
  {
    assert Next(max, states[m - 1], steps[m - 1]) == Some(states[m - 1 + 1]);
    if m == k + 1 {
      RunInv(max, states, steps, k);
    } else {
      SettledOnArrival(max, states, steps, k, m - 1, i);
    }
  }

  /** Every request under way can take its next step at any time, and a new one can always arrive. */
  lemma NeverStuck(max: nat, states: seq<State>, steps: seq<Step>, k: nat, i: nat)
    requires IsRun(max, states, steps) && k < |states|
    ensures Next(max, states[k], Arrive(i)).Some? <==> i !in states[k].requests
    ensures Next(max, states[k], Go(i)).Some? <==>
      i in states[k].requests && !states[k].requests[i].Done? && !states[k].requests[i].Dropped?
  {
    RunInv(max, states, steps, k);
  }

  /** Until its first move a request stays as it was counted. */
  lemma {:induction false} CountedUntilMove(max: nat, states: seq<State>, steps: seq<Step>, k: nat, m: nat, i: nat)
    requires IsRun(max, states, steps) && k < m < |states| && steps[k] == Arrive(i)
    requires forall j :: k < j < m ==> steps[j].i != i
    ensures i in states[m].requests && states[m].requests[i] == Counted(|states[k].Counting()|)
    decreases m
  {
    assert Next(max, states[m - 1], steps[m - 1]) == Some(states[m - 1 + 1]);
    if m == k + 1 {
      RunInv(max, states, steps, k);
    } else {
      CountedUntilMove(max, states, steps, k, m - 1, i);
    }
  }

  /** A request's first move takes it to its long poll exactly when fewer than `max` were counted at its arrival. */
  lemma PollsExactlyWhen(max: nat, states: seq<State>, steps: seq<Step>, k: nat, m: nat, i: nat)
    requires IsRun(max, states, steps) && k < m < |steps| && steps[k] == Arrive(i) && steps[m] == Go(i)
    requires forall j :: k < j < m ==> steps[j].i != i
    ensures i in states[m + 1].requests && states[m + 1].counter == states[m].counter
    ensures states[m + 1].requests[i] == if |states[k].Counting()| < max then LongPoll else Refused
  {
    CountedUntilMove(max, states, steps, k, m, i);
    assert Next(max, states[m], steps[m]) == Some(states[m + 1]);
  }

  // ---- Leaked slots ----

  /** Every dropped long poll takes one of the slots away. */
  lemma SlotsShrink(max: nat, states: seq<State>, steps: seq<Step>, k: nat)
    requires IsRun(max, states, steps) && k < |states|
    ensures |states[k].LongPolling()| + |states[k].Leaked()| <= max
  {
    RunInv(max, states, steps, k);
    var s := states[k];
    assert s.LongPolling() * s.Leaked() == {};
    SubsetSize(s.LongPolling() + s.Leaked(), s.Admitted(max));
  }

  lemma {:induction false} LeakedForGood(max: nat, states: seq<State>, steps: seq<Step>, k: nat, m: nat)
    requires IsRun(max, states, steps) && k <= m < |states|
    ensures states[k].Leaked() <= states[m].Leaked()
    decreases m
  {
    if k < m {
      LeakedForGood(max, states, steps, k, m - 1);
      assert Next(max, states[m - 1], steps[m - 1]) == Some(states[m - 1 + 1]);
    }
  }

  /** Once as many long polls as there are slots have been dropped, no request ever long-polls again. */
  lemma NoLongPollAgain(max: nat, states: seq<State>, steps: seq<Step>, k: nat, m: nat)
    requires IsRun(max, states, steps) && k <= m < |states| && |states[k].Leaked()| >= max
    ensures states[m].LongPolling() == {}
  {
    LeakedForGood(max, states, steps, k, m);
    SubsetSize(states[k].Leaked(), states[m].Leaked());
    SlotsShrink(max, states, steps, m);
  }

  /** One request dropped while it long-polls, with one slot: all is over and the counter stays at one. */
  lemma OneDropLeaks() returns (states: seq<State>, steps: seq<Step>)
    ensures IsRun(1, states, steps) && |states| == 4 && states[3] == State(1, map[0 := Dropped])
    ensures |states[3].Leaked()| == 1
  {
    steps := [Arrive(0), Go(0), Drop(0)];
    states := [
      State(0, map[]),
      State(1, map[0 := Counted(0)]),
      State(1, map[0 := LongPoll]),
      State(1, map[0 := Dropped])];
    assert states[1].requests[0 := LongPoll] == states[2].requests;
    assert states[2].requests[0 := Dropped] == states[3].requests;
    assert states[3].Leaked() == {0};
  }
}
