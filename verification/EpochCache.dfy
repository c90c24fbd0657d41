/**
 The per-epoch caches behind a readers-writer lock: the gas schedule and the
 execution configuration.  A caller checks under the read lock, and on a miss
 takes the write lock, checks again, loads, and stores value and epoch label one after
 the other.  The model interleaves any number of callers step by step.
 */
module EpochCache {
  import opened Common

  /** Where a caller stands.  Reading holds the read lock; Writing through Full hold the write lock. */
  datatype Phase<V> =
    | Idle
    | Wanting(epoch: nat)
    | Reading(epoch: nat)
    | Missed(epoch: nat)
    | Writing(epoch: nat)
    | Loading(epoch: nat)
    | Storing(epoch: nat, value: V)
    | HalfStored(epoch: nat, value: V)
    | Full(epoch: nat, value: V)
    | Done(epoch: nat, result: Option<V>)
  {
    predicate HoldsWrite() {
      Writing? || Loading? || Storing? || HalfStored? || Full?
    }

    predicate HoldsLock() {
      Reading? || HoldsWrite()
    }
  }

  /** The cached value with the epoch it is labelled with. */
  datatype Cache<V> = Cache(epoch: Option<nat>, value: Option<V>) {
    predicate Hit(e: nat) {
      epoch == Some(e) && value.Some?
    }
  }

  /** The cache, the callers, and the epochs it was refreshed for so far. */
  datatype State<V> = State(cache: Cache<V>, callers: map<nat, Phase<V>>, refreshes: seq<nat>) {
    predicate Unlocked(write: bool) {
      forall i :: i in callers ==> !callers[i].HoldsWrite() && (write ==> !callers[i].HoldsLock())
    }

    function With(i: nat, p: Phase<V>): State<V> {
      this.(callers := callers[i := p])
    }
  }

  /** A caller begins a request, takes its next step, or has its load fail. */
  datatype Step = Call(i: nat, epoch: nat) | Go(i: nat) | FailLoad(i: nat)

  /** One step; `config` is what storage holds for each epoch.  None when the step cannot be taken. */
  function Next<V>(config: nat -> V, s: State<V>, step: Step): Option<State<V>> {
    if step.i !in s.callers then None else
    var i, p := step.i, s.callers[step.i];
    match step
    case Call(_, epoch) => if p.Idle? || p.Done? then Some(s.With(i, Wanting(epoch))) else None
    case FailLoad(_) => if p.Loading? then Some(s.With(i, Done(p.epoch, None))) else None
    case Go(_) =>
      match p
      case Wanting(e) => if s.Unlocked(false) then Some(s.With(i, Reading(e))) else None
      case Reading(e) => Some(s.With(i, if s.cache.Hit(e) then Done(e, s.cache.value) else Missed(e)))
      case Missed(e) => if s.Unlocked(true) then Some(s.With(i, Writing(e))) else None
      case Writing(e) => Some(s.With(i, if s.cache.Hit(e) then Done(e, s.cache.value) else Loading(e)))
      case Loading(e) => Some(s.With(i, Storing(e, config(e))))
      case Storing(e, v) => Some(s.(cache := s.cache.(value := Some(v))).With(i, HalfStored(e, v)))
      case HalfStored(e, v) =>
        Some(s.(cache := Cache(Some(e), s.cache.value), refreshes := s.refreshes + [e]).With(i, Full(e, v)))
      case Full(e, v) => Some(s.With(i, Done(e, Some(v))))
      case _ => None
  }

  // ---- The invariant ----

  ghost predicate Paired<V>(config: nat -> V, c: Cache<V>) {
    c.epoch.Some? ==> c.value == Some(config(c.epoch.value))
  }

  ghost predicate CallerOk<V>(config: nat -> V, c: Cache<V>, p: Phase<V>) {
    match p
    case Loading(e) => c.epoch != Some(e)
    case Storing(e, v) => c.epoch != Some(e) && v == config(e)
    case HalfStored(e, v) => c.epoch != Some(e) && v == config(e) && c.value == Some(v)
    case Full(e, v) => v == config(e)
    case Done(e, r) => r.Some? ==> r.value == config(e)
    case _ => true
  }

  /** No two refreshes in a row are for the same epoch, and the last one gave the cached epoch. */
  ghost predicate LogOk(epoch: Option<nat>, refreshes: seq<nat>) {
    && (epoch == if refreshes == [] then None else Some(refreshes[|refreshes| - 1]))
    && (forall j :: 0 < j < |refreshes| ==> refreshes[j - 1] != refreshes[j])
  }

  ghost predicate CallersOk<V>(config: nat -> V, s: State<V>) {
    forall i :: i in s.callers ==> CallerOk(config, s.cache, s.callers[i])
  }

  ghost predicate Exclusive<V>(s: State<V>) {
    forall i, j :: i in s.callers && j in s.callers && i != j && s.callers[i].HoldsWrite() ==> !s.callers[j].HoldsLock()
  }

  /** Value and label agree, except while some caller has stored only the value. */
  ghost predicate PairedUnlessHalf<V>(config: nat -> V, s: State<V>) {
    Paired(config, s.cache) || exists i :: i in s.callers && s.callers[i].HalfStored?
  }

  ghost predicate Inv<V>(config: nat -> V, s: State<V>) {
    CallersOk(config, s) && Exclusive(s) && PairedUnlessHalf(config, s) && LogOk(s.cache.epoch, s.refreshes)
  }

  /** Callers idle; the value may be absent or a default, but carries no label. */
  ghost predicate Init<V>(s: State<V>) {
    s.cache.epoch == None && s.refreshes == [] && forall i :: i in s.callers ==> s.callers[i].Idle?
  }

  lemma NextExclusive<V>(config: nat -> V, s: State<V>, step: Step)
    requires Exclusive(s) && Next(config, s, step).Some?
    ensures Exclusive(Next(config, s, step).value)
  {
    var i, s' := step.i, Next(config, s, step).value;
    var p, p' := s.callers[i], s'.callers[i];
    assert p'.HoldsWrite() ==> p.HoldsWrite() || s.Unlocked(true);
    assert p'.HoldsLock() ==> p.HoldsLock() || s.Unlocked(false);
    forall j | j in s'.callers && j != i
      ensures p'.HoldsWrite() ==> !s'.callers[j].HoldsLock()
      ensures s'.callers[j].HoldsWrite() ==> !p'.HoldsLock()
    {
      assert s'.callers[j] == s.callers[j];
    }
  }

  /** While a caller holds a lock no other is in the middle of storing. */
  lemma PairedUnderLock<V>(config: nat -> V, s: State<V>, i: nat)
    requires Inv(config, s) && i in s.callers && s.callers[i].HoldsLock() && !s.callers[i].HalfStored?
    ensures Paired(config, s.cache)
  {
    if j :| j in s.callers && s.callers[j].HalfStored? {
      assert s.callers[j].HoldsWrite() && j != i;
    }
  }

  lemma NextCallers<V>(config: nat -> V, s: State<V>, step: Step)
    requires Inv(config, s) && Next(config, s, step).Some?
    ensures CallersOk(config, Next(config, s, step).value)
  {
    var i, s' := step.i, Next(config, s, step).value;
    if step.Go? && s.callers[i].HoldsLock() && !s.callers[i].HalfStored? {
      PairedUnderLock(config, s, i);
    }
    forall j | j in s'.callers && j != i ensures CallerOk(config, s'.cache, s'.callers[j]) {
      assert s'.callers[j] == s.callers[j] && CallerOk(config, s.cache, s.callers[j]);
      if s'.cache != s.cache {
        assert s.callers[i].HoldsWrite();
      }
    }
    assert CallerOk(config, s.cache, s.callers[i]);
  }

  lemma NextPaired<V>(config: nat -> V, s: State<V>, step: Step)
    requires Inv(config, s) && Next(config, s, step).Some?
    ensures PairedUnlessHalf(config, Next(config, s, step).value)
  {
    var i, s' := step.i, Next(config, s, step).value;
    assert CallerOk(config, s.cache, s.callers[i]);
    if s'.callers[i].HalfStored? {
    } else if !(step.Go? && s.callers[i].HalfStored?) && !Paired(config, s.cache) {
      var j :| j in s.callers && s.callers[j].HalfStored?;
      assert j in s'.callers && s'.callers[j].HalfStored?;
    }
  }

  lemma NextInv<V>(config: nat -> V, s: State<V>, step: Step)
    requires Inv(config, s) && Next(config, s, step).Some?
    ensures Inv(config, Next(config, s, step).value)
  {
    NextExclusive(config, s, step);
    NextCallers(config, s, step);
    NextPaired(config, s, step);
    assert CallerOk(config, s.cache, s.callers[step.i]);
  }

  // ---- Runs ----

  /** The states of a run, one step at a time. */
  ghost predicate IsRun<V>(config: nat -> V, states: seq<State<V>>, steps: seq<Step>) {
    && |states| == |steps| + 1 && Init(states[0])
    && forall k :: 0 <= k < |steps| ==> Next(config, states[k], steps[k]) == Some(states[k + 1])
  }

  lemma {:induction false} RunInv<V>(config: nat -> V, states: seq<State<V>>, steps: seq<Step>, k: nat)
    requires IsRun(config, states, steps) && k < |states|
    ensures Inv(config, states[k])
  {
    if k > 0 {
      RunInv(config, states, steps, k - 1);
      assert Next(config, states[k - 1], steps[k - 1]) == Some(states[k - 1 + 1]);
      NextInv(config, states[k - 1], steps[k - 1]);
    }
  }

  /** However callers of whatever epochs interleave, whoever gets a value gets its own epoch's. */
  lemma ReturnsOwnEpoch<V>(config: nat -> V, states: seq<State<V>>, steps: seq<Step>, k: nat, i: nat)
    requires IsRun(config, states, steps) && k < |states| && i in states[k].callers
    requires states[k].callers[i].Done? && states[k].callers[i].result.Some?
    ensures states[k].callers[i].result.value == config(states[k].callers[i].epoch)
  {
    RunInv(config, states, steps, k);
  }

  /** A caller is left without a value only by a load of its own that failed, in this very request. */
  lemma {:induction false} NothingOnlyFromFailure<V>(
    config: nat -> V, states: seq<State<V>>, steps: seq<Step>, k: nat, i: nat) returns (m: nat)
    requires IsRun(config, states, steps) && k < |states| && i in states[k].callers
    requires states[k].callers[i].Done? && states[k].callers[i].result.None?
    ensures m < k && steps[m] == FailLoad(i)
    ensures i in states[m].callers && states[m].callers[i] == Loading(states[k].callers[i].epoch)
    ensures forall j :: m < j <= k ==> i in states[j].callers && states[j].callers[i] == states[k].callers[i]
  {
    assert k > 0;
    var s, s', step := states[k - 1], states[k], steps[k - 1];
    assert Next(config, s, step) == Some(states[k - 1 + 1]);
    if step == FailLoad(i) {
      m := k - 1;
    } else {
      assert s.callers[i] == s'.callers[i];
      m := NothingOnlyFromFailure(config, states, steps, k - 1, i);
    }
  }

  // ---- A request on its own ----

  /** Caller i takes its steps while the others stand still. */
  function GoOn<V>(config: nat -> V, s: State<V>, i: nat, n: nat): Option<State<V>>
    decreases n
  {
    if n == 0 then Some(s)
    else match Next(config, s, Go(i))
      case None => None
      case Some(s') => GoOn(config, s', i, n - 1)
  }

  lemma FourSteps<V>(config: nat -> V, s: State<V>, s1: State<V>, s2: State<V>, s3: State<V>, s4: State<V>, i: nat)
    requires Next(config, s, Go(i)) == Some(s1) && Next(config, s1, Go(i)) == Some(s2)
    requires Next(config, s2, Go(i)) == Some(s3) && Next(config, s3, Go(i)) == Some(s4)
    ensures GoOn(config, s, i, 4) == Some(s4)
  {
    assert GoOn(config, s3, i, 1) == Some(s4);
    assert GoOn(config, s2, i, 2) == Some(s4);
    assert GoOn(config, s1, i, 3) == Some(s4);
  }

  /** Nobody else holds the lock in a way that would make caller i wait for it. */
  ghost predicate FreeFor<V>(s: State<V>, i: nat, write: bool) {
    forall j :: j in s.callers && j != i ==> !s.callers[j].HoldsWrite() && (write ==> !s.callers[j].HoldsLock())
  }

  /** A request for the cached epoch is answered under the read lock, beside other readers, and changes nothing. */
  lemma HitAnswers<V>(config: nat -> V, s: State<V>, i: nat, e: nat)
    requires i in s.callers && s.callers[i] == Wanting(e) && s.cache.Hit(e) && FreeFor(s, i, false)
    ensures GoOn(config, s, i, 2) == Some(s.With(i, Done(e, s.cache.value)))
  {
    var s1 := s.With(i, Reading(e));
    assert Next(config, s, Go(i)) == Some(s1);
    assert s1.With(i, Done(e, s.cache.value)) == s.With(i, Done(e, s.cache.value));
    assert Next(config, s1, Go(i)) == Some(s.With(i, Done(e, s.cache.value)));
    assert GoOn(config, s1, i, 1) == Some(s.With(i, Done(e, s.cache.value)));
  }

  lemma MissMoves<V>(config: nat -> V, s: State<V>, i: nat, p: Phase<V>, q: Phase<V>)
    requires i in s.callers && FreeFor(s, i, true) && !p.Idle? && !s.cache.Hit(p.epoch)
    requires match p
      case Wanting(e) => q == Reading(e)
      case Reading(e) => q == Missed(e)
      case Missed(e) => q == Writing(e)
      case Writing(e) => q == Loading(e)
      case _ => false
    ensures Next(config, s.With(i, p), Go(i)) == Some(s.With(i, q))
  {
    var t := s.With(i, p);
    assert t.With(i, q) == s.With(i, q);
    assert forall j :: j in s.callers && j != i ==> t.callers[j] == s.callers[j];
  }

  /** A request for another epoch misses, and comes to hold the write lock when nobody is in its way. */
  lemma MissWrites<V>(config: nat -> V, s: State<V>, i: nat, e: nat)
    requires i in s.callers && s.callers[i] == Wanting(e) && !s.cache.Hit(e) && FreeFor(s, i, true)
    ensures GoOn(config, s, i, 4) == Some(s.With(i, Loading(e)))
  {
    assert s.With(i, Wanting(e)) == s;
    MissMoves(config, s, i, Wanting(e), Reading(e));
    MissMoves(config, s, i, Reading(e), Missed(e));
    MissMoves(config, s, i, Missed(e), Writing(e));
    MissMoves(config, s, i, Writing(e), Loading(e));
    FourSteps(config, s, s.With(i, Reading(e)), s.With(i, Missed(e)), s.With(i, Writing(e)), s.With(i, Loading(e)), i);
  }

  /** From there a load that succeeds leaves the epoch's own value cached under its label and answers with it. */
  lemma LoadAnswers<V>(config: nat -> V, s: State<V>, i: nat, e: nat)
    requires i in s.callers && s.callers[i] == Loading(e)
    ensures GoOn(config, s, i, 4) == Some(State(
      Cache(Some(e), Some(config(e))), s.callers[i := Done(e, Some(config(e)))], s.refreshes + [e]))
  {
    var v := config(e);
    var half, cache := s.cache.(value := Some(v)), Cache(Some(e), Some(v));
    var s1 := s.With(i, Storing(e, v));
    var s2 := State(half, s.callers[i := HalfStored(e, v)], s.refreshes);
    var s3 := State(cache, s.callers[i := Full(e, v)], s.refreshes + [e]);
    var s4 := State(cache, s.callers[i := Done(e, Some(v))], s.refreshes + [e]);
    assert s1.callers[i := HalfStored(e, v)] == s2.callers && s2.callers[i := Full(e, v)] == s3.callers;
    assert s3.callers[i := Done(e, Some(v))] == s4.callers;
    assert Next(config, s, Go(i)) == Some(s1) && Next(config, s1, Go(i)) == Some(s2);
    assert Next(config, s2, Go(i)) == Some(s3) && Next(config, s3, Go(i)) == Some(s4);
    FourSteps(config, s, s1, s2, s3, s4, i);
  }

  /** Whenever a caller could take the read lock, the cached value is the one of the cached epoch. */
  lemma ReadersSeePairs<V>(config: nat -> V, states: seq<State<V>>, steps: seq<Step>, k: nat)
    requires IsRun(config, states, steps) && k < |states| && states[k].Unlocked(false)
    ensures Paired(config, states[k].cache)
  {
    RunInv(config, states, steps, k);
  }

  /** Nobody holds the lock in any way beside a writer. */
  lemma WriterIsAlone<V>(config: nat -> V, states: seq<State<V>>, steps: seq<Step>, k: nat, i: nat, j: nat)
    requires IsRun(config, states, steps) && k < |states| && i in states[k].callers && j in states[k].callers && i != j
    requires states[k].callers[i].HoldsWrite()
    ensures !states[k].callers[j].HoldsLock()
  {
    RunInv(config, states, steps, k);
  }

  /** Between two refreshes for one epoch there is one for another. */
  lemma RefreshesAlternate<V>(config: nat -> V, states: seq<State<V>>, steps: seq<Step>, k: nat, j: nat, m: nat)
    requires IsRun(config, states, steps) && k < |states|
    requires j < m < |states[k].refreshes| && states[k].refreshes[j] == states[k].refreshes[m]
    ensures j + 1 < m && states[k].refreshes[j + 1] != states[k].refreshes[j]
  {
    RunInv(config, states, steps, k);
    assert states[k].refreshes[j + 1 - 1] != states[k].refreshes[j + 1];
  }

  ghost predicate AllOf<V>(s: State<V>, epoch: nat) {
    && (forall i :: i in s.callers ==> s.callers[i].Idle? || s.callers[i].epoch == epoch)
    && (forall j :: 0 <= j < |s.refreshes| ==> s.refreshes[j] == epoch)
  }

  lemma {:induction false} RunAllOf<V>(config: nat -> V, states: seq<State<V>>, steps: seq<Step>, k: nat, epoch: nat)
    requires IsRun(config, states, steps) && k < |states|
    requires forall m :: 0 <= m < |steps| && steps[m].Call? ==> steps[m].epoch == epoch
    ensures AllOf(states[k], epoch)
  {
    if k > 0 {
      assert Next(config, states[k - 1], steps[k - 1]) == Some(states[k - 1 + 1]);
      RunAllOf(config, states, steps, k - 1, epoch);
    }
  }

  /** While every request is for one epoch, at most one of all the callers refreshes the cache. */
  lemma OneRefreshPerEpoch<V>(config: nat -> V, states: seq<State<V>>, steps: seq<Step>, k: nat, epoch: nat)
    requires IsRun(config, states, steps) && k < |states|
    requires forall m :: 0 <= m < |steps| && steps[m].Call? ==> steps[m].epoch == epoch
    ensures |states[k].refreshes| <= 1
  {
    RunAllOf(config, states, steps, k, epoch);
    if |states[k].refreshes| > 1 {
      RefreshesAlternate(config, states, steps, k, 0, 1);
    }
  }

  // ---- Failed loads ----

  /** A caller that has not got past loading. */
  predicate HasNotStored<V>(p: Phase<V>) {
    !(p.Storing? || p.HalfStored? || p.Full?)
  }

  /** A step of another caller can be taken just as well with this one idle. */
  lemma OthersUnhindered<V>(config: nat -> V, s: State<V>, step: Step, i: nat)
    requires i in s.callers && step.i != i && Next(config, s, step).Some?
    ensures Next(config, s.With(i, Idle), step) == Some(Next(config, s, step).value.With(i, Idle))
  {
    var s', t := Next(config, s, step).value, s.With(i, Idle);
    assert forall write :: s.Unlocked(write) ==> t.Unlocked(write);
    assert t.callers[step.i] == s.callers[step.i];
    assert t.callers[step.i := s'.callers[step.i]] == s'.callers[i := Idle];
  }

  /** A step of this caller, short of a load that succeeds, shows nowhere else. */
  lemma OwnStepInvisible<V>(config: nat -> V, s: State<V>, step: Step)
    requires Next(config, s, step).Some? && HasNotStored(s.callers[step.i])
    requires !(step.Go? && s.callers[step.i].Loading?)
    ensures Next(config, s, step).value.With(step.i, Idle) == s.With(step.i, Idle)
    ensures HasNotStored(Next(config, s, step).value.callers[step.i])
  {
    var s' := Next(config, s, step).value;
    assert s'.callers[step.i := Idle] == s.callers[step.i := Idle];
  }

  function Others(steps: seq<Step>, i: nat): seq<Step> {
    if steps == [] then []
    else
      var last := steps[|steps| - 1];
      Others(steps[..|steps| - 1], i) + if last.i == i then [] else [last]
  }

  lemma OthersNext(steps: seq<Step>, k: nat, i: nat)
    requires k < |steps|
    ensures Others(steps[..k + 1], i) == Others(steps[..k], i) + if steps[k].i == i then [] else [steps[k]]
  {
    assert steps[..k + 1][..k] == steps[..k];
  }

  lemma RunExtends<V>(config: nat -> V, states: seq<State<V>>, steps: seq<Step>, step: Step, s: State<V>)
    requires IsRun(config, states, steps) && Next(config, states[|steps|], step) == Some(s)
    ensures IsRun(config, states + [s], steps + [step])
  {
    var longer, more := states + [s], steps + [step];
    forall k | 0 <= k < |more| ensures Next(config, longer[k], more[k]) == Some(longer[k + 1]) {
      if k < |steps| {
        assert Next(config, states[k], steps[k]) == Some(states[k + 1]);
      }
    }
  }

  /** One more step of a run, taken or left out of the run without the caller. */
  lemma StepWithout<V>(config: nat -> V, s: State<V>, step: Step, i: nat, without: seq<State<V>>, steps: seq<Step>)
    returns (after: seq<State<V>>)
    requires i in s.callers && HasNotStored(s.callers[i]) && Next(config, s, step).Some?
    requires step == Go(i) ==> !s.callers[i].Loading?
    requires IsRun(config, without, steps) && without[|steps|] == s.With(i, Idle)
    ensures IsRun(config, after, if step.i == i then steps else steps + [step])
    ensures after[|after| - 1] == Next(config, s, step).value.With(i, Idle)
    ensures var s' := Next(config, s, step).value; i in s'.callers && HasNotStored(s'.callers[i])
  {
    if step.i == i {
      OwnStepInvisible(config, s, step);
      after := without;
    } else {
      OthersUnhindered(config, s, step, i);
      var t := Next(config, s, step).value.With(i, Idle);
      RunExtends(config, without, steps, step, t);
      after := without + [t];
    }
  }

  /**
   A caller whose loads all fail leaves no trace: without its steps there is a run
   with the same cache, the same refreshes and the same answers to everybody else.
   */
  lemma {:induction false} FailedLoadsLeaveNoTrace<V>(
    config: nat -> V, states: seq<State<V>>, steps: seq<Step>, k: nat, i: nat) returns (without: seq<State<V>>)
    requires IsRun(config, states, steps) && k < |states| && i in states[0].callers
    requires forall m :: 0 <= m < |steps| && steps[m] == Go(i) && i in states[m].callers ==>
      !states[m].callers[i].Loading?
    ensures i in states[k].callers && HasNotStored(states[k].callers[i])
    ensures IsRun(config, without, Others(steps[..k], i))
    ensures without[|without| - 1] == states[k].With(i, Idle)
  {
    if k == 0 {
      assert states[0].callers[i := Idle] == states[0].callers;
      without := [states[0]];
    } else {
      var before := FailedLoadsLeaveNoTrace(config, states, steps, k - 1, i);
      assert Next(config, states[k - 1], steps[k - 1]) == Some(states[k - 1 + 1]);
      OthersNext(steps, k - 1, i);
      without := StepWithout(config, states[k - 1], steps[k - 1], i, before, Others(steps[..k - 1], i));
      assert steps[k - 1].i == i ==> Others(steps[..k - 1], i) + [] == Others(steps[..k - 1], i);
    }
  }
}
