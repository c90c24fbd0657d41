/**
 Unique ports for concurrently running test processes: a counter file guarded by
 a lock file hands out positions in a fixed shuffle of the port range.  Processes
 interleave file operation by file operation and may fail or be killed anywhere.
 */
module PortAllocator {
  import opened Common

  const MAX_PORT_RETRIES: nat := 1000
  const MAX_LOCK_ATTEMPTS: nat := 100
  const PORTS: nat := 20000

  /** The shuffled range 10000..30000. */
  ghost predicate IsPortVector(v: seq<nat>) {
    && |v| == PORTS
    && (forall a :: 0 <= a < |v| ==> 10000 <= v[a] < 30000)
    && (forall a, b :: 0 <= a < b < |v| ==> v[a] != v[b])
  }

  /** Attempt a is the first that binds, and within the retries. */
  ghost predicate BindsAt(binds: nat -> bool, a: nat) {
    a < MAX_PORT_RETRIES && binds(a) && forall b: nat :: b < a ==> !binds(b)
  }

  ghost predicate NeverBinds(binds: nat -> bool) {
    forall b: nat :: b < MAX_PORT_RETRIES ==> !binds(b)
  }

  /**
   Try consecutive positions, wrapping at the end of the vector, until one binds.
   The result is the port of the first attempt that bound and the position after it.
   */
  method BindPortFromCounter(v: seq<nat>, start: nat, binds: nat -> bool) returns (r: Option<(nat, nat)>)
    requires IsPortVector(v) && start < PORTS
    ensures r.None? <==> NeverBinds(binds)
    ensures r.Some? ==> exists a: nat ::
      BindsAt(binds, a) && r.value == (v[(start + a) % PORTS], (start + a + 1) % PORTS)
  {
    var counter, attempt := start, 0;
    while attempt < MAX_PORT_RETRIES
      invariant attempt <= MAX_PORT_RETRIES && counter == (start + attempt) % PORTS
      invariant forall b: nat :: b < attempt ==> !binds(b)
    {
      var port := v[counter];
      counter := counter + 1;
      if counter == |v| {
        counter := 0;
      }
      if binds(attempt) {
        assert BindsAt(binds, attempt);
        return Some((port, counter));
      }
      attempt := attempt + 1;
    }
    return None;
  }

  // ---- The protocol ----

  /** The counter file: fewer than two bytes, or a big-endian u16 first. */
  datatype CounterFile = Short | Holds(value: nat)

  function ReadCounter(f: CounterFile): (c: nat)
    ensures c < PORTS
  {
    if f.Holds? && f.value < PORTS then f.value else 0
  }

  /** Where to start: at the counter, or at 0 when it cannot be read. */
  function StartAt(f: CounterFile, read: bool): (c: nat)
    ensures c < PORTS
  {
    if read then ReadCounter(f) else 0
  }

  /** What was written comes back as the start; anything else starts over. */
  lemma StartsWhereLeft(f: CounterFile, read: bool)
    ensures StartAt(f, read) == match f
      case Holds(n) => if read && n < PORTS then n else 0
      case Short => 0
  {
  }

  /**
   A process: waiting for the lock, holding it, then returned or gone.  A bound
   port carries its file generation and its number among the generation's attempts.
   */
  datatype Phase =
    | Waiting(tries: nat)
    | Locked
    | Bound(start: nat, failed: nat, read: bool)
    | Truncated(start: nat, failed: nat)
    | Written(port: nat, gen: nat, n: nat)
    | Unwinding
    | Returned(port: nat, gen: nat, n: nat)
    | Gone
  {
    predicate HoldsLock() {
      Locked? || Bound? || Truncated? || Written? || Unwinding?
    }

    predicate HasPort() {
      Written? || Returned?
    }
  }

  /**
   lock: the lock file exists.  gen counts the times the count was lost, emptied
   without being rewritten or overwritten unread; origin is the first position of
   the generation and total its committed attempts.
   */
  datatype State = State(lock: bool, file: CounterFile, procs: map<nat, Phase>, gen: nat, origin: nat, total: nat) {
    function With(i: nat, p: Phase): State {
      this.(procs := procs[i := p])
    }

    /** Forget the count: the file is emptied and what it held is not carried on. */
    function Lost(): State {
      this.(file := Short, gen := gen + 1, total := 0)
    }
  }

  /** The next file operation, with whether it succeeds, or being killed. */
  datatype Step =
    | Start(i: nat)
    | TryLock(i: nat, ok: bool)
    | OpenFails(i: nat)
    | Bind(i: nat, read: bool, failed: nat, ok: bool)
    | Truncate(i: nat, ok: bool)
    | Write(i: nat, ok: bool)
    | Release(i: nat, ok: bool)
    | Kill(i: nat)

  function Next(v: seq<nat>, s: State, step: Step): Option<State>
    requires |v| == PORTS
  {
    var i := step.i;
    if step.Start? then if i in s.procs then None else Some(s.With(i, Waiting(0)))
    else if i !in s.procs then None else
    var p := s.procs[i];
    match step
    case TryLock(_, ok) =>
      if !p.Waiting? || p.tries >= MAX_LOCK_ATTEMPTS then None
      else if s.lock || !ok then
        Some(s.With(i, if p.tries + 1 == MAX_LOCK_ATTEMPTS then Gone else Waiting(p.tries + 1)))
      else Some(s.(lock := true).With(i, Locked))
    // Without the counter file there is nothing yet that would remove the lock file.
    case OpenFails(_) => if p.Locked? then Some(s.With(i, Gone)) else None
    // Read the counter, or start at 0 if that fails; bind after some failed attempts, or fail them all.
    case Bind(_, read, failed, ok) =>
      if !p.Locked? || failed >= MAX_PORT_RETRIES then None
      else if ok then Some(s.With(i, Bound(StartAt(s.file, read), failed, read)))
      else Some(s.With(i, Unwinding))
    case Truncate(_, ok) =>
      if !p.Bound? then None
      else if ok then
        Some((if p.read then s.(file := Short) else s.Lost()).With(i, Truncated(p.start, p.failed)))
      else Some(s.With(i, Unwinding))
    case Write(_, ok) =>
      if !p.Truncated? then None
      else if ok then
        var port := v[(p.start + p.failed) % PORTS];
        var after := s.(file := Holds((p.start + p.failed + 1) % PORTS), total := s.total + p.failed + 1,
          origin := if s.total == 0 then p.start else s.origin);
        Some(after.With(i, Written(port, s.gen, s.total + p.failed)))
      else Some(s.Lost().With(i, Unwinding))
    // Removing the lock file is the last thing a process does, on success and on the way out of a failure.
    case Release(_, ok) =>
      if !p.Written? && !p.Unwinding? then None
      else Some(s.(lock := !ok).With(i, if p.Written? && ok then Returned(p.port, p.gen, p.n) else Gone))
    case Kill(_) =>
      if p.Truncated? then Some(s.Lost().With(i, Gone)) else if p.Returned? then None else Some(s.With(i, Gone))
    case Start(_) => None
  }

  // ---- The invariant ----

  ghost predicate Exclusive(s: State) {
    && (forall i :: i in s.procs && s.procs[i].HoldsLock() ==> s.lock)
    && (forall i, j :: i in s.procs && j in s.procs && i != j && s.procs[i].HoldsLock() ==> !s.procs[j].HoldsLock())
  }

  /** The position a process reads next. */
  ghost function Expected(s: State): nat {
    (s.origin + s.total) % PORTS
  }

  ghost predicate ProcOk(v: seq<nat>, s: State, p: Phase)
    requires |v| == PORTS
  {
    match p
    case Bound(start, _, read) => start < PORTS && (read && s.total > 0 ==> start == Expected(s))
    case Truncated(start, _) => start < PORTS && (s.total > 0 ==> start == Expected(s))
    case Written(port, gen, n) => PortOk(v, s, port, gen, n)
    case Returned(port, gen, n) => PortOk(v, s, port, gen, n)
    case _ => true
  }

  /** A port of this generation is the one at its attempt's position; earlier generations are over. */
  ghost predicate PortOk(v: seq<nat>, s: State, port: nat, gen: nat, n: nat)
    requires |v| == PORTS
  {
    gen <= s.gen && (gen == s.gen ==> n < s.total && port == v[(s.origin + n) % PORTS])
  }

  /** Unless a process has just emptied it, the file holds the position after the last committed attempt. */
  ghost predicate FileOk(s: State) {
    s.total == 0 || s.file == Holds(Expected(s)) || exists i :: i in s.procs && s.procs[i].Truncated?
  }

  /** Two ports of a generation are of different attempts, and equal exactly when those are whole vectors apart. */
  ghost predicate Distinct(p: Phase, q: Phase) {
    p.HasPort() && q.HasPort() && p.gen == q.gen ==> p.n != q.n && (p.port == q.port <==> p.n % PORTS == q.n % PORTS)
  }

  ghost predicate Inv(v: seq<nat>, s: State)
    requires |v| == PORTS
  {
    && Exclusive(s) && FileOk(s)
    && (forall i :: i in s.procs ==> ProcOk(v, s, s.procs[i]))
    && (forall i, j :: i in s.procs && j in s.procs && i != j ==> Distinct(s.procs[i], s.procs[j]))
  }

  // ---- Preservation ----

  lemma NextExclusive(v: seq<nat>, s: State, step: Step)
    requires |v| == PORTS && Exclusive(s) && Next(v, s, step).Some?
    ensures Exclusive(Next(v, s, step).value)
  {
  }

  lemma ModAdd(a: nat, b: nat)
    ensures (a % PORTS + b) % PORTS == (a + b) % PORTS
  {
  }

  lemma NextFile(v: seq<nat>, s: State, step: Step)
    requires |v| == PORTS && Inv(v, s) && Next(v, s, step).Some?
    ensures FileOk(Next(v, s, step).value)
  {
    var i, s' := step.i, Next(v, s, step).value;
    if step.Start? {
      if j :| j in s.procs && s.procs[j].Truncated? {
        assert s'.procs[j].Truncated?;
      }
    } else if s.procs[i].Truncated? {
      assert ProcOk(v, s, s.procs[i]);
      ModAdd(s.origin + s.total, s.procs[i].failed + 1);
    } else if step.Truncate? && step.ok {
      assert s'.procs[i].Truncated?;
    } else if j :| j in s.procs && s.procs[j].Truncated? {
      assert s'.procs[j].Truncated?;
    }
  }

  /** A process that holds the lock and has not emptied the file sees the expected position in it. */
  lemma ReadsExpected(v: seq<nat>, s: State, i: nat)
    requires |v| == PORTS && Inv(v, s) && i in s.procs && s.procs[i].HoldsLock() && !s.procs[i].Truncated?
    ensures s.total > 0 ==> ReadCounter(s.file) == Expected(s)
  {
    if j :| j in s.procs && s.procs[j].Truncated? {
      assert j != i && s.procs[j].HoldsLock();
    }
  }

  /** The process that moves. */
  lemma OwnOk(v: seq<nat>, s: State, step: Step)
    requires |v| == PORTS && Inv(v, s) && Next(v, s, step).Some?
    ensures ProcOk(v, Next(v, s, step).value, Next(v, s, step).value.procs[step.i])
  {
    var i := step.i;
    if step.Bind? {
      ReadsExpected(v, s, i);
    } else if !step.Start? {
      assert ProcOk(v, s, s.procs[i]);
      if step.Write? && step.ok {
        ModAdd(s.origin + s.total, s.procs[i].failed);
      }
    }
  }

  /** The others: while one process commits or loses the count, none of them holds the lock. */
  lemma OtherOk(v: seq<nat>, s: State, step: Step, j: nat)
    requires |v| == PORTS && Inv(v, s) && Next(v, s, step).Some? && j in s.procs && j != step.i
    ensures ProcOk(v, Next(v, s, step).value, s.procs[j])
  {
    assert ProcOk(v, s, s.procs[j]);
    if !step.Start? && s.procs[step.i].HoldsLock() {
      assert !s.procs[j].HoldsLock();
    }
  }

  lemma SamePosition(v: seq<nat>, origin: nat, a: nat, b: nat)
    requires IsPortVector(v)
    ensures v[(origin + a) % PORTS] == v[(origin + b) % PORTS] <==> a % PORTS == b % PORTS
  {
    var x, y := (origin + a) % PORTS, (origin + b) % PORTS;
    assert x == y <==> a % PORTS == b % PORTS by {
      ModAdd(a, origin);
      ModAdd(b, origin);
    }
    if x < y {
      assert v[x] != v[y];
    } else if y < x {
      assert v[y] != v[x];
    }
  }

  /** A port just committed is that of a later attempt than any other of its generation. */
  lemma CommittedDistinct(v: seq<nat>, s: State, p: Phase, q: Phase)
    requires IsPortVector(v) && ProcOk(v, s, p) && ProcOk(v, s, q) && p.Written? && p.gen == s.gen
    requires q.HasPort() && q.gen == s.gen ==> q.n < p.n
    ensures Distinct(p, q) && Distinct(q, p)
  {
    if q.HasPort() && q.gen == s.gen {
      SamePosition(v, s.origin, q.n, p.n);
    }
  }

  lemma NextDistinct(v: seq<nat>, s: State, step: Step, j: nat)
    requires IsPortVector(v) && Inv(v, s) && Next(v, s, step).Some? && j in s.procs && j != step.i
    ensures var p := Next(v, s, step).value.procs[step.i];
      Distinct(p, s.procs[j]) && Distinct(s.procs[j], p)
  {
    var i, s' := step.i, Next(v, s, step).value;
    if step.Write? && step.ok {
      OwnOk(v, s, step);
      OtherOk(v, s, step, j);
      assert ProcOk(v, s, s.procs[j]);
      CommittedDistinct(v, s', s'.procs[i], s.procs[j]);
    } else if step.Release? {
      assert Distinct(s.procs[i], s.procs[j]) && Distinct(s.procs[j], s.procs[i]);
    }
  }

  lemma NextInv(v: seq<nat>, s: State, step: Step)
    requires IsPortVector(v) && Inv(v, s) && Next(v, s, step).Some?
    ensures Inv(v, Next(v, s, step).value)
  {
    NextExclusive(v, s, step);
    NextFile(v, s, step);
    OwnOk(v, s, step);
    var s' := Next(v, s, step).value;
    forall j | j in s'.procs && j != step.i
      ensures ProcOk(v, s', s'.procs[j])
      ensures Distinct(s'.procs[step.i], s'.procs[j]) && Distinct(s'.procs[j], s'.procs[step.i])
    {
      OtherOk(v, s, step, j);
      NextDistinct(v, s, step, j);
    }
  }

  // ---- Runs ----

  /** From no processes, no lock, and any leftover counter file. */
  ghost predicate Init(s: State) {
    !s.lock && s.procs == map[] && s.total == 0
  }

  ghost predicate IsRun(v: seq<nat>, states: seq<State>, steps: seq<Step>)
    requires |v| == PORTS
  {
    && |states| == |steps| + 1 && Init(states[0])
    && forall k :: 0 <= k < |steps| ==> Next(v, states[k], steps[k]) == Some(states[k + 1])
  }

  lemma {:induction false} RunInv(v: seq<nat>, states: seq<State>, steps: seq<Step>, k: nat)
    requires IsPortVector(v) && IsRun(v, states, steps) && k < |states|
    ensures Inv(v, states[k])
  {
    if k > 0 {
      RunInv(v, states, steps, k - 1);
      assert Next(v, states[k - 1], steps[k - 1]) == Some(states[k - 1 + 1]);
      NextInv(v, states[k - 1], steps[k - 1]);
    }
  }

  /** Whenever the lock is free, a committed counter can be read and is below the length of the vector. */
  lemma CounterInRange(v: seq<nat>, states: seq<State>, steps: seq<Step>, k: nat)
    requires IsPortVector(v) && IsRun(v, states, steps) && k < |states| && !states[k].lock && states[k].total > 0
    ensures states[k].file.Holds? && states[k].file.value < PORTS
    ensures states[k].file.value == (states[k].origin + states[k].total) % PORTS
  {
    RunInv(v, states, steps, k);
    if i :| i in states[k].procs && states[k].procs[i].Truncated? {
      assert states[k].procs[i].HoldsLock();
    }
  }

  /** The steps that lose the count: a failed rewrite, a kill after emptying, and emptying a count that was not read. */
  predicate Loses(s: State, step: Step)
    requires step.i in s.procs
  {
    match step
    case Write(i, ok) => !ok
    case Kill(i) => s.procs[i].Truncated?
    case Truncate(i, ok) => ok && s.procs[i].Bound? && !s.procs[i].read
    case _ => false
  }

  /** The generation stays the same from one moment to another exactly when no step between them loses the count. */
  lemma {:induction false} GenerationExactlyWhen(v: seq<nat>, states: seq<State>, steps: seq<Step>, k: nat, m: nat)
    requires |v| == PORTS && IsRun(v, states, steps) && k <= m < |states|
    ensures states[k].gen <= states[m].gen
    ensures states[k].gen == states[m].gen <==>
      forall j :: k <= j < m ==> steps[j].Start? || (steps[j].i in states[j].procs && !Loses(states[j], steps[j]))
    decreases m
  {
    if k < m {
      GenerationExactlyWhen(v, states, steps, k, m - 1);
      assert Next(v, states[m - 1], steps[m - 1]) == Some(states[m - 1 + 1]);
    }
  }

  /** Two processes never touch the counter file at the same time. */
  lemma MutualExclusion(v: seq<nat>, states: seq<State>, steps: seq<Step>, k: nat, i: nat, j: nat)
    requires IsPortVector(v) && IsRun(v, states, steps) && k < |states|
    requires i in states[k].procs && j in states[k].procs && i != j
    ensures !(states[k].procs[i].HoldsLock() && states[k].procs[j].HoldsLock())
  {
    RunInv(v, states, steps, k);
  }

  /**
   In any interleaving, two processes between which the count was not lost get the
   same port exactly when their attempts are a whole number of vectors apart.
   */
  lemma PortsAreUnique(v: seq<nat>, states: seq<State>, steps: seq<Step>, k: nat, i: nat, j: nat)
    requires IsPortVector(v) && IsRun(v, states, steps) && k < |states|
    requires i in states[k].procs && j in states[k].procs && i != j
    requires states[k].procs[i].Returned? && states[k].procs[j].Returned?
    requires states[k].procs[i].gen == states[k].procs[j].gen
    ensures var p, q := states[k].procs[i], states[k].procs[j];
      && p.n != q.n && (p.port == q.port <==> p.n % PORTS == q.n % PORTS)
      && (p.n < q.n + PORTS && q.n < p.n + PORTS ==> p.port != q.port)
  {
    RunInv(v, states, steps, k);
    assert Distinct(states[k].procs[i], states[k].procs[j]);
  }

  // ---- Orphaned locks ----

  /** The lock file exists and nobody is left to remove it. */
  ghost predicate Orphaned(s: State) {
    s.lock && forall i :: i in s.procs ==> !s.procs[i].HoldsLock()
  }

  /** The steps that leave the lock file behind: no counter file, a kill while holding it, and a failed removal. */
  ghost predicate Orphans(s: State, step: Step) {
    match step
    case OpenFails(_) => true
    case Kill(i) => i in s.procs && s.procs[i].HoldsLock()
    case Release(_, ok) => !ok
    case _ => false
  }

  /** A lock is orphaned by exactly these steps of its holder. */
  lemma OrphanedExactlyWhen(v: seq<nat>, s: State, step: Step)
    requires |v| == PORTS && Exclusive(s) && !Orphaned(s) && Next(v, s, step).Some?
    ensures Orphaned(Next(v, s, step).value) <==> Orphans(s, step)
  {
    var i, s' := step.i, Next(v, s, step).value;
    if !Orphans(s, step) && s'.lock {
      if s.lock {
        var j :| j in s.procs && s.procs[j].HoldsLock();
        assert s'.procs[j].HoldsLock();
      } else {
        assert s'.procs[i].HoldsLock();
      }
    }
  }

  /** Once orphaned the lock stays, so nobody gets a port any more. */
  lemma {:induction false} OrphanedForGood(v: seq<nat>, states: seq<State>, steps: seq<Step>, k: nat, m: nat, i: nat)
    requires |v| == PORTS && IsRun(v, states, steps) && k <= m < |states| && Orphaned(states[k])
    ensures Orphaned(states[m])
    ensures i in states[m].procs && states[m].procs[i].HasPort() ==>
      i in states[k].procs && states[k].procs[i] == states[m].procs[i]
    decreases m
  {
    if k < m {
      OrphanedForGood(v, states, steps, k, m - 1, i);
      assert Next(v, states[m - 1], steps[m - 1]) == Some(states[m - 1 + 1]);
      StillOrphaned(v, states[m - 1], steps[m - 1]);
    }
  }

  lemma StillOrphaned(v: seq<nat>, s: State, step: Step)
    requires |v| == PORTS && Orphaned(s) && Next(v, s, step).Some?
    ensures var s' := Next(v, s, step).value;
      && Orphaned(s') && step.i in s'.procs && !s'.procs[step.i].HasPort()
      && forall j :: j in s'.procs && j != step.i ==> j in s.procs && s'.procs[j] == s.procs[j]
  {
  }

  // ---- One process on its own ----

  /** Whether and when the lock file could be created: `busy` says of each attempt that it already exists. */
  method AcquireLock(busy: nat -> bool) returns (attempt: Option<nat>)
    ensures attempt.None? <==> forall t: nat :: t < MAX_LOCK_ATTEMPTS ==> busy(t)
    ensures attempt.Some? ==>
      attempt.value < MAX_LOCK_ATTEMPTS && !busy(attempt.value) && forall t: nat :: t < attempt.value ==> busy(t)
  {
    for t := 0 to MAX_LOCK_ATTEMPTS
      invariant forall u: nat :: u < t ==> busy(u)
    {
      if !busy(t) {
        return Some(t);
      }
    }
    return None;
  }

  /** The lock file once this process has created it, and the counter file as it finds it then. */
  class CounterFiles {
    var lock: bool
    var file: CounterFile

    /** Bind from the counter, rewrite the counter, remove the lock file; a failure removes it on the way out. */
    method GetUniquePort(v: seq<nat>, busy: nat -> bool, opens: bool, read: bool, binds: nat -> bool,
                         truncates: bool, writes: bool, removes: bool)
      returns (r: Option<nat>)
      requires IsPortVector(v)
      modifies this
      ensures (forall t: nat :: t < MAX_LOCK_ATTEMPTS ==> busy(t)) ==> r.None? && unchanged(this)
      ensures (exists t: nat :: t < MAX_LOCK_ATTEMPTS && !busy(t)) ==>
        && lock == !(opens && removes)
        && (r.None? <==> !opens || NeverBinds(binds) || !truncates || !writes || !removes)
        && (!opens || NeverBinds(binds) || !truncates ==> file == old(file))
        && (opens && !NeverBinds(binds) && truncates && !writes ==> file == Short)
        && (opens && !NeverBinds(binds) && truncates && writes ==> exists a: nat ::
             && BindsAt(binds, a)
             && var start := StartAt(old(file), read);
                file == Holds((start + a + 1) % PORTS) && (removes ==> r == Some(v[(start + a) % PORTS])))
    {
      r := None;
      var attempt := AcquireLock(busy);
      if attempt.None? {
        return;
      }
      lock := true;
      if !opens {
        return;
      }
      var bound := BindPortFromCounter(v, StartAt(file, read), binds);
      if bound.Some? && truncates {
        file := Short;
        if writes {
          file := Holds(bound.value.1);
          if removes {
            r := Some(bound.value.0);
          }
        }
      }
      if removes {
        lock := false;
      }
    }
  }

  function DoAll(v: seq<nat>, s: State, steps: seq<Step>): Option<State>
    requires |v| == PORTS
    decreases |steps|
  {
    if steps == [] then Some(s)
    else
      var next := Next(v, s, steps[0]);
      if next.None? then None else DoAll(v, next.value, steps[1..])
  }

  function Succeeds(i: nat, a: nat, read: bool): seq<Step> {
    [TryLock(i, true), Bind(i, read, a, true), Truncate(i, true), Write(i, true), Release(i, true)]
  }

  function LosesCount(i: nat): seq<Step> {
    [TryLock(i, true), Bind(i, true, 0, true), Truncate(i, true), Write(i, false), Release(i, true)]
  }

  lemma FiveSteps(v: seq<nat>, s: State, steps: seq<Step>, s1: State, s2: State, s3: State, s4: State, s5: State)
    requires |v| == PORTS && |steps| == 5
    requires Next(v, s, steps[0]) == Some(s1) && Next(v, s1, steps[1]) == Some(s2) && Next(v, s2, steps[2]) == Some(s3)
    requires Next(v, s3, steps[3]) == Some(s4) && Next(v, s4, steps[4]) == Some(s5)
    ensures DoAll(v, s, steps) == Some(s5)
  {
    assert steps[4..][1..] == [] && DoAll(v, s4, steps[4..]) == Some(s5);
    assert steps[3..][1..] == steps[4..] && DoAll(v, s3, steps[3..]) == Some(s5);
    assert steps[2..][1..] == steps[3..] && DoAll(v, s2, steps[2..]) == Some(s5);
    assert steps[1..][1..] == steps[2..] && DoAll(v, s1, steps[1..]) == Some(s5);
  }

  /** The same file operations as steps of the protocol, with no other process in between. */
  lemma AloneInProtocol(v: seq<nat>, s: State, i: nat, a: nat, read: bool)
    requires IsPortVector(v) && i in s.procs && s.procs[i].Waiting? && s.procs[i].tries < MAX_LOCK_ATTEMPTS
    requires !s.lock && a < MAX_PORT_RETRIES
    ensures var end, start := DoAll(v, s, Succeeds(i, a, read)), StartAt(s.file, read);
      && end.Some? && !end.value.lock && i in end.value.procs
      && end.value.file == Holds((start + a + 1) % PORTS)
      && end.value.procs[i].Returned? && end.value.procs[i].port == v[(start + a) % PORTS]
      && end.value.procs == s.procs[i := end.value.procs[i]]
  {
    var steps := Succeeds(i, a, read);
    var s1 := Next(v, s, steps[0]).value;
    var s2 := Next(v, s1, steps[1]).value;
    var s3 := Next(v, s2, steps[2]).value;
    var s4 := Next(v, s3, steps[3]).value;
    var s5 := Next(v, s4, steps[4]).value;
    FiveSteps(v, s, steps, s1, s2, s3, s4, s5);
  }

  function FailedTries(i: nat, n: nat): seq<Step> {
    if n == 0 then [] else [TryLock(i, false)] + FailedTries(i, n - 1)
  }

  /** A process waits out failed attempts at the lock, changing nothing, and gives up after the last. */
  lemma {:induction false} WaitsOut(v: seq<nat>, s: State, i: nat, n: nat)
    requires |v| == PORTS && i in s.procs && s.procs[i].Waiting? && s.procs[i].tries + n <= MAX_LOCK_ATTEMPTS
    requires s.procs[i].tries < MAX_LOCK_ATTEMPTS
    ensures DoAll(v, s, FailedTries(i, n)) ==
      Some(s.With(i, if s.procs[i].tries + n == MAX_LOCK_ATTEMPTS then Gone else Waiting(s.procs[i].tries + n)))
    decreases n
  {
    var steps := FailedTries(i, n);
    if n == 0 {
      assert s.With(i, s.procs[i]) == s;
    } else {
      var s1 := Next(v, s, steps[0]).value;
      assert steps[1..] == FailedTries(i, n - 1);
      if n == 1 {
        assert DoAll(v, s1, []) == Some(s1);
      } else {
        WaitsOut(v, s1, i, n - 1);
        var last := DoAll(v, s1, steps[1..]).value.procs[i];
        assert s1.With(i, last) == s.With(i, last);
      }
    }
  }

  /** A write that fails after the file was emptied. */
  lemma FailedWrite(v: seq<nat>, s: State, i: nat)
    requires IsPortVector(v) && i in s.procs && s.procs[i] == Waiting(0) && !s.lock
    ensures var end := DoAll(v, s, LosesCount(i));
      end.Some? && !end.value.lock && end.value.file == Short && end.value.procs == s.procs[i := Gone]
  {
    var steps := LosesCount(i);
    var s1 := Next(v, s, steps[0]).value;
    var s2 := Next(v, s1, steps[1]).value;
    var s3 := Next(v, s2, steps[2]).value;
    var s4 := Next(v, s3, steps[3]).value;
    var s5 := Next(v, s4, steps[4]).value;
    FiveSteps(v, s, steps, s1, s2, s3, s4, s5);
  }

  /** Across a lost count ports repeat: one process gets a port, a second loses the count, a third gets that port. */
  lemma LostCountRepeats(v: seq<nat>, s: State, i: nat, j: nat, k: nat) returns (s1: State, s2: State, s3: State)
    requires IsPortVector(v) && !s.lock && s.file == Short && i != j && j != k && i != k
    requires i in s.procs && j in s.procs && k in s.procs && s.procs[i] == s.procs[j] == s.procs[k] == Waiting(0)
    ensures DoAll(v, s, Succeeds(i, 0, true)) == Some(s1)
    ensures DoAll(v, s1, LosesCount(j)) == Some(s2)
    ensures DoAll(v, s2, Succeeds(k, 0, true)) == Some(s3)
    ensures i in s3.procs && k in s3.procs && s3.procs[i].Returned? && s3.procs[k].Returned?
    ensures s3.procs[i].port == s3.procs[k].port
  {
    AloneInProtocol(v, s, i, 0, true);
    s1 := DoAll(v, s, Succeeds(i, 0, true)).value;
    FailedWrite(v, s1, j);
    s2 := DoAll(v, s1, LosesCount(j)).value;
    AloneInProtocol(v, s2, k, 0, true);
    s3 := DoAll(v, s2, Succeeds(k, 0, true)).value;
  }

  /** So do they after a failed read: one process gets a port, a second cannot read the count and gets the same port. */
  lemma FailedReadRepeats(v: seq<nat>, s: State, i: nat, j: nat) returns (s1: State, s2: State)
    requires IsPortVector(v) && !s.lock && s.file == Short && i != j
    requires i in s.procs && j in s.procs && s.procs[i] == s.procs[j] == Waiting(0)
    ensures DoAll(v, s, Succeeds(i, 0, true)) == Some(s1)
    ensures DoAll(v, s1, Succeeds(j, 0, false)) == Some(s2)
    ensures i in s2.procs && j in s2.procs && s2.procs[i].Returned? && s2.procs[j].Returned?
    ensures s2.procs[i].port == s2.procs[j].port
  {
    AloneInProtocol(v, s, i, 0, true);
    s1 := DoAll(v, s, Succeeds(i, 0, true)).value;
    AloneInProtocol(v, s1, j, 0, false);
    s2 := DoAll(v, s1, Succeeds(j, 0, false)).value;
  }
}
