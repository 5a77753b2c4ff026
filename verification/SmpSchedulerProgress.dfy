/** Conservation, fairness and balance of the SMP scheduler. */
module SmpSchedulerProgress {
  import opened Results
  import opened Arithmetic
  import opened SmpSchedulerSpec
  import opened SmpSchedulerTheorems

  // ---------- Conservation ----------

  lemma EnqueuePositions(s: Sched, c: nat, t: nat, x: nat)
    requires c < |s.queues| && t < |s.threads|
    ensures Positions(EnqueueReady(s, c, t).queues, x) == Positions(s.queues, x) + (if x == t then 1 else 0)
  {
    PositionsUpdate(s.queues, c, s.queues[c].(ready := s.queues[c].ready + [t]), x);
  }

  /** Migration moves a thread; no thread is lost or doubled. */
  lemma MigrateConserves(s: Sched, t: nat, target: nat, x: nat)
    requires t < |s.threads|
    ensures Positions(Migrate(s, t, target).0.queues, x) == Positions(s.queues, x)
  {
    var c := FirstReady(s.queues, t);
    if c < |s.queues| && s.threads[t].state == READY && target < |s.queues| && c != target {
      var q := s.queues[c].(ready := RemoveReady(s.queues[c].ready, t));
      RemovedReady(s.queues[c].ready, t);
      PositionsUpdate(s.queues, c, q, x);
      EnqueuePositions(s.(queues := s.queues[c := q]), target, t, x);
      hide Positions, RemoveReady, EnqueueReady;
    }
  }

  /** Stealing keeps every ready thread and adds none; only threads stopped from outside leave. */
  lemma StealConserves(s: Sched, source: nat, target: nat, x: nat)
    requires Inv(s) && source < |s.queues| && target < |s.queues|
    ensures Positions(Steal(s, source, target).0.queues, x) <= Positions(s.queues, x)
    ensures Runnable(s.threads, x) ==> Positions(Steal(s, source, target).0.queues, x) == Positions(s.queues, x)
  {
    var q := s.queues[source];
    var n := KeepBack(s.threads, q.ready);
    var k := if n == 0 then 0 else n - 1;
    var q' := q.(ready := q.ready[..k]);
    assert QueueOk(s, source);
    PositionsUpdate(s.queues, source, q', x);
    hide Inv, Positions, KeepBack;
    BackCounts(q.ready, k, n, x);
    if n > 0 {
      EnqueuePositions(s.(queues := s.queues[source := q']), target, q.ready[n - 1], x);
    }
    DroppedIsStopped(s.threads, q.ready, n, x);
  }

  lemma BackCounts(ready: seq<nat>, k: nat, n: nat, x: nat)
    requires k <= n <= |ready| && n <= k + 1
    ensures multiset(ready)[x] == multiset(ready[..k])[x] + (if k < n && ready[k] == x then 1 else 0) + multiset(ready[n..])[x]
  {
    if k < n {
      assert ready == ready[..k] + [ready[k]] + ready[n..];
    } else {
      assert ready == ready[..k] + ready[n..];
    }
  }

  lemma DroppedIsStopped(threads: seq<Thread>, ready: seq<nat>, n: nat, x: nat)
    requires n <= |ready| && forall i :: n <= i < |ready| ==> !Runnable(threads, ready[i])
    ensures Runnable(threads, x) ==> multiset(ready[n..])[x] == 0
  {
    if x in ready[n..] {
      var i :| 0 <= i < |ready[n..]| && ready[n..][i] == x;
      assert ready[n + i] == x;
    }
  }

  /** A thread that nobody has stopped: ready to run, or running. */
  predicate Live(s: Sched, x: nat)
  {
    x < |s.threads| && (s.threads[x].state == READY || s.threads[x].state == RUNNING)
  }

  lemma PutBackConserves(s: Sched, c: nat, x: nat)
    requires Inv(s) && c < |s.queues| && Live(s, x)
    ensures var s' := PutBack(s, c);
            |s'.queues| == |s.queues| && Positions(s'.queues, x) == Positions(s.queues, x) && Live(s', x) && s'.queues[c].current.None?
  {
    assert QueueOk(s, c);
    hide Inv, Positions;
    var q, q' := s.queues[c], PutBack(s, c).queues[c];
    assert CountIn(q', x) == CountIn(q, x);
    PositionsUpdate(s.queues, c, q', x);
    assert PutBack(s, c).queues == s.queues[c := q'];
  }

  lemma DispatchConserves(s: Sched, c: nat, x: nat)
    requires Inv(s) && c < |s.queues| && Live(s, x) && s.queues[c].current.None?
    ensures var s' := Dispatch(s, c);
            |s'.queues| == |s.queues| && Positions(s'.queues, x) == Positions(s.queues, x) && Live(s', x)
  {
    assert QueueOk(s, c);
    hide Inv, Positions, SkipFront;
    DispatchCounts(s, c, x);
    var q' := Dispatch(s, c).queues[c];
    PositionsUpdate(s.queues, c, q', x);
    assert Dispatch(s, c).queues == s.queues[c := q'];
    hide CountIn;
  }

  lemma DispatchCounts(s: Sched, c: nat, x: nat)
    requires c < |s.queues| && QueueOk(s, c) && Live(s, x) && s.queues[c].current.None?
    ensures CountIn(Dispatch(s, c).queues[c], x) == CountIn(s.queues[c], x)
  {
    var n := SkipFront(s.threads, s.queues[c].ready);
    FrontCounts(s.queues[c].ready, n, x);
    SkippedIsStopped(s, c, n, x);
    hide QueueOk, SkipFront;
  }

  lemma FrontCounts(ready: seq<nat>, n: nat, x: nat)
    requires n <= |ready|
    ensures multiset(ready)[x] == multiset(ready[..n])[x] + (if n == |ready| then 0
                                    else (if ready[n] == x then 1 else 0) + multiset(ready[n + 1..])[x])
  {
    if n == |ready| {
      assert ready[..n] == ready;
    } else {
      assert ready == ready[..n] + [ready[n]] + ready[n + 1..];
    }
  }

  lemma SkippedIsStopped(s: Sched, c: nat, n: nat, x: nat)
    requires c < |s.queues| && QueueOk(s, c) && n <= |s.queues[c].ready| && Live(s, x)
    requires forall i :: 0 <= i < n ==> !Runnable(s.threads, s.queues[c].ready[i])
    ensures multiset(s.queues[c].ready[..n])[x] == 0
  {
    var ready := s.queues[c].ready;
    forall i | 0 <= i < n ensures ready[..n][i] != x {
      assert ready[..n][i] == ready[i];
    }
  }

  /** Scheduling loses and doubles no thread that is ready or running; the preempted one included. */
  lemma ScheduleConserves(s: Sched, c: nat, x: nat)
    requires Inv(s) && c < |s.queues| && Live(s, x)
    ensures Positions(ScheduleNext(s, c).queues, x) == Positions(s.queues, x) && Live(ScheduleNext(s, c), x)
  {
    PutBackKeeps(s, c);
    PutBackConserves(s, c, x);
    DispatchConserves(PutBack(s, c), c, x);
    hide Inv, PutBack, Dispatch, Positions;
  }

  /** Blocking or ending the current thread loses and doubles no other thread that is ready or running. */
  lemma StopConserves(s: Sched, c: nat, state: ThreadState, x: nat)
    requires Inv(s) && c < |s.queues| && (state == BLOCKED || state == DEAD) && Live(s, x) && s.queues[c].current != Some(x)
    ensures Positions(StopCurrent(s, c, state).queues, x) == Positions(s.queues, x) && Live(StopCurrent(s, c, state), x)
  {
    assert QueueOk(s, c);
    if s.queues[c].current.Some? {
      var t := s.queues[c].current.value;
      HeldIsOnlyIn(s, c, t);
      var q, th := s.queues[c].(current := None), s.threads[t].(state := state);
      PositionsUpdate(s.queues, c, q, x);
      hide Once, Current, OnlyIn, ScheduleNext, Positions;
      UpdateKeeps(s, c, q, t, th);
      ScheduleConserves(Sched(s.queues[c := q], s.threads[t := th]), c, x);
    }
  }

  /** The step stops the thread: it is blocked or ended while it is current, or stopped from outside. */
  predicate Stops(s: Sched, op: Op, x: nat)
  {
    match op
    case StopOp(c, _) => c < |s.queues| && s.queues[c].current == Some(x)
    case ExternalOp(t, _) => t == x
    case _ => false
  }

  lemma EnqueueKeepsPlace(s: Sched, t: nat, target: Option<nat>, x: nat)
    requires Inv(s) && t < |s.threads| && s.queues != [] && Live(s, x) && Positions(s.queues, x) == 1
    ensures Positions(Enqueue(s, t, target).0.queues, x) == 1 && Live(Enqueue(s, t, target).0, x)
  {
    var r := Enqueue(s, t, target).1;
    if r.Ok? {
      EnqueuePositions(s, r.value, t, x);
      if t == x {
        NotHeld(s.queues, x);
        assert false;
      }
    }
    hide Inv, Positions, LeastLoaded, FirstHolding;
  }

  lemma StealKeepsPlace(s: Sched, source: nat, target: nat, x: nat)
    requires Inv(s) && source < |s.queues| && target < |s.queues| && Live(s, x) && Positions(s.queues, x) == 1
    ensures Positions(Steal(s, source, target).0.queues, x) == 1 && Live(Steal(s, source, target).0, x)
  {
    StealConserves(s, source, target, x);
    var q := s.queues[source];
    var n := KeepBack(s.threads, q.ready);
    assert QueueOk(s, source);
    if !Runnable(s.threads, x) {
      RunningStays(s, source, target, x);
    }
    hide Inv, Positions, KeepBack;
  }

  /** A running thread is not among the queued ones, so that theft leaves it where it is. */
  lemma RunningStays(s: Sched, source: nat, target: nat, x: nat)
    requires Inv(s) && source < |s.queues| && target < |s.queues| && x < |s.threads| && s.threads[x].state == RUNNING
    ensures Positions(Steal(s, source, target).0.queues, x) == Positions(s.queues, x)
  {
    var q := s.queues[source];
    var n := KeepBack(s.threads, q.ready);
    var k := if n == 0 then 0 else n - 1;
    assert QueueOk(s, source);
    assert x !in q.ready;
    PositionsUpdate(s.queues, source, q.(ready := q.ready[..k]), x);
    hide Inv, Positions, KeepBack;
    assert x !in q.ready[..k];
    if n > 0 {
      EnqueuePositions(s.(queues := s.queues[source := q.(ready := q.ready[..k])]), target, q.ready[n - 1], x);
    }
  }

  /** A step that does not stop a thread keeps it in exactly one place, ready or running. */
  lemma StepKeepsPlace(s: Sched, op: Op, x: nat)
    requires Inv(s) && s.queues != [] && Live(s, x) && Positions(s.queues, x) == 1 && !Stops(s, op, x)
    ensures Positions(Step(s, op).queues, x) == 1 && Live(Step(s, op), x)
  {
    hide Inv, ScheduleNext, StopCurrent, Steal, Enqueue, Positions, LeastLoaded, Busiest;
    match op
    case EnqueueOp(t, target) => if t < |s.threads| { EnqueueKeepsPlace(s, t, target, x); }
    case ScheduleOp(c) => if c < |s.queues| { ScheduleConserves(s, c, x); }
    case StopOp(c, dead) => if c < |s.queues| { StopConserves(s, c, Halt(dead), x); }
    case MigrateOp(t, target) => if t < |s.threads| { MigrateConserves(s, t, target, x); }
    case StealOp(source, target) => if source < |s.queues| && target < |s.queues| { StealKeepsPlace(s, source, target, x); }
    case RebalanceOp => StealKeepsPlace(s, Busiest(s.queues, |s.queues|), LeastLoaded(s.queues, |s.queues|), x);
    case ExternalOp(t, dead) =>
  }

  /** No step of the run stops the thread. */
  predicate NeverStopped(s: Sched, ops: seq<Op>, x: nat)
    requires s.queues != []
    decreases |ops|
  {
    ops == [] || (!Stops(s, ops[0], x) && (Step(s, ops[0]).queues == [] || NeverStopped(Step(s, ops[0]), ops[1..], x)))
  }

  /** Over every run that does not stop it, a thread that was enqueued has exactly one place, and is ready or running: none is ever lost. */
  lemma {:induction false} NoThreadIsLost(s: Sched, ops: seq<Op>, x: nat)
    requires Inv(s) && s.queues != [] && Live(s, x) && Positions(s.queues, x) == 1 && NeverStopped(s, ops, x)
    ensures Positions(Run(s, ops).queues, x) == 1 && Live(Run(s, ops), x)
    decreases |ops|
  {
    hide Inv, Step, Positions, Live, Stops;
    if ops != [] {
      StepKeeps(s, ops[0]);
      StepKeepsPlace(s, ops[0], x);
      NoThreadIsLost(Step(s, ops[0]), ops[1..], x);
    }
  }

  // ---------- What each call does ----------

  predicate IsReady(threads: seq<Thread>, t: nat)
  {
    t < |threads| && threads[t].state == READY
  }

  /** Waiting and running threads of a core. */
  function ThreadsOn(q: Queue): nat
  {
    |q.ready| + if q.current == None then 0 else 1
  }

  /** The first ready thread of a list is at this position. */
  ghost predicate FirstRunnable(threads: seq<Thread>, ready: seq<nat>, k: nat)
  {
    k < |ready| && IsReady(threads, ready[k]) && forall j :: 0 <= j < k ==> !IsReady(threads, ready[j])
  }

  ghost predicate NoneRunnable(threads: seq<Thread>, ready: seq<nat>)
  {
    forall j :: 0 <= j < |ready| ==> !IsReady(threads, ready[j])
  }

  /** Everything but one queue, and but these two threads, stays. */
  ghost predicate OnlyTouches(s: Sched, s': Sched, c: nat, t: Option<nat>, u: Option<nat>)
  {
    && |s'.queues| == |s.queues| && |s'.threads| == |s.threads|
    && (forall d :: 0 <= d < |s.queues| && d != c ==> s'.queues[d] == s.queues[d])
    && (forall x: nat :: x < |s.threads| && t != Some(x) && u != Some(x) ==> s'.threads[x] == s.threads[x])
  }

  /**
   schedule_next on a running thread: it becomes READY behind all others and the first ready one runs, or
   it runs again if no other is ready.
   */
  lemma PreemptedWaitsLast(s: Sched, c: nat, t: nat, k: nat)
    requires Inv(s) && c < |s.queues| && s.queues[c].current == Some(t) && t < |s.threads| && s.threads[t].state == RUNNING
    ensures var s', ready := ScheduleNext(s, c), s.queues[c].ready;
            && (FirstRunnable(s.threads, ready, k) ==>
                  && s'.queues[c] == Queue(Some(ready[k]), ready[k + 1..] + [t])
                  && s'.threads[ready[k]] == Thread(RUNNING, c) && s'.threads[t] == s.threads[t].(state := READY)
                  && OnlyTouches(s, s', c, Some(t), Some(ready[k])))
            && (NoneRunnable(s.threads, ready) ==>
                  && s'.queues[c] == Queue(Some(t), []) && s'.threads[t] == Thread(RUNNING, c) && OnlyTouches(s, s', c, Some(t), None))
  {
    var ready := s.queues[c].ready;
    var s1 := PutBack(s, c);
    HeldIsOnlyIn(s, c, t);
    assert QueueOk(s, c);
    forall i | 0 <= i < |ready| ensures ready[i] != t {
      assert s.threads[ready[i]].state != RUNNING;
    }
    assert s1.queues[c].ready == ready + [t] && forall i :: 0 <= i < |ready| ==> (ready + [t])[i] == ready[i];
    hide Inv, OnlyIn;
    assert forall i :: 0 <= i < |ready| ==> Runnable(s1.threads, ready[i]) == Runnable(s.threads, ready[i]);
    assert Runnable(s1.threads, (ready + [t])[|ready|]);
    if FirstRunnable(s.threads, ready, k) {
      assert SkipFront(s1.threads, ready + [t]) == k;
      assert (ready + [t])[k + 1..] == ready[k + 1..] + [t];
    } else if NoneRunnable(s.threads, ready) {
      assert SkipFront(s1.threads, ready + [t]) == |ready|;
      assert (ready + [t])[|ready| + 1..] == [];
    }
  }

  /** schedule_next on a core without a running thread: the first ready one runs, and those before it leave; or the core is idle. */
  lemma IdleCoreTakesFirst(s: Sched, c: nat, k: nat)
    requires c < |s.queues|
    requires s.queues[c].current.Some? ==> s.queues[c].current.value < |s.threads| && s.threads[s.queues[c].current.value].state != RUNNING
    ensures var s', ready := ScheduleNext(s, c), s.queues[c].ready;
            && (FirstRunnable(s.threads, ready, k) ==>
                  && s'.queues[c] == Queue(Some(ready[k]), ready[k + 1..]) && s'.threads[ready[k]] == Thread(RUNNING, c)
                  && OnlyTouches(s, s', c, Some(ready[k]), None))
            && (NoneRunnable(s.threads, ready) ==> s'.queues[c] == Queue(None, []) && OnlyTouches(s, s', c, None, None))
  {
    var ready := s.queues[c].ready;
    if FirstRunnable(s.threads, ready, k) {
      assert SkipFront(s.threads, ready) == k;
    } else if NoneRunnable(s.threads, ready) {
      assert SkipFront(s.threads, ready) == |ready|;
    }
  }

  /** block_current and exit_current: the thread gets its state, and the core goes on as an idle one. */
  lemma StopThenIdle(s: Sched, c: nat, state: ThreadState, t: nat)
    requires c < |s.queues| && s.queues[c].current == Some(t) && t < |s.threads|
    ensures var idle := Sched(s.queues[c := Queue(None, s.queues[c].ready)], s.threads[t := Thread(state, s.threads[t].core)]);
            StopCurrent(s, c, state) == ScheduleNext(idle, c)
  {
  }

  /** enqueue and wake: accepted exactly for a thread in no place that is neither dead nor running, on a core that exists. */
  lemma EnqueueIff(s: Sched, t: nat, target: Option<nat>)
    requires t < |s.threads| && s.queues != []
    ensures var (s', r) := Enqueue(s, t, target);
            var free := s.threads[t].state != DEAD && s.threads[t].state != RUNNING && Positions(s.queues, t) == 0;
            && (r.Ok? <==> free && (target.None? || target.value < |s.queues|))
            && (r == Err(LogicError) <==> !free)
            && (r == Err(OutOfRange) <==> free && target.Some? && target.value >= |s.queues|)
            && (r.Err? ==> s' == s)
  {
    HeldMeansPlaced(s, t);
    hide Positions, LeastLoaded, FirstHolding, EnqueueReady;
  }

  lemma HeldMeansPlaced(s: Sched, t: nat)
    ensures FirstHolding(s.queues, t) == |s.queues| <==> Positions(s.queues, t) == 0
  {
    var c := FirstHolding(s.queues, t);
    if c < |s.queues| {
      HoldsCounts(s.queues[c], t);
      PositionsUpdate(s.queues, c, s.queues[c], t);
    } else {
      NotHeld(s.queues, t);
    }
    hide Positions;
  }

  /**
   An accepted thread waits, READY, behind all others of its core, its only place: the core asked for, or the first
   with the least load.
   */
  lemma EnqueuedWaitsLast(s: Sched, t: nat, target: Option<nat>)
    requires t < |s.threads| && s.queues != [] && Enqueue(s, t, target).1.Ok?
    ensures var (s', r) := Enqueue(s, t, target);
            && r.value < |s.queues|
            && (target.Some? ==> r.value == target.value)
            && (target.None? ==> (forall d :: 0 <= d < |s.queues| ==> ThreadsOn(s.queues[r.value]) <= ThreadsOn(s.queues[d]))
                                 && (forall d :: 0 <= d < r.value ==> ThreadsOn(s.queues[r.value]) < ThreadsOn(s.queues[d])))
            && s'.queues[r.value].ready == s.queues[r.value].ready + [t] && s'.queues[r.value].current == s.queues[r.value].current
            && s'.threads[t] == Thread(READY, r.value) && OnlyTouches(s, s', r.value, Some(t), None)
            && Positions(s'.queues, t) == 1
  {
    HeldMeansPlaced(s, t);
    EnqueuePositions(s, Enqueue(s, t, target).1.value, t, t);
    hide Positions, FirstHolding;
  }

  /** migrate_ready: accepted exactly for a READY thread in a queue and a core that exists; it leaves its queue and waits behind all others of the other. */
  lemma MigrateIff(s: Sched, t: nat, target: nat, c: nat, i: nat)
    requires Inv(s) && t < |s.threads| && c < |s.queues| && i < |s.queues[c].ready| && s.queues[c].ready[i] == t
    ensures var (s', r) := Migrate(s, t, target);
            && (r.Ok? <==> s.threads[t].state == READY && target < |s.queues|)
            && (r == Err(LogicError) <==> s.threads[t].state != READY)
            && (r == Err(OutOfRange) <==> s.threads[t].state == READY && target >= |s.queues|)
            && (r.Err? || target == c ==> s' == s)
            && (r.Ok? ==> r.value == c)
            && (r.Ok? && target != c ==>
                  && s'.queues == s.queues[c := s.queues[c].(ready := s.queues[c].ready[..i] + s.queues[c].ready[i + 1..])]
                                          [target := s.queues[target].(ready := s.queues[target].ready + [t])]
                  && s'.threads == s.threads[t := Thread(READY, target)])
  {
    HeldIsOnlyIn(s, c, t);
    var ready := s.queues[c].ready;
    var d := FirstReady(s.queues, t);
    assert d < |s.queues| ==> Holds(s.queues[d], t);
    assert d == c;
    OthersCount(ready, i);
    forall j | 0 <= j < |ready| && j != i ensures ready[j] != t {
      if j < i { assert ready[..i][j] == ready[j]; } else { assert ready[i + 1..][j - i - 1] == ready[j]; }
    }
    assert IndexOf(ready, t) == i;
    hide Inv, OnlyIn;
  }

  /** A thread in no queue is refused. */
  lemma MigrateRefusesUnqueued(s: Sched, t: nat, target: nat)
    requires t < |s.threads| && forall c :: 0 <= c < |s.queues| ==> t !in s.queues[c].ready
    ensures Migrate(s, t, target) == (s, Err(LogicError))
  {
  }

  /** steal_one: the last ready thread of the source, with those behind it gone, waits behind all others of the target; none if none is ready. */
  lemma StealTakesLast(s: Sched, source: nat, target: nat, k: nat)
    requires source < |s.queues| && target < |s.queues|
    ensures var (s', r) := Steal(s, source, target);
            var ready := s.queues[source].ready;
            && (k < |ready| && IsReady(s.threads, ready[k]) && (forall j :: k < j < |ready| ==> !IsReady(s.threads, ready[j])) ==>
                  && r == Some(ready[k])
                  && (source != target ==>
                        s'.queues == s.queues[source := s.queues[source].(ready := ready[..k])]
                                             [target := s.queues[target].(ready := s.queues[target].ready + [ready[k]])])
                  && (source == target ==> s'.queues == s.queues[source := s.queues[source].(ready := ready[..k] + [ready[k]])])
                  && s'.threads == s.threads[ready[k] := Thread(READY, target)])
            && (NoneRunnable(s.threads, ready) ==>
                  r == None && s' == s.(queues := s.queues[source := s.queues[source].(ready := [])]))
  {
    var ready := s.queues[source].ready;
    var n := KeepBack(s.threads, ready);
    if k < |ready| && IsReady(s.threads, ready[k]) && (forall j :: k < j < |ready| ==> !IsReady(s.threads, ready[j])) {
      assert n == k + 1;
    } else if NoneRunnable(s.threads, ready) {
      assert n == 0;
    }
  }

  /** rebalance_once: theft from the first queue with the most ready threads for the first with the least load, if they differ by more than one. */
  lemma RebalanceSteals(s: Sched, c: nat, d: nat)
    requires c < |s.queues| && d < |s.queues|
    requires forall e :: 0 <= e < |s.queues| ==> |s.queues[e].ready| <= |s.queues[c].ready| && ThreadsOn(s.queues[d]) <= ThreadsOn(s.queues[e])
    requires forall e :: 0 <= e < c ==> |s.queues[e].ready| < |s.queues[c].ready|
    requires forall e :: 0 <= e < d ==> ThreadsOn(s.queues[d]) < ThreadsOn(s.queues[e])
    ensures Rebalance(s) == if c == d || |s.queues[c].ready| <= ThreadsOn(s.queues[d]) + 1 then (s, None) else Steal(s, c, d)
  {
    var b, l := Busiest(s.queues, |s.queues|), LeastLoaded(s.queues, |s.queues|);
    assert b == c && l == d;
  }

  // ---------- Balance ----------

  function SumSquares(queues: seq<Queue>): nat
  {
    if queues == [] then 0 else Load(queues[0]) * Load(queues[0]) + SumSquares(queues[1..])
  }

  lemma {:induction false} SquaresUpdate(queues: seq<Queue>, c: nat, q: Queue)
    requires c < |queues|
    ensures SumSquares(queues[c := q]) == SumSquares(queues) - Load(queues[c]) * Load(queues[c]) + Load(q) * Load(q)
  {
    if c == 0 {
      assert queues[0 := q][1..] == queues[1..];
    } else {
      SquaresUpdate(queues[1..], c - 1, q);
      assert queues[c := q][1..] == queues[1..][c - 1 := q];
    }
  }

  lemma SquaresFall(a: nat, a': nat, b: nat)
    requires a' < a && b + 1 < a
    ensures a' * a' + (b + 1) * (b + 1) < a * a + b * b
  {
    SquareMonotone(a', a - 1);
    SquareOfNext(a - 1);
    SquareOfNext(b);
  }

  lemma SquareMonotone(x: nat, y: nat)
    requires x <= y
    ensures x * x <= y * y
  {
    if x > 0 {
      MulOrder(x, x, y);
      MulOrder(y, x, y);
      assert x * y == y * x;
    } else if y > 0 {
      MulOrder(y, 0, y);
    }
  }

  lemma SquareOfNext(x: nat)
    ensures (x + 1) * (x + 1) == x * x + 2 * x + 1
  {
  }

  /** Each rebalance that moves a thread strictly lowers the sum of squared loads. */
  lemma RebalanceLowers(s: Sched)
    requires s.queues != [] && Inv(s) && Rebalance(s).1.Some?
    ensures Rebalance(s).0.queues != [] && SumSquares(Rebalance(s).0.queues) < SumSquares(s.queues)
  {
    var source, target := Busiest(s.queues, |s.queues|), LeastLoaded(s.queues, |s.queues|);
    var q := s.queues[source];
    var n := KeepBack(s.threads, q.ready);
    assert QueueOk(s, source);
    var q1 := q.(ready := q.ready[..n - 1]);
    var t := q.ready[n - 1];
    var q2 := s.queues[target].(ready := s.queues[target].ready + [t]);
    SquaresUpdate(s.queues, source, q1);
    SquaresUpdate(s.queues[source := q1], target, q2);
    SquaresFall(Load(q), Load(q1), Load(s.queues[target]));
    hide Inv, Busiest, LeastLoaded, KeepBack, SumSquares;
  }

  /** Nothing to move means balanced, and the other way round. */
  lemma RebalanceStopsIffBalanced(s: Sched)
    requires s.queues != [] && Inv(s) && Undisturbed(s)
    ensures Rebalance(s).1.None? <==>
            forall c: nat, d: nat :: c < |s.queues| && d < |s.queues| ==> |s.queues[c].ready| <= Load(s.queues[d]) + 1
  {
    var source, target := Busiest(s.queues, |s.queues|), LeastLoaded(s.queues, |s.queues|);
    StealUndisturbed(s, source, target);
    hide Inv, Undisturbed;
    if Rebalance(s).1.None? {
      forall c: nat, d: nat | c < |s.queues| && d < |s.queues| ensures |s.queues[c].ready| <= Load(s.queues[d]) + 1 {
        assert |s.queues[c].ready| <= |s.queues[source].ready| && Load(s.queues[target]) <= Load(s.queues[d]);
      }
    }
  }

  /** A run of n rebalances that all move a thread. */
  ghost predicate Moves(s: Sched, n: nat)
    requires s.queues != []
    decreases n
  {
    n == 0 || (Rebalance(s).1.Some? && Rebalance(s).0.queues != [] && Moves(Rebalance(s).0, n - 1))
  }

  /** Rebalancing terminates: no run of moving rebalances is longer than the sum of squared loads. */
  lemma {:induction false} RebalancingTerminates(s: Sched, n: nat)
    requires s.queues != [] && Inv(s) && Moves(s, n)
    ensures n <= SumSquares(s.queues)
    decreases n
  {
    hide Inv, Rebalance;
    if n > 0 {
      RebalanceLowers(s);
      StepKeeps(s, RebalanceOp);
      assert Step(s, RebalanceOp) == Rebalance(s).0;
      RebalancingTerminates(Rebalance(s).0, n - 1);
    }
  }

  // ---------- Waiting ----------

  /** Thread t waits, ready, at position i of core c. */
  ghost predicate Waits(s: Sched, c: nat, i: nat, t: nat)
  {
    c < |s.queues| && i < |s.queues[c].ready| && s.queues[c].ready[i] == t && Runnable(s.threads, t)
  }

  ghost predicate WaitsWithin(s: Sched, c: nat, i: nat, t: nat)
  {
    exists j: nat :: j <= i && Waits(s, c, j, t)
  }

  /** The step takes t away: migration, theft, or a stop from outside. */
  predicate Takes(s: Sched, op: Op, t: nat)
    requires s.queues != []
  {
    match op
    case MigrateOp(x, _) => x == t
    case ExternalOp(x, _) => x == t
    case StealOp(source, target) => source < |s.queues| && target < |s.queues| && Steal(s, source, target).1 == Some(t)
    case RebalanceOp => Rebalance(s).1 == Some(t)
    case _ => false
  }

  /** The step chooses a next thread on core c. */
  predicate Advances(s: Sched, op: Op, c: nat)
  {
    match op
    case ScheduleOp(x) => x == c
    case StopOp(x, _) => x == c < |s.queues| && s.queues[c].current.Some?
    case _ => false
  }

  lemma WaiterIsAlone(s: Sched, c: nat, i: nat, t: nat)
    requires Inv(s) && Waits(s, c, i, t)
    ensures OnlyIn(s.queues, c, t) && s.queues[c].current != Some(t)
    ensures forall j :: 0 <= j < |s.queues[c].ready| && j != i ==> s.queues[c].ready[j] != t
  {
    HeldIsOnlyIn(s, c, t);
    var ready := s.queues[c].ready;
    OthersCount(ready, i);
    forall j | 0 <= j < |ready| && j != i ensures ready[j] != t {
      if j < i { assert ready[..i][j] == ready[j]; } else { assert ready[i + 1..][j - i - 1] == ready[j]; }
    }
  }

  lemma DispatchAdvances(s: Sched, c: nat, i: nat, t: nat)
    requires Waits(s, c, i, t) && (forall j :: 0 <= j < |s.queues[c].ready| && j != i ==> s.queues[c].ready[j] != t)
    ensures var s' := Dispatch(s, c);
            |s'.queues| == |s.queues| && (s'.queues[c].current == Some(t) || (i > 0 && WaitsWithin(s', c, i - 1, t)))
  {
    var n := SkipFront(s.threads, s.queues[c].ready);
    assert n <= i;
    var s' := Dispatch(s, c);
    if n < i {
      assert s'.queues[c].ready[i - n - 1] == s.queues[c].ready[i];
      assert Waits(s', c, i - n - 1, t);
    }
  }

  lemma ScheduleAdvances(s: Sched, c: nat, i: nat, t: nat)
    requires Inv(s) && Waits(s, c, i, t)
    ensures var s' := ScheduleNext(s, c);
            |s'.queues| == |s.queues| && (s'.queues[c].current == Some(t) || (i > 0 && WaitsWithin(s', c, i - 1, t)))
  {
    WaiterIsAlone(s, c, i, t);
    hide Inv, OnlyIn;
    var s1 := PutBack(s, c);
    assert Waits(s1, c, i, t);
    DispatchAdvances(s1, c, i, t);
    hide Dispatch;
  }

  lemma StopAdvances(s: Sched, c: nat, i: nat, t: nat, state: ThreadState)
    requires Inv(s) && Waits(s, c, i, t) && s.queues[c].current.Some? && (state == BLOCKED || state == DEAD)
    ensures var s' := StopCurrent(s, c, state);
            |s'.queues| == |s.queues| && (s'.queues[c].current == Some(t) || (i > 0 && WaitsWithin(s', c, i - 1, t)))
  {
    assert QueueOk(s, c);
    WaiterIsAlone(s, c, i, t);
    var x := s.queues[c].current.value;
    HeldIsOnlyIn(s, c, x);
    var q, th := s.queues[c].(current := None), s.threads[x].(state := state);
    hide Once, Current, OnlyIn, ScheduleNext;
    UpdateKeeps(s, c, q, x, th);
    var s1 := Sched(s.queues[c := q], s.threads[x := th]);
    assert Waits(s1, c, i, t);
    ScheduleAdvances(s1, c, i, t);
  }

  /** On other cores, scheduling leaves a waiting thread where it is. */
  lemma OtherCoreKeepsWaiting(s: Sched, c: nat, i: nat, t: nat, d: nat)
    requires Inv(s) && Waits(s, c, i, t) && d < |s.queues| && d != c
    ensures Waits(ScheduleNext(s, d), c, i, t)
  {
    WaiterIsAlone(s, c, i, t);
    assert !Holds(s.queues[d], t);
    hide Inv, OnlyIn;
    assert Waits(PutBack(s, d), c, i, t) && !Holds(PutBack(s, d).queues[d], t);
    hide PutBack;
  }

  lemma OtherStopKeepsWaiting(s: Sched, c: nat, i: nat, t: nat, d: nat, state: ThreadState)
    requires Inv(s) && Waits(s, c, i, t) && d < |s.queues| && d != c && (state == BLOCKED || state == DEAD)
    ensures Waits(StopCurrent(s, d, state), c, i, t)
  {
    WaiterIsAlone(s, c, i, t);
    assert QueueOk(s, d) && !Holds(s.queues[d], t);
    if s.queues[d].current.Some? {
      var x := s.queues[d].current.value;
      HeldIsOnlyIn(s, d, x);
      var q, th := s.queues[d].(current := None), s.threads[x].(state := state);
      hide Once, Current, OnlyIn, ScheduleNext;
      UpdateKeeps(s, d, q, x, th);
      var s1 := Sched(s.queues[d := q], s.threads[x := th]);
      assert Waits(s1, c, i, t);
      OtherCoreKeepsWaiting(s1, c, i, t, d);
    }
  }

  lemma EnqueueKeepsWaiting(s: Sched, c: nat, i: nat, t: nat, d: nat, x: nat)
    requires Waits(s, c, i, t) && d < |s.queues| && x < |s.threads| && x != t
    ensures Waits(EnqueueReady(s, d, x), c, i, t)
  {
  }

  lemma StealKeepsWaiting(s: Sched, c: nat, i: nat, t: nat, source: nat, target: nat)
    requires Inv(s) && Waits(s, c, i, t) && source < |s.queues| && target < |s.queues| && Steal(s, source, target).1 != Some(t)
    ensures Waits(Steal(s, source, target).0, c, i, t)
  {
    var q := s.queues[source];
    var n := KeepBack(s.threads, q.ready);
    assert QueueOk(s, source);
    hide Inv;
    var k := if n == 0 then 0 else n - 1;
    var s1 := s.(queues := s.queues[source := q.(ready := q.ready[..k])]);
    assert source == c ==> i < n;
    assert source == c ==> i != n - 1;
    assert Waits(s1, c, i, t);
    if n > 0 {
      assert q.ready[n - 1] != t;
      EnqueueKeepsWaiting(s1, c, i, t, target, q.ready[n - 1]);
    }
  }

  lemma RemovalShifts(ready: seq<nat>, x: nat, i: nat)
    requires x in ready && i < |ready| && ready[i] != x
    ensures exists j: nat :: j <= i && j < |RemoveReady(ready, x)| && RemoveReady(ready, x)[j] == ready[i]
  {
    var k := IndexOf(ready, x);
    ShiftAt(ready, k, i);
    assert RemoveReady(ready, x) == ready[..k] + ready[k + 1..];
    hide IndexOf, RemoveReady;
    var j := if k < i then i - 1 else i;
    assert RemoveReady(ready, x)[j] == ready[i];
  }

  lemma ShiftAt(ready: seq<nat>, k: nat, i: nat)
    requires k < |ready| && i < |ready| && i != k
    ensures var j := if k < i then i - 1 else i; (ready[..k] + ready[k + 1..])[j] == ready[i]
  {
  }

  lemma MigrateKeepsWaiting(s: Sched, c: nat, i: nat, t: nat, x: nat, target: nat)
    requires Waits(s, c, i, t) && x < |s.threads| && x != t
    ensures WaitsWithin(Migrate(s, x, target).0, c, i, t)
  {
    var d := FirstReady(s.queues, x);
    if d < |s.queues| && s.threads[x].state == READY && target < |s.queues| && d != target {
      var q := s.queues[d].(ready := RemoveReady(s.queues[d].ready, x));
      var s1 := s.(queues := s.queues[d := q]);
      var j := i;
      if d == c {
        RemovalShifts(s.queues[c].ready, x, i);
        var m: nat :| m <= i && m < |q.ready| && q.ready[m] == t;
        j := m;
      }
      hide RemoveReady, FirstReady;
      assert Waits(s1, c, j, t);
      EnqueueKeepsWaiting(s1, c, j, t, target, x);
    } else {
      assert Waits(Migrate(s, x, target).0, c, i, t);
    }
  }

  /** Every step that does not take t leaves it at most as far from running, and a step that chooses on its core brings it closer. */
  lemma StepProgress(s: Sched, op: Op, c: nat, i: nat, t: nat)
    requires Inv(s) && s.queues != [] && Waits(s, c, i, t) && !Takes(s, op, t)
    ensures var s' := Step(s, op);
            && |s'.queues| == |s.queues|
            && (Advances(s, op, c) ==> s'.queues[c].current == Some(t) || (i > 0 && WaitsWithin(s', c, i - 1, t)))
            && (!Advances(s, op, c) ==> WaitsWithin(s', c, i, t))
  {
    StepKeeps(s, op);
    hide Inv, ScheduleNext, StopCurrent, Migrate, Steal, FirstHolding, LeastLoaded, Busiest, WaitsWithin;
    WaitsNow(s, c, i, t);
    match op
    case EnqueueOp(x, target) =>
      if x < |s.threads| && Enqueue(s, x, target).1.Ok? {
        WaiterIsHeld(s, c, i, t);
        EnqueueKeepsWaiting(s, c, i, t, Enqueue(s, x, target).1.value, x);
        WaitsNow(Step(s, op), c, i, t);
      }
    case ScheduleOp(d) =>
      if d == c {
        ScheduleAdvances(s, c, i, t);
      } else if d < |s.queues| {
        OtherCoreKeepsWaiting(s, c, i, t, d);
        WaitsNow(Step(s, op), c, i, t);
      }
    case StopOp(d, dead) =>
      if d == c {
        if s.queues[c].current.Some? { StopAdvances(s, c, i, t, Halt(dead)); } else { NothingToStop(s, c, Halt(dead)); }
      } else if d < |s.queues| {
        OtherStopKeepsWaiting(s, c, i, t, d, Halt(dead));
        WaitsNow(Step(s, op), c, i, t);
      }
    case MigrateOp(x, target) => if x < |s.threads| { MigrateKeepsWaiting(s, c, i, t, x, target); }
    case StealOp(source, target) =>
      if source < |s.queues| && target < |s.queues| {
        StealKeepsWaiting(s, c, i, t, source, target);
        WaitsNow(Step(s, op), c, i, t);
      }
    case RebalanceOp =>
      if Rebalance(s).0 != s {
        StealKeepsWaiting(s, c, i, t, Busiest(s.queues, |s.queues|), LeastLoaded(s.queues, |s.queues|));
        WaitsNow(Step(s, op), c, i, t);
      }
    case ExternalOp(x, dead) => if x < |s.threads| { WaitsNow(Step(s, op), c, i, t); }
  }

  lemma WaitsNow(s: Sched, c: nat, i: nat, t: nat)
    requires Waits(s, c, i, t)
    ensures WaitsWithin(s, c, i, t)
  {
  }

  lemma WaiterIsHeld(s: Sched, c: nat, i: nat, t: nat)
    requires Waits(s, c, i, t)
    ensures FirstHolding(s.queues, t) < |s.queues|
  {
    assert Holds(s.queues[c], t);
  }

  lemma NothingToStop(s: Sched, c: nat, state: ThreadState)
    requires c < |s.queues| && s.queues[c].current.None?
    ensures StopCurrent(s, c, state) == s
  {
  }

  /** No step of the run takes t. */
  ghost predicate LeavesAlone(s: Sched, ops: seq<Op>, t: nat)
    requires s.queues != []
    decreases |ops|
  {
    ops == [] ||
    (!Takes(s, ops[0], t) && Step(s, ops[0]).queues != [] && LeavesAlone(Step(s, ops[0]), ops[1..], t))
  }

  ghost function AdvanceCount(s: Sched, ops: seq<Op>, c: nat): nat
    requires s.queues != []
    decreases |ops|
  {
    if ops == [] || Step(s, ops[0]).queues == [] then 0
    else (if Advances(s, ops[0], c) then 1 else 0) + AdvanceCount(Step(s, ops[0]), ops[1..], c)
  }

  /**
   Bounded waiting: in any run that does not take it away, a thread at ready position i runs once
   its core has chosen a next thread i + 1 times, whatever happens on the other cores.
   */
  lemma {:induction false} BoundedWaiting(s: Sched, ops: seq<Op>, c: nat, i: nat, t: nat) returns (k: nat)
    requires Inv(s) && s.queues != [] && Waits(s, c, i, t) && LeavesAlone(s, ops, t) && AdvanceCount(s, ops, c) > i
    ensures k <= |ops| && c < |Run(s, ops[..k]).queues| && Run(s, ops[..k]).queues[c].current == Some(t)
    decreases |ops|
  {
    hide Inv, Step, Advances, Takes, Waits;
    var op := ops[0];
    var s' := Step(s, op);
    assert c < |s.queues| by { WaitsInRange(s, c, i, t); }
    StepProgress(s, op, c, i, t);
    StepKeeps(s, op);
    if Advances(s, op, c) && s'.queues[c].current == Some(t) {
      k := 1;
      assert ops[..1] == [op] && [op][1..] == [];
      assert Run(s, [op]) == Run(s', []);
    } else {
      var bound := if Advances(s, op, c) then i - 1 else i;
      assert WaitsWithin(s', c, bound, t);
      var j: nat :| j <= bound && Waits(s', c, j, t);
      var m := BoundedWaiting(s', ops[1..], c, j, t);
      k := m + 1;
      assert ops[..k][1..] == ops[1..][..m];
    }
  }

  lemma WaitsInRange(s: Sched, c: nat, i: nat, t: nat)
    requires Waits(s, c, i, t)
    ensures c < |s.queues|
  {
  }

  // ---------- Exact turns ----------

  /** n scheduling steps of one core. */
  function Turns(s: Sched, c: nat, n: nat): Sched
    requires c < |s.queues|
    decreases n
  {
    if n == 0 then s
    else var s' := ScheduleNext(s, c); if c < |s'.queues| then Turns(s', c, n - 1) else s'
  }

  lemma ScheduleShifts(s: Sched, c: nat)
    requires Inv(s) && Undisturbed(s) && c < |s.queues| && s.queues[c].ready != []
    ensures var s' := ScheduleNext(s, c);
            && |s'.queues| == |s.queues| && Inv(s') && Undisturbed(s')
            && s'.queues[c].current == Some(s.queues[c].ready[0])
            && |s'.queues[c].ready| >= |s.queues[c].ready| - 1
            && forall j :: 0 <= j < |s.queues[c].ready| - 1 ==> s'.queues[c].ready[j] == s.queues[c].ready[j + 1]
  {
    ScheduleKeeps(s, c);
    ScheduleUndisturbed(s, c);
    PutBackKeeps(s, c);
    PutBackUndisturbed(s, c);
    DispatchUndisturbed(PutBack(s, c), c);
    assert QueueReady(s, c);
    hide Inv, Undisturbed, Dispatch;
  }

  /** With nothing stopped from outside, the thread at position i runs after exactly i + 1 turns, and not before. */
  lemma {:induction false} TurnIsExact(s: Sched, c: nat, i: nat)
    requires Inv(s) && Undisturbed(s) && c < |s.queues| && i < |s.queues[c].ready|
    ensures c < |Turns(s, c, i + 1).queues| && Turns(s, c, i + 1).queues[c].current == Some(s.queues[c].ready[i])
    ensures forall n: nat :: n <= i ==>
              c < |Turns(s, c, n).queues| && Turns(s, c, n).queues[c].current != Some(s.queues[c].ready[i])
    decreases i
  {
    hide Undisturbed, ScheduleNext;
    var t := s.queues[c].ready[i];
    ScheduleShifts(s, c);
    var s' := ScheduleNext(s, c);
    WaitingIsNotCurrent(s, c, i);
    if i == 0 {
      assert Turns(s', c, 0) == s';
    } else {
      TurnIsExact(s', c, i - 1);
      forall n: nat | n <= i ensures c < |Turns(s, c, n).queues| && Turns(s, c, n).queues[c].current != Some(t) {
        if n > 0 { assert Turns(s, c, n) == Turns(s', c, n - 1); }
      }
    }
  }

  lemma WaitingIsNotCurrent(s: Sched, c: nat, i: nat)
    requires Inv(s) && c < |s.queues| && i < |s.queues[c].ready|
    ensures s.queues[c].current != Some(s.queues[c].ready[i])
  {
    HeldIsOnlyIn(s, c, s.queues[c].ready[i]);
    OthersCount(s.queues[c].ready, i);
  }
}
