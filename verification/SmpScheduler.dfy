/** The SMP scheduler: one run queue per core, threads moving between them. */
module SmpSchedulerSpec {
  import opened Results

  datatype ThreadState = READY | RUNNING | BLOCKED | DEAD

  datatype Thread = Thread(state: ThreadState, core: nat)

  datatype Queue = Queue(current: Option<nat>, ready: seq<nat>)

  datatype Sched = Sched(queues: seq<Queue>, threads: seq<Thread>)

  // ---------- Queues ----------

  function Load(q: Queue): nat
  {
    |q.ready| + (if q.current.Some? then 1 else 0)
  }

  predicate Holds(q: Queue, t: nat)
  {
    q.current == Some(t) || t in q.ready
  }

  predicate Runnable(threads: seq<Thread>, t: nat)
  {
    t < |threads| && threads[t].state == READY
  }

  /** How many threads at the front are skipped because they are no longer ready. */
  function SkipFront(threads: seq<Thread>, ready: seq<nat>): (n: nat)
    ensures n <= |ready| && (n < |ready| ==> Runnable(threads, ready[n]))
    ensures forall i :: 0 <= i < n ==> !Runnable(threads, ready[i])
  {
    if ready == [] || Runnable(threads, ready[0]) then 0 else 1 + SkipFront(threads, ready[1..])
  }

  /** The length of the queue once the threads at the back that are no longer ready are gone. */
  function KeepBack(threads: seq<Thread>, ready: seq<nat>): (n: nat)
    ensures n <= |ready| && (n > 0 ==> Runnable(threads, ready[n - 1]))
    ensures forall i :: n <= i < |ready| ==> !Runnable(threads, ready[i])
  {
    if ready == [] || Runnable(threads, ready[|ready| - 1]) then |ready| else KeepBack(threads, ready[..|ready| - 1])
  }

  function LeastLoaded(queues: seq<Queue>, n: nat): (c: nat)
    requires 0 < n <= |queues|
    ensures c < n && forall i :: 0 <= i < n ==> Load(queues[c]) <= Load(queues[i])
    ensures forall i :: 0 <= i < c ==> Load(queues[c]) < Load(queues[i])
  {
    if n == 1 then 0
    else var c := LeastLoaded(queues, n - 1); if Load(queues[n - 1]) < Load(queues[c]) then n - 1 else c
  }

  function Busiest(queues: seq<Queue>, n: nat): (c: nat)
    requires 0 < n <= |queues|
    ensures c < n && forall i :: 0 <= i < n ==> |queues[i].ready| <= |queues[c].ready|
    ensures forall i :: 0 <= i < c ==> |queues[i].ready| < |queues[c].ready|
  {
    if n == 1 then 0
    else var c := Busiest(queues, n - 1); if |queues[n - 1].ready| > |queues[c].ready| then n - 1 else c
  }

  function FirstHolding(queues: seq<Queue>, t: nat): (c: nat)
    ensures c <= |queues| && (c < |queues| ==> Holds(queues[c], t))
    ensures forall i :: 0 <= i < c ==> !Holds(queues[i], t)
  {
    if queues == [] || Holds(queues[0], t) then 0 else 1 + FirstHolding(queues[1..], t)
  }

  function FirstReady(queues: seq<Queue>, t: nat): (c: nat)
    ensures c <= |queues| && (c < |queues| ==> t in queues[c].ready)
    ensures forall i :: 0 <= i < c ==> t !in queues[i].ready
  {
    if queues == [] || t in queues[0].ready then 0 else 1 + FirstReady(queues[1..], t)
  }

  function IndexOf(ready: seq<nat>, t: nat): (i: nat)
    requires t in ready
    ensures i < |ready| && ready[i] == t && t !in ready[..i]
  {
    if ready[0] == t then 0 else 1 + IndexOf(ready[1..], t)
  }

  function RemoveReady(ready: seq<nat>, t: nat): seq<nat>
  {
    if t in ready then var i := IndexOf(ready, t); ready[..i] + ready[i + 1..] else ready
  }

  // ---------- Operations ----------

  function SetState(s: Sched, t: nat, state: ThreadState): Sched
    requires t < |s.threads|
  {
    s.(threads := s.threads[t := s.threads[t].(state := state)])
  }

  function EnqueueReady(s: Sched, c: nat, t: nat): Sched
    requires c < |s.queues| && t < |s.threads|
  {
    Sched(s.queues[c := s.queues[c].(ready := s.queues[c].ready + [t])], s.threads[t := Thread(READY, c)])
  }

  predicate MayEnqueue(s: Sched, t: nat)
    requires t < |s.threads|
  {
    s.threads[t].state != DEAD && s.threads[t].state != RUNNING && FirstHolding(s.queues, t) == |s.queues|
  }

  /** enqueue and wake, with or without a target core. */
  function Enqueue(s: Sched, t: nat, target: Option<nat>): (Sched, Result<nat>)
    requires t < |s.threads| && s.queues != []
  {
    if !MayEnqueue(s, t) then (s, Err(LogicError))
    else
      var c := if target.Some? then target.value else LeastLoaded(s.queues, |s.queues|);
      if c >= |s.queues| then (s, Err(OutOfRange)) else (EnqueueReady(s, c, t), Ok(c))
  }

  /** A running current thread goes to the back of the queue; one stopped from outside is dropped. */
  function PutBack(s: Sched, c: nat): Sched
    requires c < |s.queues|
  {
    var q := s.queues[c];
    match q.current
    case None => s
    case Some(t) =>
      if t < |s.threads| && s.threads[t].state == RUNNING
      then SetState(s, t, READY).(queues := s.queues[c := Queue(None, q.ready + [t])])
      else s.(queues := s.queues[c := Queue(None, q.ready)])
  }

  function Dispatch(s: Sched, c: nat): Sched
    requires c < |s.queues|
  {
    var q := s.queues[c];
    var n := SkipFront(s.threads, q.ready);
    if n == |q.ready| then s.(queues := s.queues[c := Queue(None, [])])
    else
      var t := q.ready[n];
      Sched(s.queues[c := Queue(Some(t), q.ready[n + 1..])], s.threads[t := Thread(RUNNING, c)])
  }

  function ScheduleNext(s: Sched, c: nat): Sched
    requires c < |s.queues|
  {
    Dispatch(PutBack(s, c), c)
  }

  /** block_current and exit_current. */
  function StopCurrent(s: Sched, c: nat, state: ThreadState): Sched
    requires c < |s.queues|
  {
    match s.queues[c].current
    case None => s
    case Some(t) =>
      if t >= |s.threads| then s
      else ScheduleNext(SetState(s, t, state).(queues := s.queues[c := s.queues[c].(current := None)]), c)
  }

  function Migrate(s: Sched, t: nat, target: nat): (Sched, Result<nat>)
    requires t < |s.threads|
  {
    var c := FirstReady(s.queues, t);
    if c == |s.queues| || s.threads[t].state != READY then (s, Err(LogicError))
    else if target >= |s.queues| then (s, Err(OutOfRange))
    else if c == target then (s, Ok(c))
    else
      var s1 := s.(queues := s.queues[c := s.queues[c].(ready := RemoveReady(s.queues[c].ready, t))]);
      (EnqueueReady(s1, target, t), Ok(c))
  }

  function Steal(s: Sched, source: nat, target: nat): (Sched, Option<nat>)
    requires source < |s.queues| && target < |s.queues|
  {
    var q := s.queues[source];
    var n := KeepBack(s.threads, q.ready);
    var s1 := s.(queues := s.queues[source := q.(ready := q.ready[..if n == 0 then 0 else n - 1])]);
    if n == 0 then (s1, None) else (EnqueueReady(s1, target, q.ready[n - 1]), Some(q.ready[n - 1]))
  }

  function Rebalance(s: Sched): (Sched, Option<nat>)
    requires s.queues != []
  {
    var source, target := Busiest(s.queues, |s.queues|), LeastLoaded(s.queues, |s.queues|);
    if source == target || |s.queues[source].ready| <= Load(s.queues[target]) + 1 then (s, None)
    else Steal(s, source, target)
  }
}

/** What every run of the scheduler keeps. */
module SmpSchedulerTheorems {
  import opened Results
  import opened SmpSchedulerSpec

  // ---------- Positions ----------

  /** How many positions of a queue a thread has. */
  function CountIn(q: Queue, t: nat): nat
  {
    multiset(q.ready)[t] + (if q.current == Some(t) then 1 else 0)
  }

  /** How many positions a thread has among all queues and current slots. */
  function Positions(queues: seq<Queue>, t: nat): nat
  {
    if queues == [] then 0 else CountIn(queues[0], t) + Positions(queues[1..], t)
  }

  lemma {:induction false} PositionsUpdate(queues: seq<Queue>, c: nat, q: Queue, t: nat)
    requires c < |queues|
    ensures CountIn(queues[c], t) <= Positions(queues, t)
    ensures Positions(queues[c := q], t) == Positions(queues, t) - CountIn(queues[c], t) + CountIn(q, t)
  {
    if c == 0 {
      assert queues[0 := q][1..] == queues[1..];
    } else {
      PositionsUpdate(queues[1..], c - 1, q, t);
      assert queues[c := q][1..] == queues[1..][c - 1 := q];
    }
  }

  lemma HoldsCounts(q: Queue, t: nat)
    ensures Holds(q, t) <==> CountIn(q, t) > 0
  {
  }

  /** Queue c: known threads bound to it; queued ones never RUNNING, the current one never READY. */
  ghost predicate QueueOk(s: Sched, c: nat)
    requires c < |s.queues|
  {
    && (forall i :: 0 <= i < |s.queues[c].ready| ==>
          var t := s.queues[c].ready[i];
          t < |s.threads| && s.threads[t].state != RUNNING && s.threads[t].core == c)
    && (s.queues[c].current.Some? ==>
          var t := s.queues[c].current.value;
          t < |s.threads| && s.threads[t].state != READY && s.threads[t].core == c)
  }

  ghost predicate Once(s: Sched)
  {
    forall t: nat :: Positions(s.queues, t) <= 1
  }

  /** Each thread has at most one position; a position agrees with the thread's state and core; RUNNING threads are current. */
  ghost predicate Inv(s: Sched)
  {
    && Once(s)
    && (forall c: nat :: c < |s.queues| ==> QueueOk(s, c))
    && (forall t: nat :: t < |s.threads| && s.threads[t].state == RUNNING ==> Current(s, t))
  }

  ghost predicate Current(s: Sched, t: nat)
  {
    exists c: nat :: c < |s.queues| && s.queues[c].current == Some(t)
  }

  /** Not running: a thread that may lose its place as current. */
  predicate Stopped(s: Sched, t: nat)
  {
    t < |s.threads| ==> s.threads[t].state != RUNNING
  }

  /** Nothing was stopped from outside: all queued threads are READY, all current ones RUNNING. */
  ghost predicate Undisturbed(s: Sched)
  {
    forall c: nat :: c < |s.queues| ==> QueueReady(s, c)
  }

  ghost predicate QueueReady(s: Sched, c: nat)
    requires c < |s.queues|
  {
    && (forall i :: 0 <= i < |s.queues[c].ready| ==> Runnable(s.threads, s.queues[c].ready[i]))
    && (s.queues[c].current.Some? ==>
          s.queues[c].current.value < |s.threads| && s.threads[s.queues[c].current.value].state == RUNNING)
  }

  // ---------- Changing one queue and one thread ----------

  lemma HeldOnce(s: Sched, c: nat, x: nat, t: nat)
    requires Once(s) && c < |s.queues| && x < |s.queues| && c != x
    ensures Holds(s.queues[c], t) ==> !Holds(s.queues[x], t)
  {
    var empty := Queue(None, []);
    PositionsUpdate(s.queues, c, empty, t);
    PositionsUpdate(s.queues[c := empty], x, empty, t);
    HoldsCounts(s.queues[c], t);
    HoldsCounts(s.queues[x], t);
    assert Positions(s.queues, t) <= 1;
    hide Positions, CountIn, Holds;
  }

  /** Thread t is in queue c or nowhere. */
  ghost predicate OnlyIn(queues: seq<Queue>, c: nat, t: nat)
  {
    forall x: nat :: x < |queues| && x != c ==> !Holds(queues[x], t)
  }

  lemma HeldIsOnlyIn(s: Sched, c: nat, t: nat)
    requires Once(s) && c < |s.queues| && Holds(s.queues[c], t)
    ensures OnlyIn(s.queues, c, t) && CountIn(s.queues[c], t) == 1
  {
    forall x: nat | x < |s.queues| && x != c ensures !Holds(s.queues[x], t) {
      HeldOnce(s, c, x, t);
    }
    HoldsCounts(s.queues[c], t);
    PositionsUpdate(s.queues, c, s.queues[c], t);
    assert Positions(s.queues, t) <= 1;
  }

  lemma {:induction false} PositionsAt(queues: seq<Queue>, c: nat, t: nat)
    requires c < |queues| && OnlyIn(queues, c, t)
    ensures Positions(queues, t) == CountIn(queues[c], t)
  {
    if c == 0 {
      assert forall x: nat :: x < |queues[1..]| ==> queues[1..][x] == queues[x + 1];
      NotHeld(queues[1..], t);
    } else {
      assert !Holds(queues[0], t);
      HoldsCounts(queues[0], t);
      PositionsAt(queues[1..], c - 1, t);
    }
  }

  lemma {:induction false} NotHeld(queues: seq<Queue>, t: nat)
    requires forall x: nat :: x < |queues| ==> !Holds(queues[x], t)
    ensures Positions(queues, t) == 0
  {
    if queues != [] {
      assert !Holds(queues[0], t);
      HoldsCounts(queues[0], t);
      NotHeld(queues[1..], t);
    }
  }

  lemma UpdateKeepsOnce(s: Sched, c: nat, q: Queue, t: nat)
    requires Once(s) && c < |s.queues| && OnlyIn(s.queues, c, t) && CountIn(q, t) <= 1
    requires forall x: nat :: x != t ==> CountIn(q, x) <= CountIn(s.queues[c], x)
    ensures Once(s.(queues := s.queues[c := q]))
  {
    var queues := s.queues[c := q];
    forall x: nat ensures Positions(queues, x) <= 1 {
      if x == t {
        PositionsAt(queues, c, t);
      } else {
        PositionsUpdate(s.queues, c, q, x);
        assert Positions(s.queues, x) <= 1;
      }
    }
  }

  lemma UpdateKeepsQueues(s: Sched, c: nat, q: Queue, t: nat, th: Thread)
    requires Inv(s) && c < |s.queues| && t < |s.threads| && OnlyIn(s.queues, c, t)
    requires QueueOk(Sched(s.queues[c := q], s.threads[t := th]), c)
    ensures var s' := Sched(s.queues[c := q], s.threads[t := th]); forall x: nat :: x < |s'.queues| ==> QueueOk(s', x)
  {
    var s' := Sched(s.queues[c := q], s.threads[t := th]);
    hide Once, Current;
    forall x: nat | x < |s'.queues| ensures QueueOk(s', x) {
      assert QueueOk(s, x);
      if x != c {
        assert !Holds(s.queues[x], t);
        assert s'.queues[x] == s.queues[x];
      }
    }
  }

  lemma UpdateKeepsRunning(s: Sched, c: nat, q: Queue, t: nat, th: Thread)
    requires Inv(s) && c < |s.queues| && t < |s.threads|
    requires th.state == RUNNING ==> q.current == Some(t)
    requires s.queues[c].current.Some? && s.queues[c].current != q.current ==>
               s.queues[c].current == Some(t) || Stopped(s, s.queues[c].current.value)
    ensures var s' := Sched(s.queues[c := q], s.threads[t := th]);
            forall x: nat :: x < |s'.threads| && s'.threads[x].state == RUNNING ==> Current(s', x)
  {
    var s' := Sched(s.queues[c := q], s.threads[t := th]);
    hide Once, QueueOk;
    forall x: nat | x < |s'.threads| && s'.threads[x].state == RUNNING ensures Current(s', x) {
      assert s'.queues[c].current == q.current;
      if x != t {
        assert Current(s, x);
        var d: nat :| d < |s.queues| && s.queues[d].current == Some(x);
        assert s'.queues[d].current == Some(x);
      }
    }
  }

  /** Queue c loses threads or gains t, which then is there once; thread t changes; everything else stays. */
  lemma UpdateKeeps(s: Sched, c: nat, q: Queue, t: nat, th: Thread)
    requires Inv(s) && c < |s.queues| && t < |s.threads| && OnlyIn(s.queues, c, t)
    requires forall x: nat :: x != t ==> CountIn(q, x) <= CountIn(s.queues[c], x)
    requires CountIn(q, t) <= 1
    requires QueueOk(Sched(s.queues[c := q], s.threads[t := th]), c)
    requires th.state == RUNNING ==> q.current == Some(t)
    requires s.queues[c].current.Some? && s.queues[c].current != q.current ==>
               s.queues[c].current == Some(t) || Stopped(s, s.queues[c].current.value)
    ensures Inv(Sched(s.queues[c := q], s.threads[t := th]))
  {
    UpdateKeepsOnce(s, c, q, t);
    UpdateKeepsQueues(s, c, q, t, th);
    UpdateKeepsRunning(s, c, q, t, th);
    hide QueueOk, OnlyIn, Current, CountIn, Positions;
  }

  /** Queue c loses threads that are not running. */
  lemma ShrinkKeeps(s: Sched, c: nat, q: Queue)
    requires Inv(s) && c < |s.queues| && forall x: nat :: CountIn(q, x) <= CountIn(s.queues[c], x)
    requires QueueOk(s.(queues := s.queues[c := q]), c)
    requires s.queues[c].current.Some? && s.queues[c].current != q.current ==> Stopped(s, s.queues[c].current.value)
    ensures Inv(s.(queues := s.queues[c := q]))
  {
    var s' := s.(queues := s.queues[c := q]);
    forall x: nat ensures Positions(s'.queues, x) <= 1 {
      PositionsUpdate(s.queues, c, q, x);
      assert Positions(s.queues, x) <= 1;
    }
    hide Positions, CountIn;
    forall x: nat | x < |s'.queues| ensures QueueOk(s', x) {
      assert QueueOk(s, x);
    }
    forall x: nat | x < |s'.threads| && s'.threads[x].state == RUNNING ensures Current(s', x) {
      assert Current(s, x);
      var d: nat :| d < |s.queues| && s.queues[d].current == Some(x);
      assert s'.queues[c].current == q.current;
      assert s'.queues[d].current == Some(x);
    }
  }

  // ---------- Every operation keeps the invariant ----------

  lemma EnqueueKeeps(s: Sched, c: nat, t: nat)
    requires Inv(s) && c < |s.queues| && t < |s.threads| && FirstHolding(s.queues, t) == |s.queues|
    ensures Inv(EnqueueReady(s, c, t))
  {
    HoldsCounts(s.queues[c], t);
    assert QueueOk(s, c);
    hide Once, Current, FirstHolding;
    UpdateKeeps(s, c, s.queues[c].(ready := s.queues[c].ready + [t]), t, Thread(READY, c));
  }

  lemma PutBackKeeps(s: Sched, c: nat)
    requires Inv(s) && c < |s.queues|
    ensures Inv(PutBack(s, c)) && PutBack(s, c).queues[c].current.None? && |PutBack(s, c).queues| == |s.queues|
  {
    var q := s.queues[c];
    assert QueueOk(s, c);
    if q.current.Some? {
      var t := q.current.value;
      HeldIsOnlyIn(s, c, t);
      hide Once, Current, OnlyIn;
      if s.threads[t].state == RUNNING {
        UpdateKeeps(s, c, Queue(None, q.ready + [t]), t, s.threads[t].(state := READY));
      } else {
        ShrinkKeeps(s, c, Queue(None, q.ready));
      }
    }
  }

  lemma OthersCount(ready: seq<nat>, n: nat)
    requires n < |ready|
    ensures forall x: nat :: multiset(ready[..n])[x] + multiset(ready[n + 1..])[x] + (if x == ready[n] then 1 else 0) == multiset(ready)[x]
  {
    assert ready == ready[..n] + [ready[n]] + ready[n + 1..];
  }

  lemma DispatchKeeps(s: Sched, c: nat)
    requires Inv(s) && c < |s.queues| && s.queues[c].current.None?
    ensures Inv(Dispatch(s, c)) && |Dispatch(s, c).queues| == |s.queues|
  {
    var q := s.queues[c];
    var n := SkipFront(s.threads, q.ready);
    assert QueueOk(s, c);
    hide Once, Current;
    if n == |q.ready| {
      ShrinkKeeps(s, c, Queue(None, []));
    } else {
      var t := q.ready[n];
      HeldIsOnlyIn(s, c, t);
      hide OnlyIn, SkipFront;
      OthersCount(q.ready, n);
      UpdateKeeps(s, c, Queue(Some(t), q.ready[n + 1..]), t, Thread(RUNNING, c));
    }
  }

  lemma ScheduleKeeps(s: Sched, c: nat)
    requires Inv(s) && c < |s.queues|
    ensures Inv(ScheduleNext(s, c)) && |ScheduleNext(s, c).queues| == |s.queues|
  {
    PutBackKeeps(s, c);
    DispatchKeeps(PutBack(s, c), c);
    hide Inv, PutBack, Dispatch;
  }

  lemma StopKeeps(s: Sched, c: nat, state: ThreadState)
    requires Inv(s) && c < |s.queues| && (state == BLOCKED || state == DEAD)
    ensures Inv(StopCurrent(s, c, state)) && |StopCurrent(s, c, state).queues| == |s.queues|
  {
    assert QueueOk(s, c);
    if s.queues[c].current.Some? {
      var t := s.queues[c].current.value;
      HeldIsOnlyIn(s, c, t);
      hide Once, Current, OnlyIn, ScheduleNext;
      var q := s.queues[c].(current := None);
      UpdateKeeps(s, c, q, t, s.threads[t].(state := state));
      ScheduleKeeps(Sched(s.queues[c := q], s.threads[t := s.threads[t].(state := state)]), c);
    }
  }

  lemma ExternalKeeps(s: Sched, t: nat, state: ThreadState)
    requires Inv(s) && t < |s.threads| && (state == BLOCKED || state == DEAD) && s.queues != []
    ensures Inv(SetState(s, t, state))
  {
    var c := if FirstHolding(s.queues, t) < |s.queues| then FirstHolding(s.queues, t) else 0;
    if FirstHolding(s.queues, t) < |s.queues| { HeldIsOnlyIn(s, c, t); } else { HoldsCounts(s.queues[c], t); }
    assert QueueOk(s, c);
    assert OnlyIn(s.queues, c, t);
    hide Once, Current, OnlyIn, FirstHolding;
    UpdateKeeps(s, c, s.queues[c], t, s.threads[t].(state := state));
    assert s.queues[c := s.queues[c]] == s.queues;
  }

  lemma RemovedReady(ready: seq<nat>, t: nat)
    requires t in ready
    ensures forall x: nat :: multiset(RemoveReady(ready, t))[x] == multiset(ready)[x] - (if x == t then 1 else 0)
    ensures forall i :: 0 <= i < |RemoveReady(ready, t)| ==> RemoveReady(ready, t)[i] in ready
  {
    OthersCount(ready, IndexOf(ready, t));
  }

  /** A thread taken out of queue c, its only place, can be enqueued on another core. */
  lemma MoveKeeps(s: Sched, c: nat, q: Queue, t: nat, target: nat)
    requires Inv(s) && c < |s.queues| && t < |s.threads| && target < |s.queues| && Holds(s.queues[c], t)
    requires q.current == s.queues[c].current && CountIn(q, t) == 0
    requires forall x: nat :: CountIn(q, x) <= CountIn(s.queues[c], x)
    requires forall i :: 0 <= i < |q.ready| ==> q.ready[i] in s.queues[c].ready
    ensures Inv(s.(queues := s.queues[c := q])) && Inv(EnqueueReady(s.(queues := s.queues[c := q]), target, t))
  {
    assert QueueOk(s, c);
    var s1 := s.(queues := s.queues[c := q]);
    assert QueueOk(s1, c);
    HeldIsOnlyIn(s, c, t);
    hide Once, Current;
    ShrinkKeeps(s, c, q);
    HoldsCounts(q, t);
    assert forall x: nat :: x < |s1.queues| ==> !Holds(s1.queues[x], t);
    EnqueueKeeps(s1, target, t);
  }

  lemma MigrateKeeps(s: Sched, t: nat, target: nat)
    requires Inv(s) && t < |s.threads|
    ensures Inv(Migrate(s, t, target).0) && |Migrate(s, t, target).0.queues| == |s.queues|
  {
    var c := FirstReady(s.queues, t);
    if c < |s.queues| && s.threads[t].state == READY && target < |s.queues| && c != target {
      HeldIsOnlyIn(s, c, t);
      hide Inv, OnlyIn, EnqueueReady;
      var q := s.queues[c].(ready := RemoveReady(s.queues[c].ready, t));
      RemovedReady(s.queues[c].ready, t);
      hide RemoveReady;
      MoveKeeps(s, c, q, t, target);
    }
  }

  lemma BackTaken(q: Queue, n: nat)
    requires 0 < n <= |q.ready|
    ensures var q' := q.(ready := q.ready[..n - 1]);
            && (forall x: nat :: CountIn(q', x) + (if x == q.ready[n - 1] then 1 else 0) <= CountIn(q, x))
            && forall i :: 0 <= i < |q'.ready| ==> q'.ready[i] in q.ready
  {
    OthersCount(q.ready, n - 1);
  }

  lemma StealKeeps(s: Sched, source: nat, target: nat)
    requires Inv(s) && source < |s.queues| && target < |s.queues|
    ensures Inv(Steal(s, source, target).0) && |Steal(s, source, target).0.queues| == |s.queues|
  {
    var q := s.queues[source];
    var n := KeepBack(s.threads, q.ready);
    assert QueueOk(s, source);
    if n == 0 {
      hide Once, Current, KeepBack;
      ShrinkKeeps(s, source, q.(ready := q.ready[..0]));
    } else {
      HeldIsOnlyIn(s, source, q.ready[n - 1]);
      hide Inv, OnlyIn, KeepBack, EnqueueReady, CountIn;
      BackTaken(q, n);
      MoveKeeps(s, source, q.(ready := q.ready[..n - 1]), q.ready[n - 1], target);
    }
  }

  // ---------- Runs ----------

  datatype Op =
    | EnqueueOp(t: nat, wish: Option<nat>)
    | ScheduleOp(c: nat)
    | StopOp(c: nat, dead: bool)
    | MigrateOp(t: nat, target: nat)
    | StealOp(source: nat, target: nat)
    | RebalanceOp
    | ExternalOp(t: nat, dead: bool)

  function Halt(dead: bool): ThreadState
  {
    if dead then DEAD else BLOCKED
  }

  /** One call; a core outside the topology throws and changes nothing, a thread outside the table does not exist. */
  function Step(s: Sched, op: Op): Sched
    requires s.queues != []
  {
    match op
    case EnqueueOp(t, target) => if t < |s.threads| then Enqueue(s, t, target).0 else s
    case ScheduleOp(c) => if c < |s.queues| then ScheduleNext(s, c) else s
    case StopOp(c, dead) => if c < |s.queues| then StopCurrent(s, c, Halt(dead)) else s
    case MigrateOp(t, target) => if t < |s.threads| then Migrate(s, t, target).0 else s
    case StealOp(source, target) => if source < |s.queues| && target < |s.queues| then Steal(s, source, target).0 else s
    case RebalanceOp => Rebalance(s).0
    case ExternalOp(t, dead) => if t < |s.threads| then SetState(s, t, Halt(dead)) else s
  }

  lemma StepKeeps(s: Sched, op: Op)
    requires Inv(s) && s.queues != []
    ensures Inv(Step(s, op)) && |Step(s, op).queues| == |s.queues|
  {
    hide Inv, ScheduleNext, StopCurrent, Migrate, Steal, FirstHolding, LeastLoaded, Busiest;
    match op
    case EnqueueOp(t, target) =>
      if t < |s.threads| && Enqueue(s, t, target).1.Ok? { EnqueueKeeps(s, Enqueue(s, t, target).1.value, t); }
    case ScheduleOp(c) => if c < |s.queues| { ScheduleKeeps(s, c); }
    case StopOp(c, dead) => if c < |s.queues| { StopKeeps(s, c, Halt(dead)); }
    case MigrateOp(t, target) => if t < |s.threads| { MigrateKeeps(s, t, target); }
    case StealOp(source, target) => if source < |s.queues| && target < |s.queues| { StealKeeps(s, source, target); }
    case RebalanceOp =>
      StealKeeps(s, Busiest(s.queues, |s.queues|), LeastLoaded(s.queues, |s.queues|));
    case ExternalOp(t, dead) => if t < |s.threads| { ExternalKeeps(s, t, Halt(dead)); }
  }

  function Run(s: Sched, ops: seq<Op>): Sched
    requires s.queues != []
    decreases |ops|
  {
    if ops == [] then s
    else
      var s' := Step(s, ops[0]);
      if s'.queues == [] then s' else Run(s', ops[1..])
  }

  /** Over every run, kills from outside included, no thread is ever in two places, and places agree with states and cores. */
  lemma {:induction false} RunKeeps(s: Sched, ops: seq<Op>)
    requires Inv(s) && s.queues != []
    ensures Inv(Run(s, ops)) && |Run(s, ops).queues| == |s.queues|
    decreases |ops|
  {
    hide Inv, Step;
    if ops != [] {
      StepKeeps(s, ops[0]);
      RunKeeps(Step(s, ops[0]), ops[1..]);
    }
  }

  /** With nothing stopped from outside, queued threads are READY and current ones RUNNING after every run. */
  lemma {:induction false} RunStaysUndisturbed(s: Sched, ops: seq<Op>)
    requires Inv(s) && s.queues != [] && Undisturbed(s) && forall i :: 0 <= i < |ops| ==> !ops[i].ExternalOp?
    ensures Undisturbed(Run(s, ops))
    decreases |ops|
  {
    hide Inv, Step, Undisturbed;
    if ops != [] {
      StepKeeps(s, ops[0]);
      StepStaysUndisturbed(s, ops[0]);
      RunStaysUndisturbed(Step(s, ops[0]), ops[1..]);
    }
  }

  /** Every change of a queue and a thread keeps the other queues undisturbed. */
  lemma UpdateUndisturbed(s: Sched, c: nat, q: Queue, t: nat, th: Thread)
    requires Inv(s) && Undisturbed(s) && c < |s.queues| && t < |s.threads| && OnlyIn(s.queues, c, t)
    requires QueueReady(Sched(s.queues[c := q], s.threads[t := th]), c)
    ensures Undisturbed(Sched(s.queues[c := q], s.threads[t := th]))
  {
    var s' := Sched(s.queues[c := q], s.threads[t := th]);
    hide Inv;
    forall x: nat | x < |s'.queues| ensures QueueReady(s', x) {
      assert QueueReady(s, x);
      if x != c {
        assert !Holds(s.queues[x], t) && s'.queues[x] == s.queues[x];
      }
    }
  }

  lemma ShrinkUndisturbed(s: Sched, c: nat, q: Queue)
    requires Undisturbed(s) && c < |s.queues| && QueueReady(s.(queues := s.queues[c := q]), c)
    ensures Undisturbed(s.(queues := s.queues[c := q]))
  {
    var s' := s.(queues := s.queues[c := q]);
    forall x: nat | x < |s'.queues| ensures QueueReady(s', x) {
      assert QueueReady(s, x);
    }
  }

  lemma EnqueueUndisturbed(s: Sched, c: nat, t: nat)
    requires Inv(s) && Undisturbed(s) && c < |s.queues| && t < |s.threads| && FirstHolding(s.queues, t) == |s.queues|
    ensures Undisturbed(EnqueueReady(s, c, t))
  {
    assert QueueReady(s, c) && !Holds(s.queues[c], t);
    assert OnlyIn(s.queues, c, t);
    hide Inv, Undisturbed, OnlyIn, FirstHolding;
    UpdateUndisturbed(s, c, s.queues[c].(ready := s.queues[c].ready + [t]), t, Thread(READY, c));
  }

  lemma ScheduleUndisturbed(s: Sched, c: nat)
    requires Inv(s) && Undisturbed(s) && c < |s.queues|
    ensures Undisturbed(ScheduleNext(s, c))
  {
    PutBackKeeps(s, c);
    PutBackUndisturbed(s, c);
    DispatchUndisturbed(PutBack(s, c), c);
    hide Inv, Undisturbed, PutBack, Dispatch;
  }

  lemma PutBackUndisturbed(s: Sched, c: nat)
    requires Inv(s) && Undisturbed(s) && c < |s.queues|
    ensures Undisturbed(PutBack(s, c))
  {
    var q := s.queues[c];
    assert QueueReady(s, c);
    if q.current.Some? {
      var t := q.current.value;
      HeldIsOnlyIn(s, c, t);
      HoldsCounts(q, t);
      hide Inv, Undisturbed, OnlyIn;
      UpdateUndisturbed(s, c, Queue(None, q.ready + [t]), t, s.threads[t].(state := READY));
    }
  }

  lemma DispatchUndisturbed(s: Sched, c: nat)
    requires Inv(s) && Undisturbed(s) && c < |s.queues| && s.queues[c].current.None?
    ensures Undisturbed(Dispatch(s, c))
    ensures s.queues[c].ready != [] ==> Dispatch(s, c).queues[c] == Queue(Some(s.queues[c].ready[0]), s.queues[c].ready[1..])
  {
    var q := s.queues[c];
    assert QueueReady(s, c);
    if q.ready == [] {
      hide Inv, Undisturbed;
      ShrinkUndisturbed(s, c, Queue(None, []));
    } else {
      var t := q.ready[0];
      assert SkipFront(s.threads, q.ready) == 0;
      HeldIsOnlyIn(s, c, t);
      hide Inv, Undisturbed, OnlyIn, SkipFront;
      OthersCount(q.ready, 0);
      assert t !in q.ready[1..];
      UpdateUndisturbed(s, c, Queue(Some(t), q.ready[1..]), t, Thread(RUNNING, c));
    }
  }

  lemma MoveUndisturbed(s: Sched, c: nat, q: Queue, t: nat, target: nat)
    requires Inv(s) && Undisturbed(s) && c < |s.queues| && t < |s.threads| && target < |s.queues| && Holds(s.queues[c], t)
    requires q.current == s.queues[c].current && CountIn(q, t) == 0
    requires forall x: nat :: CountIn(q, x) <= CountIn(s.queues[c], x)
    requires forall i :: 0 <= i < |q.ready| ==> q.ready[i] in s.queues[c].ready
    ensures Undisturbed(EnqueueReady(s.(queues := s.queues[c := q]), target, t))
  {
    assert QueueReady(s, c);
    MoveKeeps(s, c, q, t, target);
    HeldIsOnlyIn(s, c, t);
    HoldsCounts(q, t);
    var s1 := s.(queues := s.queues[c := q]);
    hide Inv, CountIn;
    ShrinkUndisturbed(s, c, q);
    assert forall x: nat :: x < |s1.queues| ==> !Holds(s1.queues[x], t);
    EnqueueUndisturbed(s1, target, t);
  }

  lemma StealUndisturbed(s: Sched, source: nat, target: nat)
    requires Inv(s) && Undisturbed(s) && source < |s.queues| && target < |s.queues|
    ensures Undisturbed(Steal(s, source, target).0)
    ensures KeepBack(s.threads, s.queues[source].ready) == |s.queues[source].ready|
  {
    var q := s.queues[source];
    var n := KeepBack(s.threads, q.ready);
    assert QueueReady(s, source);
    assert n == |q.ready|;
    if n == 0 {
      hide Inv, Undisturbed, KeepBack;
      ShrinkUndisturbed(s, source, q.(ready := q.ready[..0]));
    } else {
      HeldIsOnlyIn(s, source, q.ready[n - 1]);
      hide Inv, Undisturbed, OnlyIn, KeepBack, EnqueueReady, CountIn;
      BackTaken(q, n);
      MoveUndisturbed(s, source, q.(ready := q.ready[..n - 1]), q.ready[n - 1], target);
    }
  }

  lemma MigrateUndisturbed(s: Sched, t: nat, target: nat)
    requires Inv(s) && Undisturbed(s) && t < |s.threads|
    ensures Undisturbed(Migrate(s, t, target).0)
  {
    var c := FirstReady(s.queues, t);
    if c < |s.queues| && s.threads[t].state == READY && target < |s.queues| && c != target {
      HeldIsOnlyIn(s, c, t);
      hide Inv, Undisturbed, OnlyIn, EnqueueReady;
      var q := s.queues[c].(ready := RemoveReady(s.queues[c].ready, t));
      RemovedReady(s.queues[c].ready, t);
      hide RemoveReady;
      MoveUndisturbed(s, c, q, t, target);
    }
  }

  lemma StopUndisturbed(s: Sched, c: nat, state: ThreadState)
    requires Inv(s) && Undisturbed(s) && c < |s.queues| && (state == BLOCKED || state == DEAD)
    ensures Undisturbed(StopCurrent(s, c, state))
  {
    assert QueueReady(s, c) && QueueOk(s, c);
    if s.queues[c].current.Some? {
      var t := s.queues[c].current.value;
      HeldIsOnlyIn(s, c, t);
      HoldsCounts(s.queues[c], t);
      var q := s.queues[c].(current := None);
      var th := s.threads[t].(state := state);
      hide Once, Current, OnlyIn, ScheduleNext, Undisturbed;
      UpdateKeeps(s, c, q, t, th);
      assert t !in q.ready;
      UpdateUndisturbed(s, c, q, t, th);
      ScheduleUndisturbed(Sched(s.queues[c := q], s.threads[t := th]), c);
    }
  }

  lemma StepStaysUndisturbed(s: Sched, op: Op)
    requires Inv(s) && s.queues != [] && Undisturbed(s) && !op.ExternalOp?
    ensures Undisturbed(Step(s, op))
  {
    hide Inv, Undisturbed, ScheduleNext, StopCurrent, Migrate, Steal, FirstHolding, LeastLoaded, Busiest;
    match op
    case EnqueueOp(t, target) =>
      if t < |s.threads| && Enqueue(s, t, target).1.Ok? { EnqueueUndisturbed(s, Enqueue(s, t, target).1.value, t); }
    case ScheduleOp(c) => if c < |s.queues| { ScheduleUndisturbed(s, c); }
    case StopOp(c, dead) => if c < |s.queues| { StopUndisturbed(s, c, Halt(dead)); }
    case MigrateOp(t, target) => if t < |s.threads| { MigrateUndisturbed(s, t, target); }
    case StealOp(source, target) => if source < |s.queues| && target < |s.queues| { StealUndisturbed(s, source, target); }
    case RebalanceOp =>
      StealUndisturbed(s, Busiest(s.queues, |s.queues|), LeastLoaded(s.queues, |s.queues|));
  }
}
