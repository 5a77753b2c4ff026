/** The SMP scheduler as it runs: run queues and thread states changed in place. */
module SmpSchedulers {
  import opened Results
  import opened SmpSchedulerSpec
  import opened SmpSchedulerTheorems

  class SmpScheduler {
    var queues: seq<Queue>
    var threads: seq<Thread>

    constructor (cores: nat, threads: seq<Thread>)
      requires forall t :: 0 <= t < |threads| ==> threads[t].state != RUNNING
      ensures queues == seq(cores, _ => Queue(None, [])) && this.threads == threads && Inv(State())
    {
      queues, this.threads := seq(cores, _ => Queue(None, [])), threads;
      new;
      forall t: nat ensures Positions(queues, t) <= 1 {
        NotHeld(queues, t);
      }
    }

    ghost function State(): Sched
      reads this
    {
      Sched(queues, threads)
    }

    method Contains(t: nat) returns (found: bool)
      ensures found <==> FirstHolding(queues, t) < |queues|
    {
      for c := 0 to |queues|
        invariant forall i :: 0 <= i < c ==> !Holds(queues[i], t)
      {
        if queues[c].current == Some(t) {
          return true;
        }
        for i := 0 to |queues[c].ready|
          invariant t !in queues[c].ready[..i]
        {
          if queues[c].ready[i] == t {
            return true;
          }
        }
        assert queues[c].ready[..|queues[c].ready|] == queues[c].ready;
      }
      return false;
    }

    method LeastLoadedQueue() returns (c: nat)
      requires queues != []
      ensures c == LeastLoaded(queues, |queues|)
    {
      c := 0;
      for i := 1 to |queues|
        invariant c == LeastLoaded(queues, i)
      {
        if Load(queues[i]) < Load(queues[c]) {
          c := i;
        }
      }
    }

    method BusiestReadyQueue() returns (c: nat)
      requires queues != []
      ensures c == Busiest(queues, |queues|)
    {
      c := 0;
      for i := 1 to |queues|
        invariant c == Busiest(queues, i)
      {
        if |queues[i].ready| > |queues[c].ready| {
          c := i;
        }
      }
    }

    method EnqueueOn(c: nat, t: nat)
      requires c < |queues| && t < |threads|
      modifies this
      ensures State() == EnqueueReady(old(State()), c, t)
    {
      threads := threads[t := Thread(READY, c)];
      queues := queues[c := queues[c].(ready := queues[c].ready + [t])];
    }

    method EnqueueThread(t: nat, target: Option<nat>) returns (r: Result<nat>)
      requires t < |threads| && queues != []
      modifies this
      ensures (State(), r) == Enqueue(old(State()), t, target)
    {
      if threads[t].state == DEAD || threads[t].state == RUNNING {
        return Err(LogicError);
      }
      var found := Contains(t);
      if found {
        return Err(LogicError);
      }
      var c;
      if target.Some? {
        c := target.value;
      } else {
        c := LeastLoadedQueue();
      }
      if c >= |queues| {
        return Err(OutOfRange);
      }
      EnqueueOn(c, t);
      return Ok(c);
    }

    /** Pops the front of queue c until a ready thread is found. */
    method TakeNextRunnable(c: nat) returns (next: Option<nat>)
      requires c < |queues|
      modifies this`queues
      ensures var n := SkipFront(threads, old(queues[c].ready));
              if n < |old(queues[c].ready)|
              then next == Some(old(queues[c].ready)[n]) && queues == old(queues)[c := old(queues[c]).(ready := old(queues[c].ready)[n + 1..])]
              else next == None && queues == old(queues)[c := old(queues[c]).(ready := [])]
    {
      ghost var was := queues[c].ready;
      ghost var k := 0;
      assert queues == queues[c := queues[c].(ready := was[0..])];
      while queues[c].ready != []
        invariant k <= |was| && |queues| == |old(queues)| && queues == old(queues)[c := old(queues[c]).(ready := was[k..])]
        invariant forall i :: 0 <= i < k ==> !Runnable(threads, was[i])
        decreases |queues[c].ready|
      {
        var candidate := queues[c].ready[0];
        queues := queues[c := queues[c].(ready := queues[c].ready[1..])];
        assert was[k..][1..] == was[k + 1..];
        if Runnable(threads, candidate) {
          return Some(candidate);
        }
        k := k + 1;
      }
      return None;
    }

    method ScheduleNextOn(c: nat) returns (next: Option<nat>)
      requires c < |queues|
      modifies this
      ensures State() == ScheduleNext(old(State()), c) && |queues| == |old(queues)| && next == queues[c].current
    {
      var current := queues[c].current;
      if current.Some? && current.value < |threads| && threads[current.value].state == RUNNING {
        threads := threads[current.value := threads[current.value].(state := READY)];
        queues := queues[c := queues[c].(ready := queues[c].ready + [current.value])];
      }
      queues := queues[c := queues[c].(current := None)];
      assert State() == PutBack(old(State()), c);
      next := TakeNextRunnable(c);
      if next.Some? {
        threads := threads[next.value := Thread(RUNNING, c)];
        queues := queues[c := queues[c].(current := next)];
      }
    }

    /** block_current and exit_current. */
    method StopCurrentOn(c: nat, state: ThreadState) returns (next: Option<nat>)
      requires c < |queues| && (queues[c].current.Some? ==> queues[c].current.value < |threads|)
      modifies this
      ensures State() == StopCurrent(old(State()), c, state)
      ensures next == if old(queues[c].current).None? then None else queues[c].current
    {
      var current := queues[c].current;
      if current.None? {
        return None;
      }
      threads := threads[current.value := threads[current.value].(state := state)];
      queues := queues[c := queues[c].(current := None)];
      next := ScheduleNextOn(c);
    }

    method QueueContainingReady(t: nat) returns (c: nat)
      ensures c == FirstReady(queues, t)
    {
      for i := 0 to |queues|
        invariant forall j :: 0 <= j < i ==> t !in queues[j].ready
      {
        if t in queues[i].ready {
          return i;
        }
      }
      return |queues|;
    }

    method MigrateReady(t: nat, target: nat) returns (r: Result<nat>)
      requires t < |threads|
      modifies this
      ensures (State(), r) == Migrate(old(State()), t, target)
    {
      var source := QueueContainingReady(t);
      if source == |queues| || threads[t].state != READY {
        return Err(LogicError);
      }
      if target >= |queues| {
        return Err(OutOfRange);
      }
      if source == target {
        return Ok(source);
      }
      queues := queues[source := queues[source].(ready := RemoveReady(queues[source].ready, t))];
      EnqueueOn(target, t);
      return Ok(source);
    }

    /** Pops the back of queue c until a ready thread is found. */
    method TakeMigratableBack(c: nat) returns (t: Option<nat>)
      requires c < |queues|
      modifies this`queues
      ensures var ready := old(queues[c].ready);
              var n := KeepBack(threads, ready);
              && queues == old(queues)[c := old(queues[c]).(ready := ready[..if n == 0 then 0 else n - 1])]
              && t == if n == 0 then None else Some(ready[n - 1])
    {
      ghost var was := queues[c].ready;
      ghost var k: nat := |was|;
      assert was[..k] == was;
      while queues[c].ready != []
        invariant 0 <= k <= |was| && |queues| == |old(queues)| && queues == old(queues)[c := old(queues[c]).(ready := was[..k])]
        invariant forall i :: k <= i < |was| ==> !Runnable(threads, was[i])
        decreases |queues[c].ready|
      {
        var last := |queues[c].ready| - 1;
        var candidate := queues[c].ready[last];
        queues := queues[c := queues[c].(ready := queues[c].ready[..last])];
        assert was[..k][..last] == was[..last];
        k := k - 1;
        if Runnable(threads, candidate) {
          return Some(candidate);
        }
      }
      return None;
    }

    method StealOne(source: nat, target: nat) returns (t: Option<nat>)
      requires source < |queues| && target < |queues| && Inv(State())
      modifies this
      ensures (State(), t) == Steal(old(State()), source, target)
    {
      assert QueueOk(State(), source);
      t := TakeMigratableBack(source);
      if t.Some? {
        EnqueueOn(target, t.value);
      }
    }

    method RebalanceOnce() returns (t: Option<nat>)
      requires queues != [] && Inv(State())
      modifies this
      ensures (State(), t) == Rebalance(old(State()))
    {
      var source := BusiestReadyQueue();
      var target := LeastLoadedQueue();
      if source == target || |queues[source].ready| <= Load(queues[target]) + 1 {
        return None;
      }
      t := StealOne(source, target);
    }
  }
}
