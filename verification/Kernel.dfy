/**
The task calls of the kernel, as they change the task structures and the run
queue in place; each is shown to do what the step machine of Tasks says.
*/
module Kernel {
  import opened Wrappers
  import opened Tasks

  class Scheduler {
    var tasks: map<nat, Task>
    var queue: seq<nat>
    var current: nat
    var nextPid: nat
    var locked: bool
    var ticks: nat
    ghost var freed: seq<nat>

    ghost function State(): Sys
      reads this
    {
      Sys(tasks, queue, current, nextPid, locked, ticks, freed)
    }

    ghost predicate Valid()
      reads this
    {
      Inv(State())
    }

    constructor ()
      ensures Valid() && State() == Initial()
    {
      tasks := map[INIT := Task(0, Running, Nowhere, 0, [], 0)];
      queue, current, nextPid, locked, ticks, freed := [INIT], INIT, 2, false, 0, [];
      new;
      InitialInv();
    }

    // fork_int: a new structure at the tail of the queue.
    method ForkInt() returns (pid: nat)
      requires Valid()
      modifies this
      ensures Valid() && State() == Fork(old(State())) && pid == old(nextPid)
    {
      locked := true;
      pid := nextPid;
      nextPid := nextPid + 1;
      tasks := tasks[pid := Task(current, Running, Nowhere, 0, [], 0)];
      queue := queue + [pid];
      locked := false;
      ForkInv(old(State()));
    }

    // wake_check: a sleeper whose deadline has passed becomes runnable.
    method WakeCheck(p: nat)
      requires p in tasks
      modifies this`tasks
      ensures tasks == old(tasks)[p := Woken(old(tasks)[p], ticks)]
    {
      var t := tasks[p];
      if t.state.Sleeping? && t.sleepEnd > 0 {
        if t.sleepEnd < ticks {
          tasks := tasks[p := t.(state := Running, sleepEnd := 0)];
        }
      }
    }

    // One of the two loops of task_switch_inner.
    method Scan(from: nat) returns (n: nat)
      requires from <= |queue| && forall p :: p in queue ==> p in tasks
      modifies this`tasks
      ensures n == FirstReady(old(State()), from)
      ensures tasks == if n < |queue| then old(tasks)[queue[n] := Woken(old(tasks)[queue[n]], ticks)] else old(tasks)
    {
      n := from;
      while n < |queue|
        invariant from <= n <= |queue| && tasks == old(tasks)
        invariant FirstReady(old(State()), n) == FirstReady(old(State()), from)
      {
        WakeCheck(queue[n]);
        if tasks[queue[n]].state.Running? || tasks[queue[n]].state.Awaken? {
          return;
        }
        assert tasks == old(tasks);
        n := n + 1;
      }
    }

    /** task_switch_inner, from the place after the running task; false is the panic when every task sleeps. */
    method SwitchInner(from: nat) returns (ok: bool)
      requires from <= |queue| && forall p :: p in queue ==> p in tasks
      modifies this`tasks, this`current
      ensures ok <==> SwitchFrom(old(State()), from).Some?
      ensures ok ==> State() == SwitchFrom(old(State()), from).value
    {
      if locked {
        return true;
      }
      var n := Scan(from);
      if n == |queue| {
        n := Scan(0);
      }
      if n == |queue| {
        return false;
      }
      current := queue[n];
      ok := true;
    }

    method TaskSwitch() returns (ok: bool)
      requires Valid()
      modifies this`tasks, this`current
      ensures ok <==> Switch(old(State())).Some?
      ensures ok ==> Valid() && State() == Switch(old(State())).value
    {
      SwitchInv(State());
      LiveQueue(State());
      hide Core, SwitchFrom;
      var k := IndexOf(queue, current);
      ok := SwitchInner(if k < |queue| then k + 1 else k);
    }

    // wakeup: every task in the queue that sleeps on a becomes runnable.
    method WakeupAt(a: Address) returns (cnt: nat)
      requires forall p :: p in queue ==> p in tasks
      modifies this`tasks, this`locked
      ensures tasks == WakeAll(old(tasks), queue, a) && tasks.Keys == old(tasks).Keys && !locked
      ensures cnt == |Sleepers(old(tasks), queue, a)|
    {
      hide Sleepers;
      SleepersNone(tasks, a);
      locked := true;
      cnt := 0;
      var i := 0;
      while i < |queue|
        invariant 0 <= i <= |queue| && tasks.Keys == old(tasks).Keys
        invariant forall p :: p in tasks ==> tasks[p] == if p in queue[..i] then WokenBy(old(tasks)[p], a) else old(tasks)[p]
        invariant cnt == |Sleepers(old(tasks), queue[..i], a)| && (i == 0 ==> queue[..i] == [])
      {
        var p := queue[i];
        assert queue[..i + 1] == queue[..i] + [p];
        SleepersNext(old(tasks), queue[..i], p, a);
        if tasks[p].state.Sleeping? && tasks[p].sleepAddr == a {
          cnt := cnt + 1;
          tasks := tasks[p := tasks[p].(state := Running, sleepAddr := Nowhere, sleepEnd := 0)];
        }
        i := i + 1;
      }
      assert queue[..i] == queue;
      locked := false;
    }

    method SleepOnAddr(a: Address) returns (ok: bool)
      requires Valid() && (a == WaitQueueOf(current) ==> tasks[current].waitQueue == [])
      modifies this
      ensures ok <==> SleepOn(old(State()), a).Some?
      ensures ok ==> Valid() && State() == SleepOn(old(State()), a).value
    {
      SleepOnInv(State(), a);
      FallAsleepInv(State(), a);
      locked := true;
      tasks := tasks[current := tasks[current].(state := Sleeping, sleepAddr := a)];
      locked := false;
      ok := TaskSwitch();
    }

    // sleep_onms: sleeps with a deadline.
    method SleepOnAddrMs(addr: nat, ms: nat) returns (ok: bool)
      requires Valid()
      modifies this
      ensures ok <==> SleepOnMs(old(State()), Other(addr), ms).Some?
      ensures ok ==> Valid() && State() == SleepOnMs(old(State()), Other(addr), ms).value
    {
      hide Core, SleepOn;
      InCurrent(State());
      WithDeadlineInv(State(), ms);
      var wait := ms / MS_PER_TICK;
      if ms % MS_PER_TICK != 0 {
        wait := wait + 1;
      }
      tasks := tasks[current := tasks[current].(sleepEnd := (ticks + wait) % TICK_LIMIT)];
      assert State() == WithDeadline(old(State()), ms);
      ok := SleepOnAddr(Other(addr));
    }

    method TimerTick() returns (ok: bool)
      requires Valid()
      modifies this
      ensures ok <==> Tick(old(State())).Some?
      ensures ok ==> Valid() && State() == Tick(old(State())).value
    {
      hide Inv, Switch;
      TickInv(State());
      ticks := (ticks + 1) % TICK_LIMIT;
      ok := TaskSwitch();
    }

    // task_free: the assertions it makes about the task it frees hold.
    method TaskFree(z: nat)
      requires z in tasks && tasks[z].state.Exiting? && tasks[z].waitQueue == []
      modifies this`tasks, this`freed, this`locked
      ensures tasks == old(tasks) - {z} && freed == old(freed) + [z] && !locked
    {
      locked := true;
      tasks := tasks - {z};
      freed := freed + [z];
      locked := false;
    }

    /** task_wait up to its return or its sleep. */
    method TaskWait() returns (ok: bool, r: Waited)
      requires Valid()
      modifies this
      ensures ok <==> Wait(old(State())).0.Some?
      ensures ok ==> Valid() && State() == Wait(old(State())).0.value && r == Wait(old(State())).1
    {
      hide Core;
      DoInv(State(), DoWait);
      InCurrent(State());
      if tasks[current].waitQueue == [] {
        locked := true;
        var child := FindChild();
        if !child {
          locked := false;
          return true, NoChildren;
        }
        LockInv(old(State()), true);
        ok := SleepOnAddr(WaitQueueOf(current));
        return ok, Slept;
      }
      ReapInv(State());
      r := ReapHead();
      ok := true;
    }

    /** task_wait after its sleep: reaps, or finds that it woke too early. */
    method TaskWaitResume() returns (r: Waited)
      requires Valid()
      modifies this
      ensures Valid() && (State(), r) == WaitResume(old(State()))
    {
      hide Core;
      DoInv(State(), DoWaitResume);
      InCurrent(State());
      locked := true;
      if tasks[current].waitQueue == [] {
        locked := false;
        return TooEarly;
      }
      LockInv(old(State()), true);
      ReapInv(old(State()));
      r := ReapHead();
    }

    method FindChild() returns (found: bool)
      requires forall p :: p in queue ==> p in tasks
      ensures found <==> HasChild(State(), current)
    {
      var i := 0;
      while i < |queue|
        invariant 0 <= i <= |queue|
        invariant forall j :: 0 <= j < i ==> tasks[queue[j]].ppid != current
      {
        if tasks[queue[i]].ppid == current {
          return true;
        }
        i := i + 1;
      }
      found := false;
    }

    // The last part of task_wait: takes the first exited child off the wait queue and frees it.
    method ReapHead() returns (r: Waited)
      requires Inv(State()) && tasks[current].waitQueue != []
      modifies this
      ensures State() == Reap(old(State())) && Valid()
      ensures r == Reaped(old(tasks)[current].waitQueue[0], old(tasks)[old(tasks)[current].waitQueue[0]].status)
    {
      ReapInv(State());
      locked := true;
      var z := tasks[current].waitQueue[0];
      r := Reaped(z, tasks[z].status);
      tasks := tasks[current := tasks[current].(waitQueue := tasks[current].waitQueue[1..])];
      assert z != current by {
        assert z in old(tasks)[current].waitQueue;
      }
      TaskFree(z);
    }

    // The loop of task_exit over the queue: finds the parent, hands the children to init and unlinks the task.
    method LeaveQueue() returns (parent: nat)
      requires Inv(State()) && current != INIT
      modifies this`tasks, this`queue
      ensures parent == old(tasks)[current].ppid && parent in queue && parent != current
      ensures tasks == Reparented(old(tasks), old(queue), current) && queue == Without(old(queue), current)
    {
      hide Core, Without, Cut, IndexOf, AdoptedAll, Reparented;
      LeaveFacts(State());
      ghost var q, w := queue, Without(queue, current);
      ghost var c, ppid := IndexOf(q, current), tasks[current].ppid;
      WithoutAt(State());
      parent := 0;
      var i := 0;
      AdoptStart(tasks, current);
      while i < |queue|
        invariant 0 <= i <= |w| && queue == (if i < c then q else w)
        invariant AdoptedAll(old(tasks), tasks, w[..i], current)
        invariant ppid in w[..i] ==> parent == ppid
      {
        var t := queue[i];
        assert t == w[i] && w[..i + 1] == w[..i] + [t];
        AdoptOne(old(tasks), tasks, w[..i], t, current);
        if t == tasks[current].ppid {
          parent := t;
        }
        if tasks[t].ppid == current {
          tasks := tasks[t := tasks[t].(ppid := INIT)];
        }
        Unlink(i, q, w, c);
        i := i + 1;
      }
      assert w[..i] == w;
      AdoptEnd(old(tasks), tasks, old(queue), w, current);
    }

    // `if (current_task == t->next) t->next = current_task->next` at place i.
    method Unlink(i: nat, ghost q: seq<nat>, ghost w: seq<nat>, ghost c: nat)
      requires 0 < c < |q| && q[c] == current && w == Cut(q, c) && i < |queue| && queue == (if i < c then q else w)
      requires (forall j :: 0 <= j < |q| && j != c ==> q[j] != current) && current !in w
      modifies this`queue
      ensures queue == (if i + 1 < c then q else w)
    {
      if i + 1 < |queue| && queue[i + 1] == current {
        queue := queue[..i + 1] + queue[i + 2..];
      }
    }

    // task_exit frees the exited children its task has not waited for.
    method FreeWaitQueue()
      requires current in tasks && Distinct(tasks[current].waitQueue)
      requires forall z :: z in tasks[current].waitQueue ==>
                 z in tasks && z != current && tasks[z].state.Exiting? && tasks[z].waitQueue == []
      modifies this`tasks, this`freed, this`locked
      ensures tasks == (old(tasks) - (set z: nat | z in old(tasks)[current].waitQueue))
                       [current := old(tasks)[current].(waitQueue := [])]
      ensures freed == old(freed) + old(tasks)[current].waitQueue
    {
      ghost var q: seq<nat> := tasks[current].waitQueue;
      ghost var t0: map<nat, Task> := tasks;
      ghost var n := 0;
      while tasks[current].waitQueue != []
        invariant 0 <= n <= |q| && current in tasks
        invariant tasks == (t0 - (set z: nat | z in q[..n]))[current := t0[current].(waitQueue := q[n..])]
        invariant freed == old(freed) + q[..n]
        decreases |q| - n
      {
        var z := tasks[current].waitQueue[0];
        assert z == q[n] && q[n] in q;
        assert q[..n + 1] == q[..n] + [z];
        assert z !in q[..n];
        TaskFree(z);
        tasks := tasks[current := tasks[current].(waitQueue := tasks[current].waitQueue[1..])];
        n := n + 1;
        assert tasks == (t0 - (set x: nat | x in q[..n]))[current := t0[current].(waitQueue := q[n..])];
      }
      assert q[..n] == q;
    }

    // The task is marked exited and put on its parent's wait queue.
    method JoinParent(parent: nat, status: int)
      requires current in tasks && parent in tasks && parent != current
      modifies this`tasks
      ensures tasks == old(tasks)[current := old(tasks)[current].(status := status, state := Exiting)]
                                 [parent := old(tasks)[parent].(waitQueue := old(tasks)[parent].waitQueue + [current])]
    {
      tasks := tasks[current := tasks[current].(status := status, state := Exiting)];
      tasks := tasks[parent := tasks[parent].(waitQueue := tasks[parent].waitQueue + [current])];
    }

    /** task_exit. */
    method TaskExit(status: int) returns (ok: bool)
      requires Valid()
      modifies this
      ensures ok <==> Exit(old(State()), status).Some?
      ensures ok ==> Valid() && State() == Exit(old(State()), status).value
    {
      hide Core, Die, SwitchFrom, IndexOf;
      ExitInv(State(), status);
      if current == INIT {
        locked := true;
        return true;
      }
      var k := Leave(status);
      ok := SwitchInner(if k <= |queue| then k else |queue|);
    }

    // task_exit up to its switch; k is the place the task had in the queue.
    method Leave(status: int) returns (k: nat)
      requires Valid() && current != INIT
      modifies this
      ensures State() == Die(old(State()), status) && k == IndexOf(old(queue), old(current))
      ensures forall p :: p in queue ==> p in tasks
    {
      hide Core, Die, SwitchFrom, Without, Reparented, WakeAll, IndexOf;
      locked := true;
      LockInv(old(State()), true);
      DieInv(old(State()), status);
      LeaveFacts(old(State()));
      k := IndexOf(queue, current);
      var parent := LeaveQueue();
      ZombieFacts(old(State()), tasks);
      ghost var t1 := tasks;
      FreeWaitQueue();
      LiveParent(old(State()), t1, tasks, parent);
      JoinParent(parent, status);
      LiveFacts(old(State()), status, t1, queue, tasks);
      ghost var t2 := tasks;
      var n := WakeupAt(WaitQueueOf(parent));
      locked := false;
      DieIs(old(State()), status, t1, t2, State());
    }
  }

  lemma SleepersNone(tasks: map<nat, Task>, a: Address)
    ensures Sleepers(tasks, [], a) == {}
  {
  }

  // One more task of the queue: it is woken unless it was already.
  lemma SleepersNext(tasks: map<nat, Task>, queue: seq<nat>, p: nat, a: Address)
    requires p in tasks
    ensures |Sleepers(tasks, queue + [p], a)|
         == |Sleepers(tasks, queue, a)| + if SleepsOn(tasks[p], a) && p !in queue then 1 else 0
  {
    if SleepsOn(tasks[p], a) {
      assert Sleepers(tasks, queue + [p], a) == Sleepers(tasks, queue, a) + {p};
    } else {
      assert Sleepers(tasks, queue + [p], a) == Sleepers(tasks, queue, a);
    }
  }

  lemma LiveQueue(s: Sys)
    requires Core(s)
    ensures forall p :: p in s.queue ==> p in s.tasks
  {
  }

  lemma LockInv(s: Sys, b: bool)
    requires Inv(s)
    ensures Inv(s.(locked := b))
  {
    SleepOnlyInv(s, s.(locked := b));
  }

  lemma TickInv(s: Sys)
    requires Inv(s)
    ensures Inv(s.(ticks := (s.ticks + 1) % TICK_LIMIT))
  {
    SleepOnlyInv(s, s.(ticks := (s.ticks + 1) % TICK_LIMIT));
  }

  lemma InCurrent(s: Sys)
    requires Inv(s)
    ensures s.current in s.tasks && forall p :: p in s.queue ==> p in s.tasks
  {
  }

  // The steps of task_exit put together.
  lemma DieIs(s: Sys, status: int, t1: map<nat, Task>, t2: map<nat, Task>, d: Sys)
    requires Inv(s) && s.current != INIT
    requires t1 == Reparented(s.tasks, s.queue, s.current)
    requires s.current in t1 && s.tasks[s.current].ppid in t1
    requires var me, par, q := s.current, s.tasks[s.current].ppid, s.tasks[s.current].waitQueue;
             var f := (t1 - (set z: nat | z in q))[me := t1[me].(waitQueue := [], status := status, state := Exiting)];
             par in f && t2 == f[par := f[par].(waitQueue := f[par].waitQueue + [me])]
    requires d == s.(tasks := WakeAll(t2, Without(s.queue, s.current), WaitQueueOf(s.tasks[s.current].ppid)),
                     queue := Without(s.queue, s.current), freed := s.freed + s.tasks[s.current].waitQueue, locked := false)
    ensures d == Die(s, status)
  {
    hide Core, Without, Reparented, WakeAll;
    InCurrent(s);
    var q := s.tasks[s.current].waitQueue;
    NotOwnChild(s);
    assert (set z: nat | z in q) == (set z | z in q);
  }

  lemma NotOwnChild(s: Sys)
    requires Inv(s)
    ensures s.current !in s.tasks[s.current].waitQueue
  {
  }

  lemma LiveParent(s: Sys, t1: map<nat, Task>, t: map<nat, Task>, parent: nat)
    requires Inv(s) && t1 == Reparented(s.tasks, s.queue, s.current) && parent in s.queue
    requires forall p :: p in t1 && p !in s.tasks[s.current].waitQueue ==> p in t
    ensures parent in t && parent in t1
  {
    assert forall z :: z in s.tasks[s.current].waitQueue ==> z !in s.queue;
  }

  function Cut(q: seq<nat>, c: nat): seq<nat>
    requires c < |q|
  {
    q[..c] + q[c + 1..]
  }

  function Adopted(t: Task, seen: bool, me: nat): Task {
    if seen && t.ppid == me then t.(ppid := INIT) else t
  }

  // The tasks seen so far have been handed to init if they were children of me.
  ghost predicate AdoptedAll(t0: map<nat, Task>, t: map<nat, Task>, seen: seq<nat>, me: nat) {
    t.Keys == t0.Keys && forall p :: p in t ==> t[p] == Adopted(t0[p], p in seen, me)
  }

  lemma AdoptStart(t: map<nat, Task>, me: nat)
    ensures AdoptedAll(t, t, [], me)
  {
  }

  lemma AdoptOne(t0: map<nat, Task>, t: map<nat, Task>, seen: seq<nat>, x: nat, me: nat)
    requires AdoptedAll(t0, t, seen, me) && x in t0 && me in t0 && me != INIT && t0[me].ppid != me
    ensures x in t && me in t && t[me].ppid == t0[me].ppid
    ensures AdoptedAll(t0, if t[x].ppid == me then t[x := t[x].(ppid := INIT)] else t, seen + [x], me)
  {
  }

  lemma AdoptEnd(t0: map<nat, Task>, t: map<nat, Task>, queue: seq<nat>, w: seq<nat>, me: nat)
    requires AdoptedAll(t0, t, w, me) && me in t0 && t0[me].ppid != me
    requires forall x :: x in w <==> x in queue && x != me
    ensures t == Reparented(t0, queue, me)
  {
  }

  // The queue without the current task, place by place.
  lemma WithoutAt(s: Sys)
    requires Inv(s) && s.current != INIT
    ensures var w, c := Without(s.queue, s.current), IndexOf(s.queue, s.current);
            && c < |s.queue| && w == Cut(s.queue, c) && |w| == |s.queue| - 1 && c <= |w|
            && (forall j :: 0 <= j < c ==> w[j] == s.queue[j])
            && (forall x :: x in w <==> x in s.queue && x != s.current)
  {
    LeaveFacts(s);
    WithoutIff(s.queue, s.current);
  }

  lemma LeaveFacts(s: Sys)
    requires Inv(s) && s.current != INIT
    ensures var c := IndexOf(s.queue, s.current);
            0 < c < |s.queue| && s.queue[c] == s.current && forall j :: 0 <= j < |s.queue| && j != c ==> s.queue[j] != s.current
    ensures s.current in s.tasks && s.tasks[s.current].ppid in s.queue && s.tasks[s.current].ppid != s.current
    ensures forall p :: p in s.queue ==> p in s.tasks
  {
    assert HasParent(s, s.current);
  }

  // The exited children of the current task satisfy what task_free asserts.
  lemma ZombieFacts(s: Sys, tasks: map<nat, Task>)
    requires Inv(s) && tasks == Reparented(s.tasks, s.queue, s.current)
    ensures s.current in tasks && tasks[s.current].waitQueue == s.tasks[s.current].waitQueue && Distinct(tasks[s.current].waitQueue)
    ensures forall z :: z in s.tasks[s.current].waitQueue ==>
              z in tasks && z != s.current && tasks[z].state.Exiting? && tasks[z].waitQueue == []
  {
    forall z | z in s.tasks[s.current].waitQueue
      ensures z in tasks && z != s.current && tasks[z].state.Exiting? && tasks[z].waitQueue == []
    {
      assert Held(s, z);
    }
  }

  lemma LiveFacts(s: Sys, status: int, t1: map<nat, Task>, queue: seq<nat>, tasks: map<nat, Task>)
    requires Inv(s) && s.current != INIT && queue == Without(s.queue, s.current)
    requires t1 == Reparented(s.tasks, s.queue, s.current)
    requires forall p :: p in t1 && p !in s.tasks[s.current].waitQueue ==> p in tasks
    ensures forall p :: p in queue ==> p in tasks
  {
    WithoutIff(s.queue, s.current);
    assert forall z :: z in s.tasks[s.current].waitQueue ==> z !in s.queue;
  }
}
