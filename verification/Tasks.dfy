/**
Process life cycle and round-robin scheduling as a step machine: fork, exit,
wait, sleep, wakeup, timer tick and switch. Each call is one step.
*/
module Tasks {
  import opened Wrappers

  const INIT := 1
  const MS_PER_TICK := 10
  const TICK_LIMIT := 0x1_0000_0000

  datatype State = Running | Awaken | Sleeping | Exiting

  /** Addresses a task may sleep on: the wait queue of a task, or anything else. */
  datatype Address = Nowhere | WaitQueueOf(pid: nat) | Other(addr: nat)

  datatype Task = Task(ppid: nat, state: State, sleepAddr: Address, sleepEnd: nat, waitQueue: seq<nat>, status: int)

  /** The task structures by pid, the run queue in link order, the running task, the next pid to issue, whether
      switching is locked, the timer, and the pids whose structures have been freed, in order. */
  datatype Sys = Sys(tasks: map<nat, Task>, queue: seq<nat>, current: nat, nextPid: nat,
                     locked: bool, ticks: nat, freed: seq<nat>)

  // ---- the invariant ---------------------------------------------------------

  ghost predicate Distinct(s: seq<nat>) {
    forall i, j :: 0 <= i < j < |s| ==> s[i] != s[j]
  }

  // The queue holds live tasks, init first.
  ghost predicate QueueOk(s: Sys) {
    && Distinct(s.queue) && s.queue != [] && s.queue[0] == INIT
    && (forall p :: p in s.queue ==> p in s.tasks && !s.tasks[p].state.Exiting?)
  }

  predicate HasParent(s: Sys, p: nat) {
    p in s.tasks && s.tasks[p].ppid in s.queue && s.tasks[p].ppid != p
  }

  // Every task but init has a parent in the queue.
  ghost predicate ParentsLive(s: Sys) {
    forall p {:trigger HasParent(s, p)} :: p in s.tasks && p != INIT ==> HasParent(s, p)
  }

  predicate Held(s: Sys, z: nat) {
    && z in s.tasks && s.tasks[z].state.Exiting? && s.tasks[z].waitQueue == []
    && s.tasks[z].ppid in s.tasks && z in s.tasks[s.tasks[z].ppid].waitQueue
  }

  // A task that has left the queue has exited, waits for its parent to reap it, and has nothing left to reap itself.
  ghost predicate ZombiesHeld(s: Sys) {
    forall z {:trigger Held(s, z)} :: z in s.tasks && z !in s.queue ==> Held(s, z)
  }

  // A wait queue holds exited children of its task, each once.
  ghost predicate WaitQueuesOk(s: Sys) {
    && (forall p :: p in s.tasks ==> Distinct(s.tasks[p].waitQueue))
    && (forall p, z :: p in s.tasks && z in s.tasks[p].waitQueue ==>
                         z in s.tasks && z !in s.queue && s.tasks[z].ppid == p)
  }

  // Every pid ever issued is a task structure or has been freed, exactly once.
  ghost predicate Conserved(s: Sys) {
    && Distinct(s.freed)
    && (forall p :: p in s.freed ==> p !in s.tasks)
    && (forall p: nat :: INIT <= p < s.nextPid <==> p in s.tasks || p in s.freed)
  }

  // No task sleeps on its own wait queue while a child is there to be reaped.
  ghost predicate NoLostWakeup(s: Sys) {
    forall p :: p in s.queue && p in s.tasks && s.tasks[p].state.Sleeping? && s.tasks[p].sleepAddr == WaitQueueOf(p) ==>
                  s.tasks[p].waitQueue == []
  }

  // Everything but the place of the running task, which leaves the queue inside task_exit.
  ghost predicate Core(s: Sys) {
    QueueOk(s) && ParentsLive(s) && ZombiesHeld(s) && WaitQueuesOk(s) && Conserved(s) && NoLostWakeup(s)
  }

  ghost predicate Inv(s: Sys) {
    Core(s) && s.current in s.queue
  }

  function Initial(): Sys {
    Sys(map[INIT := Task(0, Running, Nowhere, 0, [], 0)], [INIT], INIT, 2, false, 0, [])
  }

  lemma InitialInv()
    ensures Inv(Initial())
  {
    assert Initial().queue[0] == INIT;
  }

  // ---- scheduling ------------------------------------------------------------

  // Can the scheduler choose t? A sleeper with a deadline is woken on the way once the deadline has passed.
  predicate Ready(t: Task, ticks: nat) {
    t.state.Running? || t.state.Awaken? || (t.state.Sleeping? && 0 < t.sleepEnd < ticks)
  }

  function Woken(t: Task, ticks: nat): Task {
    if t.state.Sleeping? && 0 < t.sleepEnd < ticks then t.(state := Running, sleepEnd := 0) else t
  }

  predicate ReadyAt(s: Sys, k: nat) {
    k < |s.queue| && s.queue[k] in s.tasks && Ready(s.tasks[s.queue[k]], s.ticks)
  }

  // First ready place at or after k, |queue| if none.
  function FirstReady(s: Sys, k: nat): (r: nat)
    requires k <= |s.queue|
    ensures k <= r <= |s.queue|
    ensures r < |s.queue| ==> ReadyAt(s, r)
    ensures forall i: nat :: k <= i < r ==> !ReadyAt(s, i)
    decreases |s.queue| - k
  {
    if k == |s.queue| then k else if ReadyAt(s, k) then k else FirstReady(s, k + 1)
  }

  // Place chosen when the scan starts at `from` and wraps to the head of the queue.
  function Pick(s: Sys, from: nat): (r: nat)
    requires from <= |s.queue|
    ensures r <= |s.queue| && (r < |s.queue| ==> ReadyAt(s, r))
    ensures r == |s.queue| <==> forall i: nat :: i < |s.queue| ==> !ReadyAt(s, i)
  {
    var r := FirstReady(s, from);
    if r < |s.queue| then r else FirstReady(s, 0)
  }

  function IndexOf(queue: seq<nat>, p: nat): (k: nat)
    ensures k <= |queue| && (k < |queue| <==> p in queue)
    ensures k < |queue| ==> queue[k] == p
  {
    if queue == [] then 0 else if queue[0] == p then 0 else 1 + IndexOf(queue[1..], p)
  }

  // task_switch_inner, scanning from a place in the queue; None is the panic when even the idle task sleeps.
  function SwitchFrom(s: Sys, from: nat): Option<Sys>
    requires from <= |s.queue|
  {
    if s.locked then Some(s)
    else
      var k := Pick(s, from);
      if k == |s.queue| then None
      else
        var p := s.queue[k];
        Some(s.(current := p, tasks := s.tasks[p := Woken(s.tasks[p], s.ticks)]))
  }

  function Switch(s: Sys): Option<Sys> {
    var k := IndexOf(s.queue, s.current);
    SwitchFrom(s, if k < |s.queue| then k + 1 else k)
  }

  /** A task can be chosen when it runs or has been woken, or sleeps with a deadline that has passed. */
  lemma ReadyIff(s: Sys, p: nat)
    requires p in s.queue && p in s.tasks
    ensures ReadyAt(s, IndexOf(s.queue, p)) <==>
              var t := s.tasks[p];
              t.state == Running || t.state == Awaken || (t.state == Sleeping && t.sleepEnd != 0 && s.ticks > t.sleepEnd)
  {
  }

  // ---- the other calls ---------------------------------------------------------

  function Fork(s: Sys): Sys {
    s.(tasks := s.tasks[s.nextPid := Task(s.current, Running, Nowhere, 0, [], 0)],
       queue := s.queue + [s.nextPid], nextPid := s.nextPid + 1, locked := false)
  }

  predicate SleepsOn(t: Task, a: Address) {
    t.state.Sleeping? && t.sleepAddr == a
  }

  // The tasks of a queue that a wakeup on a wakes.
  ghost function Sleepers(tasks: map<nat, Task>, queue: seq<nat>, a: Address): set<nat> {
    set p | p in queue && p in tasks && SleepsOn(tasks[p], a)
  }

  function WokenBy(t: Task, a: Address): Task {
    if SleepsOn(t, a) then t.(state := Running, sleepAddr := Nowhere, sleepEnd := 0) else t
  }

  function WakeAll(tasks: map<nat, Task>, queue: seq<nat>, a: Address): map<nat, Task> {
    map p | p in tasks :: if p in queue then WokenBy(tasks[p], a) else tasks[p]
  }

  function Wakeup(s: Sys, a: Address): Sys {
    s.(tasks := WakeAll(s.tasks, s.queue, a), locked := false)
  }

  // sleep_on without its final switch.
  function FallAsleep(s: Sys, a: Address): Sys
    requires s.current in s.tasks
  {
    s.(tasks := s.tasks[s.current := s.tasks[s.current].(state := Sleeping, sleepAddr := a)], locked := false)
  }

  function SleepOn(s: Sys, a: Address): Option<Sys>
    requires s.current in s.tasks
  {
    Switch(FallAsleep(s, a))
  }

  // Deadline of a sleep of ms milliseconds that starts at tick t: 32-bit arithmetic.
  function Deadline(t: nat, ms: nat): nat {
    (t + TicksFor(ms)) % TICK_LIMIT
  }

  function TicksFor(ms: nat): nat {
    ms / MS_PER_TICK + if ms % MS_PER_TICK != 0 then 1 else 0
  }

  function WithDeadline(s: Sys, ms: nat): (s': Sys)
    requires s.current in s.tasks
    ensures s'.current in s'.tasks
  {
    s.(tasks := s.tasks[s.current := s.tasks[s.current].(sleepEnd := Deadline(s.ticks, ms))])
  }

  function SleepOnMs(s: Sys, a: Address, ms: nat): Option<Sys>
    requires s.current in s.tasks
  {
    SleepOn(WithDeadline(s, ms), a)
  }

  function Without(queue: seq<nat>, p: nat): (r: seq<nat>)
  {
    var k := IndexOf(queue, p);
    if k < |queue| then queue[..k] + queue[k + 1..] else queue
  }

  // task_free of the head of the current task's wait queue.
  function Reap(s: Sys): Sys
    requires s.current in s.tasks && s.tasks[s.current].waitQueue != []
  {
    var me := s.tasks[s.current];
    var z := me.waitQueue[0];
    s.(tasks := s.tasks[s.current := me.(waitQueue := me.waitQueue[1..])] - {z},
       freed := s.freed + [z], locked := false)
  }

  predicate HasChild(s: Sys, p: nat) {
    exists c :: c in s.queue && c in s.tasks && s.tasks[c].ppid == p
  }

  datatype Waited = Reaped(pid: nat, status: int) | NoChildren | Slept | TooEarly

  // task_wait up to the point where it returns or falls asleep.
  function Wait(s: Sys): (Option<Sys>, Waited)
    requires s.current in s.tasks
  {
    var q := s.tasks[s.current].waitQueue;
    if q != [] then (Some(Reap(s)), Reaped(q[0], if q[0] in s.tasks then s.tasks[q[0]].status else 0))
    else if !HasChild(s, s.current) then (Some(s.(locked := false)), NoChildren)
    else (SleepOn(s, WaitQueueOf(s.current)), Slept)
  }

  // task_wait after its sleep.
  function WaitResume(s: Sys): (Sys, Waited)
    requires s.current in s.tasks
  {
    var q := s.tasks[s.current].waitQueue;
    if q == [] then (s.(locked := false), TooEarly)
    else (Reap(s), Reaped(q[0], if q[0] in s.tasks then s.tasks[q[0]].status else 0))
  }

  function Reparented(tasks: map<nat, Task>, queue: seq<nat>, me: nat): map<nat, Task> {
    map p | p in tasks :: if p in queue && tasks[p].ppid == me then tasks[p].(ppid := INIT) else tasks[p]
  }

  // task_exit of a task other than init, up to its final switch.
  function Die(s: Sys, status: int): Sys
    requires s.current in s.tasks
  {
    var me := s.tasks[s.current];
    var t1 := Reparented(s.tasks, s.queue, s.current) - (set z | z in me.waitQueue);
    var queue := Without(s.queue, s.current);
    var t2 := if s.current in t1 then t1[s.current := t1[s.current].(status := status, state := Exiting, waitQueue := [])]
              else t1;
    var t3 := if me.ppid in t2 then t2[me.ppid := t2[me.ppid].(waitQueue := t2[me.ppid].waitQueue + [s.current])] else t2;
    s.(tasks := WakeAll(t3, queue, WaitQueueOf(me.ppid)), queue := queue, freed := s.freed + me.waitQueue, locked := false)
  }

  function Exit(s: Sys, status: int): Option<Sys>
    requires s.current in s.tasks
  {
    if s.current == INIT then Some(s.(locked := true))
    else
      var k := IndexOf(s.queue, s.current);
      var d := Die(s, status);
      SwitchFrom(d, if k <= |d.queue| then k else |d.queue|)
  }

  function Tick(s: Sys): Option<Sys> {
    Switch(s.(ticks := (s.ticks + 1) % TICK_LIMIT))
  }

  // ---- every call keeps the invariant -----------------------------------------

  // Changing only a live task's scheduling fields, to a state that is not Exiting.
  ghost predicate SameButSleep(s: Sys, s': Sys) {
    && s'.tasks.Keys == s.tasks.Keys && s'.queue == s.queue && s'.nextPid == s.nextPid && s'.freed == s.freed
    && s'.current in s.queue
    && (forall p :: p in s.tasks ==>
                      && s'.tasks[p].ppid == s.tasks[p].ppid && s'.tasks[p].waitQueue == s.tasks[p].waitQueue
                      && (s'.tasks[p].state.Exiting? <==> s.tasks[p].state.Exiting?))
    && (forall p :: p in s.queue && p in s.tasks && s'.tasks[p].state.Sleeping? && s'.tasks[p].sleepAddr == WaitQueueOf(p) ==>
                      s.tasks[p].waitQueue == [])
  }

  lemma SleepOnlyInv(s: Sys, s': Sys)
    requires Core(s) && SameButSleep(s, s')
    ensures Inv(s')
  {
    SleepOnlyParents(s, s');
    hide ParentsLive, ZombiesHeld;
    assert QueueOk(s') && NoLostWakeup(s');
    hide QueueOk, NoLostWakeup;
    assert WaitQueuesOk(s') && Conserved(s');
  }

  lemma SleepOnlyParents(s: Sys, s': Sys)
    requires Core(s) && SameButSleep(s, s')
    ensures ParentsLive(s') && ZombiesHeld(s')
  {
    hide QueueOk, WaitQueuesOk, Conserved, NoLostWakeup;
    forall p | p in s'.tasks
      ensures p != INIT ==> HasParent(s', p)
      ensures p !in s'.queue ==> Held(s', p)
    {
      assert p != INIT ==> HasParent(s, p);
      assert p !in s.queue ==> Held(s, p);
    }
  }

  lemma SwitchSameButSleep(s: Sys, from: nat)
    requires QueueOk(s) && NoLostWakeup(s) && from <= |s.queue| && (s.locked ==> s.current in s.queue)
    ensures SwitchFrom(s, from).Some? ==> SameButSleep(s, SwitchFrom(s, from).value)
  {
    hide FirstReady;
  }

  lemma SwitchFromInv(s: Sys, from: nat)
    requires Core(s) && from <= |s.queue| && (s.locked ==> s.current in s.queue)
    ensures SwitchFrom(s, from).Some? ==> Inv(SwitchFrom(s, from).value)
  {
    SwitchSameButSleep(s, from);
    hide SwitchFrom, Core, SameButSleep;
    if SwitchFrom(s, from).Some? {
      SleepOnlyInv(s, SwitchFrom(s, from).value);
    }
  }

  lemma SwitchInv(s: Sys)
    requires Inv(s)
    ensures Switch(s).Some? ==> Inv(Switch(s).value)
  {
    hide Core, SwitchFrom;
    var k := IndexOf(s.queue, s.current);
    SwitchFromInv(s, if k < |s.queue| then k + 1 else k);
  }

  lemma WakeupSameButSleep(s: Sys, a: Address)
    requires QueueOk(s) && NoLostWakeup(s) && s.current in s.queue
    ensures SameButSleep(s, Wakeup(s, a))
  {
  }

  lemma WakeupInv(s: Sys, a: Address)
    requires Inv(s)
    ensures Inv(Wakeup(s, a))
  {
    WakeupSameButSleep(s, a);
    hide Core, SameButSleep, Wakeup;
    SleepOnlyInv(s, Wakeup(s, a));
  }

  lemma FallAsleepInv(s: Sys, a: Address)
    requires Inv(s) && (a == WaitQueueOf(s.current) ==> s.tasks[s.current].waitQueue == [])
    ensures Inv(FallAsleep(s, a))
  {
    SleepOnlyInv(s, FallAsleep(s, a));
  }

  lemma SleepOnInv(s: Sys, a: Address)
    requires Inv(s) && (a == WaitQueueOf(s.current) ==> s.tasks[s.current].waitQueue == [])
    ensures SleepOn(s, a).Some? ==> Inv(SleepOn(s, a).value)
  {
    FallAsleepInv(s, a);
    SwitchInv(FallAsleep(s, a));
  }

  lemma WithDeadlineInv(s: Sys, ms: nat)
    requires Inv(s)
    ensures Inv(WithDeadline(s, ms))
  {
    SleepOnlyInv(s, WithDeadline(s, ms));
  }

  lemma SleepOnMsInv(s: Sys, a: Address, ms: nat)
    requires Inv(s) && !a.WaitQueueOf?
    ensures SleepOnMs(s, a, ms).Some? ==> Inv(SleepOnMs(s, a, ms).value)
  {
    hide SleepOn;
    WithDeadlineInv(s, ms);
    SleepOnInv(WithDeadline(s, ms), a);
  }

  lemma ForkInv(s: Sys)
    requires Inv(s)
    ensures Inv(Fork(s))
  {
    var s', n := Fork(s), s.nextPid;
    assert n !in s.tasks && n !in s.freed && n !in s.queue;
    ForkQueue(s);
    assert WaitQueuesOk(s') by {
      assert forall p, z :: p in s.tasks && z in s.tasks[p].waitQueue ==> z != n;
    }
    assert ParentsLive(s') && ZombiesHeld(s') by {
      forall p | p in s'.tasks
        ensures p != INIT ==> HasParent(s', p)
        ensures p !in s'.queue ==> Held(s', p)
      {
        assert p != n && p != INIT ==> HasParent(s, p);
        assert p != n && p !in s.queue ==> Held(s, p);
      }
    }
    assert NoLostWakeup(s');
  }

  lemma ForkQueue(s: Sys)
    requires QueueOk(s) && Conserved(s) && s.nextPid !in s.queue
    ensures QueueOk(Fork(s)) && Conserved(Fork(s))
  {
    assert s.queue[0] in s.tasks;
  }

  /** Reaping frees a child that has exited and whose own wait queue is empty, as task_free asserts. */
  lemma ReapInv(s: Sys)
    requires Inv(s) && s.tasks[s.current].waitQueue != []
    ensures Inv(Reap(s))
    ensures var z := s.tasks[s.current].waitQueue[0];
            z in s.tasks && s.tasks[z].state.Exiting? && s.tasks[z].waitQueue == [] && z !in s.freed
  {
    ReapQueue(s);
    ReapWaits(s);
    ReapFamily(s);
    assert Held(s, s.tasks[s.current].waitQueue[0]);
  }

  // The head of a wait queue is no live task.
  lemma HeadGone(s: Sys)
    requires Inv(s) && s.tasks[s.current].waitQueue != []
    ensures var z := s.tasks[s.current].waitQueue[0]; z != s.current && z !in s.queue && z in s.tasks
    ensures var q := s.tasks[s.current].waitQueue; q == [q[0]] + q[1..] && q[0] !in q[1..]
  {
    hide ParentsLive, ZombiesHeld, Conserved, NoLostWakeup;
    var q := s.tasks[s.current].waitQueue;
    assert q[0] in q;
  }

  lemma ReapQueue(s: Sys)
    requires Inv(s) && s.tasks[s.current].waitQueue != []
    ensures QueueOk(Reap(s)) && Conserved(Reap(s)) && NoLostWakeup(Reap(s)) && Reap(s).current in Reap(s).queue
  {
    HeadGone(s);
    hide ParentsLive, ZombiesHeld, WaitQueuesOk;
  }

  lemma ReapWaits(s: Sys)
    requires Inv(s) && s.tasks[s.current].waitQueue != []
    ensures WaitQueuesOk(Reap(s))
  {
    HeadGone(s);
    hide ParentsLive, ZombiesHeld, Conserved, NoLostWakeup;
    var s' := Reap(s);
    forall p, x | p in s'.tasks && x in s'.tasks[p].waitQueue
      ensures x in s'.tasks && x !in s'.queue && s'.tasks[x].ppid == p
    {
      assert x in s.tasks[p].waitQueue;
    }
  }

  lemma ReapFamily(s: Sys)
    requires Inv(s) && s.tasks[s.current].waitQueue != []
    ensures ParentsLive(Reap(s)) && ZombiesHeld(Reap(s))
  {
    HeadGone(s);
    hide Conserved, NoLostWakeup;
    var s' := Reap(s);
    forall p | p in s'.tasks
      ensures p != INIT ==> HasParent(s', p)
      ensures p !in s'.queue ==> Held(s', p)
    {
      assert p != INIT ==> HasParent(s, p);
      assert p !in s.queue ==> Held(s, p);
    }
  }

  // ---- exit --------------------------------------------------------------------

  lemma {:induction false} WithoutIff(queue: seq<nat>, p: nat)
    requires Distinct(queue)
    ensures Distinct(Without(queue, p))
    ensures forall x :: x in Without(queue, p) <==> x in queue && x != p
    ensures p in queue ==> |Without(queue, p)| == |queue| - 1
    ensures queue != [] && queue[0] != p ==> Without(queue, p) != [] && Without(queue, p)[0] == queue[0]
  {
    var k, r := IndexOf(queue, p), Without(queue, p);
    if k < |queue| {
      assert forall i :: 0 <= i < k ==> r[i] == queue[i];
      assert forall i :: k <= i < |r| ==> r[i] == queue[i + 1];
      forall x | x in queue && x != p ensures x in r {
        var i :| 0 <= i < |queue| && queue[i] == x;
        assert r[if i < k then i else i - 1] == x;
      }
    }
  }

  // What an exit leaves of task p.
  function DeadOr(s: Sys, status: int, p: nat): Task
    requires s.current in s.tasks && p in s.tasks
  {
    var me := s.tasks[s.current];
    var t := if p in s.queue && s.tasks[p].ppid == s.current then s.tasks[p].(ppid := INIT) else s.tasks[p];
    if p == s.current then t.(status := status, state := Exiting, waitQueue := [])
    else
      var t' := if p == me.ppid then t.(waitQueue := t.waitQueue + [s.current]) else t;
      if p in s.queue then WokenBy(t', WaitQueueOf(me.ppid)) else t'
  }

  lemma DieBasics(s: Sys)
    requires Inv(s) && s.current != INIT
    ensures var me := s.tasks[s.current];
            && me.ppid in s.tasks && me.ppid in s.queue && me.ppid != s.current
            && s.current !in me.waitQueue && me.ppid !in me.waitQueue
            && forall z :: z in me.waitQueue ==> z !in s.queue
  {
    hide ZombiesHeld, Conserved, NoLostWakeup;
    assert HasParent(s, s.current);
  }

  lemma DieTasks(s: Sys, status: int)
    requires Inv(s) && s.current != INIT
    ensures var d := Die(s, status); var q := s.tasks[s.current].waitQueue;
            && (forall p :: p in d.tasks <==> p in s.tasks && p !in q)
            && (forall p :: p in d.tasks ==> d.tasks[p] == DeadOr(s, status, p))
            && s.current in d.tasks && s.tasks[s.current].ppid in d.tasks
            && s.tasks[s.current].ppid in d.queue && s.tasks[s.current].ppid != s.current
  {
    assert Distinct(s.queue);
    WithoutIff(s.queue, s.current);
    DieBasics(s);
    InQueueInTasks(s);
    DieKeys(s, status);
    forall p | p in Die(s, status).tasks ensures Die(s, status).tasks[p] == DeadOr(s, status, p) {
      DieValue(s, status, p);
    }
    hide Core, Without, Distinct, Reparented, WakeAll, DeadOr;
  }

  lemma InQueueInTasks(s: Sys)
    requires Inv(s)
    ensures s.current in s.tasks && forall p :: p in s.queue ==> p in s.tasks
  {
  }

  lemma DieKeys(s: Sys, status: int)
    requires s.current in s.tasks && s.tasks[s.current].ppid in s.tasks
    requires s.current !in s.tasks[s.current].waitQueue && s.tasks[s.current].ppid !in s.tasks[s.current].waitQueue
    ensures forall p :: p in Die(s, status).tasks <==> p in s.tasks && p !in s.tasks[s.current].waitQueue
  {
    hide Without, WokenBy;
  }

  lemma DieValue(s: Sys, status: int, p: nat)
    requires s.current in s.tasks && s.tasks[s.current].ppid in s.tasks && s.tasks[s.current].ppid != s.current
    requires s.current !in s.tasks[s.current].waitQueue && s.tasks[s.current].ppid !in s.tasks[s.current].waitQueue
    requires p in Die(s, status).tasks
    requires forall x :: x in Without(s.queue, s.current) <==> x in s.queue && x != s.current
    ensures p in s.tasks && Die(s, status).tasks[p] == DeadOr(s, status, p)
  {
    hide Without;
  }

  /** Exiting keeps the invariant: the children left behind have init as parent, the exited task waits in exactly one
      wait queue, with an empty one of its own, and the children it had not reaped are freed. */
  lemma DieInv(s: Sys, status: int)
    requires Inv(s) && s.current != INIT
    ensures Core(Die(s, status)) && !Die(s, status).locked
    ensures s.tasks[s.current].ppid in s.queue
  {
    var d := Die(s, status);
    DieFacts(s, status);
    hide Die, Died, DeadOr, QueueOk, ParentsLive, ZombiesHeld, WaitQueuesOk, Conserved, NoLostWakeup;
    DieQueue(s, status, d);
    DieConserved(s, status, d);
    DieWaitQueues(s, status, d);
    DieFamily(s, status, d);
  }

  lemma DieFacts(s: Sys, status: int)
    requires Inv(s) && s.current != INIT
    ensures Died(s, status, Die(s, status)) && !Die(s, status).locked
    ensures s.tasks[s.current].ppid in s.queue
  {
    DieTasks(s, status);
    WithoutIff(s.queue, s.current);
    hide DeadOr, Without, Reparented, WakeAll;
  }

  // What Die does, as facts for the lemmas below.
  ghost predicate Died(s: Sys, status: int, d: Sys) {
    && Inv(s) && s.current != INIT
    && (forall p :: p in d.tasks <==> p in s.tasks && p !in s.tasks[s.current].waitQueue)
    && (forall p :: p in d.tasks ==> d.tasks[p] == DeadOr(s, status, p))
    && Distinct(d.queue) && d.queue != [] && d.queue[0] == INIT
    && (forall x :: x in d.queue <==> x in s.queue && x != s.current)
    && d.freed == s.freed + s.tasks[s.current].waitQueue && d.nextPid == s.nextPid
    && s.tasks[s.current].ppid in d.queue && s.tasks[s.current].ppid != s.current
  }

  lemma DieQueue(s: Sys, status: int, d: Sys)
    requires Died(s, status, d)
    ensures QueueOk(d) && NoLostWakeup(d)
  {
    assert forall z :: z in s.tasks[s.current].waitQueue ==> z !in s.queue;
    forall p | p in d.queue
      ensures p in d.tasks && !d.tasks[p].state.Exiting?
      ensures d.tasks[p].state.Sleeping? && d.tasks[p].sleepAddr == WaitQueueOf(p) ==> d.tasks[p].waitQueue == []
    {
      assert p in s.queue && p in s.tasks;
      assert d.tasks[p] == DeadOr(s, status, p);
    }
  }

  lemma DieConserved(s: Sys, status: int, d: Sys)
    requires Died(s, status, d)
    ensures Conserved(d)
  {
    hide DeadOr, ParentsLive, ZombiesHeld, NoLostWakeup;
    var q := s.tasks[s.current].waitQueue;
    assert forall z :: z in q ==> z in s.tasks && z !in s.freed;
    assert forall p :: p in d.freed <==> p in s.freed || p in q;
    AppendDistinct(s.freed, q);
  }

  lemma AppendDistinct(a: seq<nat>, b: seq<nat>)
    requires Distinct(a) && Distinct(b) && forall x :: x in b ==> x !in a
    ensures Distinct(a + b)
  {
    forall i, j | 0 <= i < j < |a + b| ensures (a + b)[i] != (a + b)[j] {
      if i < |a| <= j {
        assert b[j - |a|] in b;
      }
    }
  }

  // The family fields of a task after an exit.
  lemma DeadFields(s: Sys, status: int, p: nat)
    requires s.current in s.tasks && p in s.tasks
    ensures var t := DeadOr(s, status, p); var par := s.tasks[s.current].ppid;
            && t.ppid == (if p in s.queue && s.tasks[p].ppid == s.current then INIT else s.tasks[p].ppid)
            && t.waitQueue == (if p == s.current then []
                               else if p == par then s.tasks[p].waitQueue + [s.current]
                               else s.tasks[p].waitQueue)
            && (t.state.Exiting? <==> p == s.current || s.tasks[p].state.Exiting?)
  {
  }

  lemma DieWaitQueues(s: Sys, status: int, d: Sys)
    requires Died(s, status, d)
    ensures WaitQueuesOk(d)
  {
    hide DeadOr;
    var me := s.current;
    assert forall p, z :: p in s.tasks && z in s.tasks[p].waitQueue ==> z != me;
    forall p | p in d.tasks ensures Distinct(d.tasks[p].waitQueue) {
      DeadFields(s, status, p);
      AppendDistinct(s.tasks[p].waitQueue, [me]);
    }
    forall p, z | p in d.tasks && z in d.tasks[p].waitQueue
      ensures z in d.tasks && z !in d.queue && d.tasks[z].ppid == p
    {
      DieWaiting(s, status, d, p, z);
    }
  }

  lemma DieWaiting(s: Sys, status: int, d: Sys, p: nat, z: nat)
    requires Died(s, status, d) && p in d.tasks && z in d.tasks[p].waitQueue
    ensures z in d.tasks && z !in d.queue && d.tasks[z].ppid == p
  {
    hide DeadOr, ParentsLive, ZombiesHeld, NoLostWakeup, Conserved;
    DeadFields(s, status, p);
    var me := s.current;
    if z == me {
      assert me !in s.tasks[me].waitQueue;
      assert forall x :: x in s.tasks && me in s.tasks[x].waitQueue ==> me !in s.queue;
      DeadFields(s, status, me);
    } else {
      assert z in s.tasks[p].waitQueue;
      assert s.tasks[z].ppid == p != me;
      DeadFields(s, status, z);
    }
  }

  lemma DieFamily(s: Sys, status: int, d: Sys)
    requires Died(s, status, d)
    ensures ParentsLive(d) && ZombiesHeld(d)
  {
    forall p | p in d.tasks
      ensures p != INIT ==> HasParent(d, p)
      ensures p !in d.queue ==> Held(d, p)
    {
      DieMember(s, status, d, p);
    }
  }

  lemma DieMember(s: Sys, status: int, d: Sys, p: nat)
    requires Died(s, status, d) && p in d.tasks
    ensures p != INIT ==> HasParent(d, p)
    ensures p !in d.queue ==> Held(d, p)
  {
    hide DeadOr, NoLostWakeup, Conserved;
    var me, par := s.current, s.tasks[s.current].ppid;
    DeadFields(s, status, p);
    assert p != INIT ==> HasParent(s, p);
    assert par in s.queue && par in s.tasks && par in d.tasks by {
      assert forall z :: z in s.tasks[me].waitQueue ==> z !in s.queue;
    }
    if p !in s.queue {
      assert Held(s, p);
      var h := s.tasks[p].ppid;
      assert h != me;
      assert h in s.queue;
      assert h in d.tasks by {
        assert forall z :: z in s.tasks[me].waitQueue ==> z !in s.queue;
      }
      DeadFields(s, status, h);
    } else if p == me {
      DeadFields(s, status, par);
    }
  }

  lemma ExitInv(s: Sys, status: int)
    requires Inv(s)
    ensures Exit(s, status).Some? ==> Inv(Exit(s, status).value)
  {
    if s.current == INIT {
      SleepOnlyInv(s, s.(locked := true));
    } else {
      DieInv(s, status);
      var k, d := IndexOf(s.queue, s.current), Die(s, status);
      hide Die, Core, SwitchFrom;
      SwitchFromInv(d, if k <= |d.queue| then k else |d.queue|);
    }
  }

  /** An exit leaves switching locked exactly when it is init's; then neither a switch nor a tick changes the running
      task any more, ready tasks or not. */
  lemma ExitLocks(s: Sys, status: int)
    requires Inv(s) && Exit(s, status).Some?
    ensures Exit(s, status).value.locked <==> s.current == INIT
    ensures var s' := Exit(s, status).value;
            s'.locked ==>
              && s'.current == s.current
              && Switch(s') == Some(s')
              && Tick(s').Some? && Tick(s').value.current == s.current && Tick(s').value.locked
  {
    if s.current != INIT {
      DieInv(s, status);
    }
    hide Die, Pick, Core;
  }

  // ---- runs ----------------------------------------------------------------------

  datatype Action =
    | DoFork | DoExit(status: int) | DoWait | DoWaitResume
    | DoSleep(addr: nat) | DoSleepMs(addr: nat, ms: nat) | DoWakeup(a: Address)
    | DoTick | DoSwitch

  // One call of the running task, or a timer interrupt; None is a panic.
  function Do(s: Sys, a: Action): Option<Sys>
    requires s.current in s.tasks
  {
    match a
    case DoFork => Some(Fork(s))
    case DoExit(status) => Exit(s, status)
    case DoWait => Wait(s).0
    case DoWaitResume => Some(WaitResume(s).0)
    case DoSleep(addr) => SleepOn(s, Other(addr))
    case DoSleepMs(addr, ms) => SleepOnMs(s, Other(addr), ms)
    case DoWakeup(x) => Some(Wakeup(s, x))
    case DoTick => Tick(s)
    case DoSwitch => Switch(s)
  }

  lemma DoInv(s: Sys, a: Action)
    requires Inv(s)
    ensures Do(s, a).Some? ==> Inv(Do(s, a).value)
  {
    hide Switch, SleepOn, SleepOnMs, Exit, Fork, Wakeup, Reap;
    match a
    case DoFork => ForkInv(s);
    case DoExit(status) => ExitInv(s, status);
    case DoWait =>
      if s.tasks[s.current].waitQueue != [] {
        ReapInv(s);
      } else if !HasChild(s, s.current) {
        SleepOnlyInv(s, s.(locked := false));
      } else {
        SleepOnInv(s, WaitQueueOf(s.current));
      }
    case DoWaitResume =>
      if s.tasks[s.current].waitQueue != [] {
        ReapInv(s);
      } else {
        SleepOnlyInv(s, s.(locked := false));
      }
    case DoSleep(addr) => SleepOnInv(s, Other(addr));
    case DoSleepMs(addr, ms) => SleepOnMsInv(s, Other(addr), ms);
    case DoWakeup(x) => WakeupInv(s, x);
    case DoTick =>
      SleepOnlyInv(s, s.(ticks := (s.ticks + 1) % TICK_LIMIT));
      SwitchInv(s.(ticks := (s.ticks + 1) % TICK_LIMIT));
    case DoSwitch => SwitchInv(s);
  }

  ghost predicate Reaches(s: Sys, acts: seq<Action>, s': Sys)
    decreases |acts|
  {
    if acts == [] then s' == s
    else s.current in s.tasks && Do(s, acts[0]).Some? && Reaches(Do(s, acts[0]).value, acts[1..], s')
  }

  lemma {:induction false} RunInv(s: Sys, acts: seq<Action>, s': Sys)
    requires Inv(s) && Reaches(s, acts, s')
    ensures Inv(s')
    decreases |acts|
  {
    hide Do, Core;
    if acts != [] {
      DoInv(s, acts[0]);
      RunInv(Do(s, acts[0]).value, acts[1..], s');
    }
  }

  /** Process conservation, in every state reachable from boot: every pid ever issued is live in the queue, or exited
      and in the wait queue of exactly one live task, or freed, and never two of these; the parent of every live task
      but init is live, so the search in task_exit finds it; and an exited task has an empty wait queue. */
  lemma ProcessConservation(acts: seq<Action>, s: Sys, p: nat)
    requires Reaches(Initial(), acts, s)
    requires INIT <= p < s.nextPid
    ensures p in s.queue || (p in s.tasks && p !in s.queue) || p in s.freed
    ensures p in s.queue ==> p in s.tasks && p !in s.freed && (p != INIT ==> s.tasks[p].ppid in s.queue)
    ensures p in s.tasks && p !in s.queue ==>
              && p !in s.freed && s.tasks[p].state.Exiting? && s.tasks[p].waitQueue == []
              && (exists h :: h in s.queue && h in s.tasks && p in s.tasks[h].waitQueue)
              && (forall h, k :: h in s.tasks && k in s.tasks && p in s.tasks[h].waitQueue && p in s.tasks[k].waitQueue ==>
                                   h == k)
    ensures p in s.freed ==> p !in s.tasks && multiset(s.freed)[p] == 1
  {
    InitialInv();
    RunInv(Initial(), acts, s);
    if p in s.tasks {
      assert p != INIT ==> HasParent(s, p);
      if p !in s.queue {
        assert Held(s, p);
        assert p in s.tasks[s.tasks[p].ppid].waitQueue;
      }
    }
    if p in s.freed {
      DistinctOnce(s.freed, p);
    }
  }

  lemma {:induction false} DistinctOnce(s: seq<nat>, p: nat)
    requires Distinct(s) && p in s
    ensures multiset(s)[p] == 1
  {
    var x, r := s[0], s[1..];
    assert s == [x] + r;
    if x == p {
      assert p !in r;
    } else {
      DistinctOnce(r, p);
    }
  }

  // ---- the round-robin bound -------------------------------------------------------

  // Steps of the cyclic scan from just after place c to place k, in a queue of n.
  function Distance(c: nat, k: nat, n: nat): (d: nat)
    requires c < n && k < n
    ensures d < n
  {
    if k > c then k - c - 1 else n - c - 1 + k
  }

  // The running task's place after a switch is ready, and no farther along the scan than any ready place.
  lemma PickNearest(s: Sys, c: nat, k: nat)
    requires c < |s.queue| && k < |s.queue| && ReadyAt(s, k)
    ensures var j := Pick(s, c + 1);
            j < |s.queue| && Distance(c, j, |s.queue|) <= Distance(c, k, |s.queue|)
  {
    var j := FirstReady(s, c + 1);
    if j == |s.queue| {
      assert k <= c;
    }
  }

  // The states at successive switches: between two of them anything may happen that leaves the queue, the lock and
  // the running task alone and leaves p ready.
  ghost predicate Schedule(pre: seq<Sys>, p: nat) {
    && (forall i :: 0 <= i < |pre| ==>
                      && pre[i].queue == pre[0].queue && Distinct(pre[i].queue) && !pre[i].locked
                      && pre[i].current in pre[i].queue && p in pre[i].queue
                      && ReadyAt(pre[i], IndexOf(pre[i].queue, p)))
    && (forall i, j :: 0 <= i < j < |pre| && j == i + 1 ==>
                         Switch(pre[i]).Some? && pre[j].current == Switch(pre[i]).value.current)
  }

  lemma {:induction false} IndexUnique(q: seq<nat>, k: nat)
    requires Distinct(q) && k < |q|
    ensures IndexOf(q, q[k]) == k
  {
  }

  /** A task that stays ready is chosen within as many switches as there are tasks in the queue. */
  lemma RoundRobin(pre: seq<Sys>, p: nat)
    requires Schedule(pre, p) && pre != [] && |pre| >= |pre[0].queue|
    ensures exists i :: 0 <= i < |pre[0].queue| && Switch(pre[i]).Some? && Switch(pre[i]).value.current == p
  {
    var i := ChosenBy(pre, p, 0);
  }

  lemma {:induction false} ChosenBy(pre: seq<Sys>, p: nat, i: nat) returns (j: nat)
    requires Schedule(pre, p) && i < |pre|
    requires i + Distance(IndexOf(pre[i].queue, pre[i].current), IndexOf(pre[i].queue, p), |pre[i].queue|) < |pre|
    ensures i <= j <= i + Distance(IndexOf(pre[i].queue, pre[i].current), IndexOf(pre[i].queue, p), |pre[i].queue|)
    ensures j < |pre| && Switch(pre[j]).Some? && Switch(pre[j]).value.current == p
    decreases |pre| - i
  {
    var s := pre[i];
    var n, c, k := |s.queue|, IndexOf(s.queue, s.current), IndexOf(s.queue, p);
    PickNearest(s, c, k);
    var next := Pick(s, c + 1);
    assert Switch(s).Some? && Switch(s).value.current == s.queue[next];
    if next == k {
      j := i;
    } else {
      IndexUnique(s.queue, next);
      assert Distance(c, next, n) < Distance(c, k, n);
      assert pre[i + 1].current == s.queue[next];
      assert Distance(next, k, n) == Distance(c, k, n) - Distance(c, next, n) - 1;
      j := ChosenBy(pre, p, i + 1);
    }
  }

  // ---- timed sleep -----------------------------------------------------------------

  // Task p sleeps on a with deadline e and is not running.
  predicate Asleep(s: Sys, p: nat, a: Address, e: nat) {
    && p in s.queue && p in s.tasks && s.current != p
    && s.tasks[p].state.Sleeping? && s.tasks[p].sleepAddr == a && s.tasks[p].sleepEnd == e
  }

  lemma SwitchKeepsAsleep(s: Sys, from: nat, p: nat, a: Address, e: nat)
    requires QueueOk(s) && from <= |s.queue| && (e == 0 || s.ticks <= e)
    requires p in s.queue && s.tasks[p].state.Sleeping? && s.tasks[p].sleepAddr == a && s.tasks[p].sleepEnd == e
    requires s.locked ==> s.current != p
    ensures SwitchFrom(s, from).Some? ==> Asleep(SwitchFrom(s, from).value, p, a, e)
  {
    hide FirstReady;
  }

  function TicksOf(a: Action): nat {
    if a == DoTick then 1 else 0
  }

  lemma DoKeepsAsleep(s: Sys, act: Action, p: nat, a: Address, e: nat)
    requires Inv(s) && Asleep(s, p, a, e) && a.Other? && act != DoWakeup(a)
    requires e == 0 || s.ticks + TicksOf(act) <= e < TICK_LIMIT
    ensures Do(s, act).Some? ==>
              Asleep(Do(s, act).value, p, a, e) && (e > 0 ==> Do(s, act).value.ticks == s.ticks + TicksOf(act))
  {
    hide Exit, Wait, WaitResume, SleepOn, SleepOnMs, Tick, Switch;
    match act
    case DoFork =>
    case DoExit(status) => ExitKeepsAsleep(s, status, p, a, e);
    case DoWait => WaitKeepsAsleep(s, p, a, e);
    case DoWaitResume => WaitKeepsAsleep(s, p, a, e);
    case DoSleep(addr) => SleepKeepsAsleep(s, Other(addr), p, a, e);
    case DoSleepMs(addr, ms) => SleepMsKeepsAsleep(s, Other(addr), ms, p, a, e);
    case DoWakeup(x) =>
    case DoTick => TickKeepsAsleep(s, p, a, e);
    case DoSwitch => SwitchingKeepsAsleep(s, p, a, e);
  }

  lemma DieKeepsAsleep(s: Sys, status: int, p: nat, a: Address, e: nat)
    requires Inv(s) && s.current != INIT && Asleep(s, p, a, e) && a.Other?
    ensures Asleep(Die(s, status), p, a, e) && Die(s, status).ticks == s.ticks
  {
    hide Die, ParentsLive, ZombiesHeld, Conserved, NoLostWakeup;
    DieFacts(s, status);
    DieClock(s, status);
    assert Die(s, status).tasks[p] == DeadOr(s, status, p);
  }

  lemma DieClock(s: Sys, status: int)
    requires Inv(s) && s.current != INIT
    ensures Die(s, status).current == s.current && Die(s, status).ticks == s.ticks
  {
    hide QueueOk, ParentsLive, ZombiesHeld, WaitQueuesOk, Conserved, NoLostWakeup;
  }

  lemma ExitKeepsAsleep(s: Sys, status: int, p: nat, a: Address, e: nat)
    requires Inv(s) && Asleep(s, p, a, e) && a.Other? && (e == 0 || s.ticks <= e)
    ensures Exit(s, status).Some? ==> Asleep(Exit(s, status).value, p, a, e) && Exit(s, status).value.ticks == s.ticks
  {
    if s.current != INIT {
      var k, d := IndexOf(s.queue, s.current), Die(s, status);
      DieKeepsAsleep(s, status, p, a, e);
      DieInv(s, status);
      hide Die, SwitchFrom, QueueOk, ParentsLive, ZombiesHeld, WaitQueuesOk, Conserved, NoLostWakeup;
      SwitchKeepsAsleep(d, if k <= |d.queue| then k else |d.queue|, p, a, e);
    }
  }

  lemma SwitchingKeepsAsleep(s: Sys, p: nat, a: Address, e: nat)
    requires Inv(s) && Asleep(s, p, a, e) && (e == 0 || s.ticks <= e)
    ensures Switch(s).Some? ==> Asleep(Switch(s).value, p, a, e) && Switch(s).value.ticks == s.ticks
  {
    hide FirstReady, Pick;
    var k := IndexOf(s.queue, s.current);
    SwitchKeepsAsleep(s, if k < |s.queue| then k + 1 else k, p, a, e);
  }

  lemma TickKeepsAsleep(s: Sys, p: nat, a: Address, e: nat)
    requires Inv(s) && Asleep(s, p, a, e) && (e == 0 || s.ticks + 1 <= e < TICK_LIMIT)
    ensures Tick(s).Some? ==> Asleep(Tick(s).value, p, a, e) && (e > 0 ==> Tick(s).value.ticks == s.ticks + 1)
  {
    hide Switch;
    var s1 := s.(ticks := (s.ticks + 1) % TICK_LIMIT);
    SleepOnlyInv(s, s1);
    SwitchingKeepsAsleep(s1, p, a, e);
  }

  lemma SleepMsKeepsAsleep(s: Sys, x: Address, ms: nat, p: nat, a: Address, e: nat)
    requires Inv(s) && Asleep(s, p, a, e) && (e == 0 || s.ticks <= e)
    ensures SleepOnMs(s, x, ms).Some? ==>
              Asleep(SleepOnMs(s, x, ms).value, p, a, e) && SleepOnMs(s, x, ms).value.ticks == s.ticks
  {
    hide SleepOn;
    var s1 := s.(tasks := s.tasks[s.current := s.tasks[s.current].(sleepEnd := Deadline(s.ticks, ms))]);
    SleepOnlyInv(s, s1);
    SleepKeepsAsleep(s1, x, p, a, e);
  }

  lemma SleepKeepsAsleep(s: Sys, x: Address, p: nat, a: Address, e: nat)
    requires Inv(s) && Asleep(s, p, a, e) && (e == 0 || s.ticks <= e)
    ensures SleepOn(s, x).Some? ==> Asleep(SleepOn(s, x).value, p, a, e) && SleepOn(s, x).value.ticks == s.ticks
  {
    hide FirstReady, Pick;
    var s1 := FallAsleep(s, x);
    var k := IndexOf(s1.queue, s1.current);
    SwitchKeepsAsleep(s1, if k < |s1.queue| then k + 1 else k, p, a, e);
  }

  lemma WaitKeepsAsleep(s: Sys, p: nat, a: Address, e: nat)
    requires Inv(s) && Asleep(s, p, a, e) && (e == 0 || s.ticks <= e)
    ensures Wait(s).0.Some? ==> Asleep(Wait(s).0.value, p, a, e) && Wait(s).0.value.ticks == s.ticks
    ensures Asleep(WaitResume(s).0, p, a, e) && WaitResume(s).0.ticks == s.ticks
  {
    hide FirstReady, Pick, SleepOn;
    SleepKeepsAsleep(s, WaitQueueOf(s.current), p, a, e);
    var q := s.tasks[s.current].waitQueue;
    if q != [] {
      assert q[0] in q;
      assert q[0] !in s.queue;
    }
  }

  function CountTicks(acts: seq<Action>): nat {
    if acts == [] then 0 else TicksOf(acts[0]) + CountTicks(acts[1..])
  }

  /** A timed sleeper that nobody wakes by its address is neither woken nor chosen in any run with no more timer ticks
      than its sleep was rounded up to. */
  lemma {:induction false} TimedSleep(s: Sys, acts: seq<Action>, s': Sys, p: nat, a: Address, e: nat)
    requires Inv(s) && Reaches(s, acts, s') && Asleep(s, p, a, e) && a.Other?
    requires forall i :: 0 <= i < |acts| ==> acts[i] != DoWakeup(a)
    requires e == 0 || s.ticks + CountTicks(acts) <= e < TICK_LIMIT
    ensures Asleep(s', p, a, e)
    decreases |acts|
  {
    hide Do, Core;
    if acts != [] {
      DoInv(s, acts[0]);
      DoKeepsAsleep(s, acts[0], p, a, e);
      TimedSleep(Do(s, acts[0]).value, acts[1..], s', p, a, e);
    }
  }

  /** A timed sleeper whose deadline has passed can be chosen, and runs with no deadline left when it is. */
  lemma Overdue(s: Sys, p: nat, a: Address, e: nat)
    requires Inv(s) && Asleep(s, p, a, e) && 0 < e < s.ticks
    ensures ReadyAt(s, IndexOf(s.queue, p))
    ensures Switch(s).Some? && Switch(s).value.current == p && !s.locked ==>
              Switch(s).value.tasks[p].state == Running && Switch(s).value.tasks[p].sleepEnd == 0
  {
    hide FirstReady, Pick;
  }

  /** A wakeup makes every task that sleeps on the address runnable, with no deadline left, and changes no other task. */
  lemma WakeupWakes(s: Sys, a: Address, p: nat)
    requires Inv(s) && p in s.tasks
    ensures var t, t' := s.tasks[p], Wakeup(s, a).tasks[p];
            if p in s.queue && t.state == Sleeping && t.sleepAddr == a then t'.state == Running && t'.sleepEnd == 0 else t' == t
    ensures Wakeup(s, a).queue == s.queue && Wakeup(s, a).current == s.current && !Wakeup(s, a).locked
  {
  }

  /** sleep_on puts the caller to sleep on the address with the deadline it has. */
  lemma SleepStarted(s: Sys, a: Address)
    requires Inv(s) && (s.tasks[s.current].sleepEnd == 0 || s.ticks <= s.tasks[s.current].sleepEnd)
    ensures SleepOn(s, a).Some? ==> Asleep(SleepOn(s, a).value, s.current, a, s.tasks[s.current].sleepEnd)
  {
    hide FirstReady, Pick;
    var s1 := FallAsleep(s, a);
    var k := IndexOf(s1.queue, s1.current);
    SwitchKeepsAsleep(s1, if k < |s1.queue| then k + 1 else k, s.current, a, s.tasks[s.current].sleepEnd);
  }

  /** A tick counts, in 32 bits. */
  lemma TickCounts(s: Sys)
    requires Inv(s)
    ensures Tick(s).Some? ==> Tick(s).value.ticks == (s.ticks + 1) % 0x1_0000_0000
  {
    hide FirstReady, Pick;
  }

  /** Milliseconds in ticks of ten, rounded up. */
  lemma TicksRounded(ms: nat)
    ensures TicksFor(ms) == (ms + 9) / 10
  {
  }

  /** sleep_onms puts the caller to sleep with a deadline ceil(ms / 10) ticks away, unless that passes 2^32. */
  lemma SleepStarts(s: Sys, addr: nat, ms: nat)
    requires Inv(s) && s.ticks + TicksFor(ms) < TICK_LIMIT
    ensures SleepOnMs(s, Other(addr), ms).Some? ==>
              && Asleep(SleepOnMs(s, Other(addr), ms).value, s.current, Other(addr), s.ticks + TicksFor(ms))
              && SleepOnMs(s, Other(addr), ms).value.ticks == s.ticks
  {
    hide FirstReady, Pick;
    var s1 := s.(tasks := s.tasks[s.current := s.tasks[s.current].(sleepEnd := Deadline(s.ticks, ms))]);
    var s2 := FallAsleep(s1, Other(addr));
    var k := IndexOf(s2.queue, s2.current);
    SwitchKeepsAsleep(s2, if k < |s2.queue| then k + 1 else k, s.current, Other(addr), s.ticks + TicksFor(ms));
  }
}
