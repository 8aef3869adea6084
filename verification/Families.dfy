/**
Parents, children and exit statuses over runs of the process machine: whom a fork
makes a child of whom, what becomes of it, and what its parent's wait returns.
*/
module Families {
  import opened Wrappers
  import opened Tasks

  // The states of a run: one before each action, and the last one.
  ghost predicate Steps(ss: seq<Sys>, acts: seq<Action>) {
    && |ss| == |acts| + 1
    && (forall i, j :: 0 <= i < j < |ss| && j == i + 1 ==> ss[i].current in ss[i].tasks && Do(ss[i], acts[i]) == Some(ss[j]))
  }

  lemma {:induction false} StepsInv(ss: seq<Sys>, acts: seq<Action>, k: nat)
    requires Steps(ss, acts) && Inv(ss[0]) && k <= |acts|
    ensures Inv(ss[k]) && (k < |acts| ==> ss[k].current in ss[k].tasks && Do(ss[k], acts[k]) == Some(ss[k + 1]))
    decreases k
  {
    hide Inv, Do;
    if k > 0 {
      StepsInv(ss, acts, k - 1);
      DoInv(ss[k - 1], acts[k - 1]);
    }
    if k < |acts| {
      var j := k + 1;
      assert ss[k + 1] == ss[j];
      assert ss[k].current in ss[k].tasks && Do(ss[k], acts[k]) == Some(ss[j]);
    }
  }

  // Task x, which is not init, exits.
  predicate Exits(s: Sys, a: Action, x: nat) {
    a.DoExit? && s.current == x && x != INIT
  }

  // A wait of the running task returns the pid and status of c.
  predicate Reaps(s: Sys, a: Action, c: nat, status: int) {
    s.current in s.tasks && ((a.DoWait? && Wait(s).1 == Reaped(c, status)) || (a.DoWaitResume? && WaitResume(s).1 == Reaped(c, status)))
  }

  predicate Child(s: Sys, p: nat, c: nat) {
    p in s.queue && c in s.queue && c in s.tasks && s.tasks[c].ppid == p
  }

  // c has exited with that status, and its parent p has yet to wait for it.
  predicate Zombie(s: Sys, p: nat, c: nat, status: int) {
    && p in s.queue && p in s.tasks && c in s.tasks && c !in s.queue
    && c in s.tasks[p].waitQueue && s.tasks[c].ppid == p && s.tasks[c].status == status
  }

  // ---- one action ----------------------------------------------------------------------

  // Nobody comes, goes or changes parent.
  ghost predicate SameFamily(s: Sys, s': Sys) {
    && s'.tasks.Keys == s.tasks.Keys && s'.queue == s.queue && s'.nextPid == s.nextPid && s'.freed == s.freed
    && (forall p :: p in s.tasks ==>
                      && s'.tasks[p].ppid == s.tasks[p].ppid && s'.tasks[p].waitQueue == s.tasks[p].waitQueue
                      && s'.tasks[p].status == s.tasks[p].status)
  }

  lemma SwitchFamily(s: Sys, from: nat)
    requires from <= |s.queue| && forall p :: p in s.queue ==> p in s.tasks
    ensures SwitchFrom(s, from).Some? ==> SameFamily(s, SwitchFrom(s, from).value)
  {
    hide FirstReady;
  }

  lemma SwitchingFamily(s: Sys)
    requires forall p :: p in s.queue ==> p in s.tasks
    ensures Switch(s).Some? ==> SameFamily(s, Switch(s).value)
  {
    hide SwitchFrom;
    var k := IndexOf(s.queue, s.current);
    SwitchFamily(s, if k < |s.queue| then k + 1 else k);
  }

  lemma SleepFamily(s: Sys, a: Address)
    requires Inv(s)
    ensures SleepOn(s, a).Some? ==> SameFamily(s, SleepOn(s, a).value)
  {
    InQueueInTasks(s);
    hide Inv, Switch;
    SwitchingFamily(FallAsleep(s, a));
  }

  lemma SleepMsFamily(s: Sys, a: Address, ms: nat)
    requires Inv(s)
    ensures SleepOnMs(s, a, ms).Some? ==> SameFamily(s, SleepOnMs(s, a, ms).value)
  {
    WithDeadlineInv(s, ms);
    InQueueInTasks(s);
    hide Inv, SleepOn;
    SleepFamily(WithDeadline(s, ms), a);
  }

  // The actions that leave all families alone.
  predicate Quiet(s: Sys, a: Action)
    requires s.current in s.tasks
  {
    match a
    case DoFork => false
    case DoExit(_) => s.current == INIT
    case DoWait => s.tasks[s.current].waitQueue == []
    case DoWaitResume => s.tasks[s.current].waitQueue == []
    case _ => true
  }

  lemma QuietFamily(s: Sys, a: Action)
    requires Inv(s) && s.current in s.tasks && Quiet(s, a) && Do(s, a).Some?
    ensures SameFamily(s, Do(s, a).value)
  {
    InQueueInTasks(s);
    hide Inv, Switch, SleepOn, SleepOnMs, SameFamily, Wakeup;
    match a
    case DoExit(_) => LockFamily(s, true);
    case DoWait =>
      LockFamily(s, false);
      SleepFamily(s, WaitQueueOf(s.current));
    case DoWaitResume => LockFamily(s, false);
    case DoWakeup(x) => WakeupFamily(s, x);
    case DoSleep(addr) => SleepFamily(s, Other(addr));
    case DoSleepMs(addr, ms) => SleepMsFamily(s, Other(addr), ms);
    case DoTick => TickFamily(s);
    case DoSwitch => SwitchingFamily(s);
  }

  lemma LockFamily(s: Sys, b: bool)
    ensures SameFamily(s, s.(locked := b))
  {
  }

  lemma WakeupFamily(s: Sys, a: Address)
    ensures SameFamily(s, Wakeup(s, a))
  {
  }

  lemma TickFamily(s: Sys)
    requires forall p :: p in s.queue ==> p in s.tasks
    ensures Tick(s).Some? ==> SameFamily(s, Tick(s).value)
  {
    hide Switch;
    SwitchingFamily(s.(ticks := (s.ticks + 1) % TICK_LIMIT));
  }

  /** A fork makes one more task, the next pid, a child of the caller, that can run at once and has no children to wait for;
      nobody else changes. */
  lemma ForkChild(s: Sys)
    requires Inv(s)
    ensures Child(Fork(s), s.current, s.nextPid) && HasChild(Fork(s), s.current) && s.nextPid !in s.tasks
    ensures Fork(s).tasks.Keys == s.tasks.Keys + {s.nextPid} && Fork(s).queue == s.queue + [s.nextPid]
    ensures Fork(s).nextPid == s.nextPid + 1 && Fork(s).freed == s.freed
    ensures forall p :: p in s.tasks ==> Fork(s).tasks[p] == s.tasks[p]
    ensures ReadyAt(Fork(s), |s.queue|) && Fork(s).tasks[s.nextPid].waitQueue == [] && Fork(s).current == s.current
  {
    assert s.nextPid !in s.tasks;
    assert s.nextPid in Fork(s).queue;
  }

  // What an exit of the running task makes of all families.
  ghost predicate Left(s: Sys, status: int, s': Sys)
    requires s.current in s.tasks
  {
    var me := s.tasks[s.current];
    && (forall x :: x in s'.queue <==> x in s.queue && x != s.current)
    && (forall x :: x in s'.tasks <==> x in s.tasks && x !in me.waitQueue)
    && s'.freed == s.freed + me.waitQueue && s'.nextPid == s.nextPid
    && Zombie(s', me.ppid, s.current, status)
    && (forall x :: x in s'.tasks && x != s.current ==> x in s.tasks && LeftAs(s, s', x))
  }

  predicate LeftAs(s: Sys, s': Sys, x: nat)
    requires s.current in s.tasks && x in s.tasks && x in s'.tasks
  {
    && s'.tasks[x].status == s.tasks[x].status
    && s'.tasks[x].ppid == (if x in s.queue && s.tasks[x].ppid == s.current then INIT else s.tasks[x].ppid)
    && s'.tasks[x].waitQueue == s.tasks[x].waitQueue + (if x == s.tasks[s.current].ppid then [s.current] else [])
  }

  lemma DieFamily(s: Sys, status: int)
    requires Inv(s) && s.current != INIT
    ensures s.current in s.tasks && Left(s, status, Die(s, status))
  {
    DieFacts(s, status);
    DieBasics(s);
    InQueueInTasks(s);
    hide Die, Inv;
    var d := Die(s, status);
    hide DeadOr;
    forall x | x in d.tasks && x != s.current ensures LeftAs(s, d, x) {
      DeadLeft(s, status, d, x);
    }
    var me := s.current;
    DeadSelf(s, status, d);
    assert LeftAs(s, d, s.tasks[me].ppid);
  }

  lemma DeadLeft(s: Sys, status: int, d: Sys, x: nat)
    requires s.current in s.tasks && x in s.tasks && x in d.tasks && x != s.current && d.tasks[x] == DeadOr(s, status, x)
    ensures LeftAs(s, d, x)
  {
  }

  lemma DeadSelf(s: Sys, status: int, d: Sys)
    requires s.current in s.tasks && s.current in d.tasks && d.tasks[s.current] == DeadOr(s, status, s.current)
    requires s.tasks[s.current].ppid != s.current
    ensures d.tasks[s.current].status == status && d.tasks[s.current].ppid == s.tasks[s.current].ppid
  {
  }

  lemma SameLeft(s: Sys, status: int, d: Sys, s': Sys)
    requires s.current in s.tasks && Left(s, status, d) && SameFamily(d, s')
    ensures Left(s, status, s')
  {
    forall x | x in s'.tasks && x != s.current ensures LeftAs(s, s', x) {
      assert LeftAs(s, d, x);
    }
  }

  /** An exit: the caller's children in the queue become init's, the caller waits for its parent with its status, and the
      children it never waited for are gone. */
  lemma ExitFamily(s: Sys, status: int)
    requires Inv(s) && s.current != INIT && s.current in s.tasks && Exit(s, status).Some?
    ensures Left(s, status, Exit(s, status).value)
  {
    DieFamily(s, status);
    DieQueue(s, status);
    hide Die, Inv, SwitchFrom, Left, SameFamily;
    var k, d := IndexOf(s.queue, s.current), Die(s, status);
    SwitchFamily(d, if k <= |d.queue| then k else |d.queue|);
    SameLeft(s, status, d, Exit(s, status).value);
  }

  lemma DieQueue(s: Sys, status: int)
    requires Inv(s) && s.current != INIT
    ensures s.current in s.tasks && forall p :: p in Die(s, status).queue ==> p in Die(s, status).tasks
  {
    DieInv(s, status);
    hide Die;
    InQueueInTasks(s);
  }

  /** A reap takes the head of the caller's wait queue, returns its pid and status, and frees it. */
  lemma ReapFamily(s: Sys)
    requires Inv(s) && s.tasks[s.current].waitQueue != []
    ensures var s', q := Reap(s), s.tasks[s.current].waitQueue;
            && s'.queue == s.queue && s'.freed == s.freed + [q[0]] && s'.nextPid == s.nextPid
            && s'.tasks.Keys == s.tasks.Keys - {q[0]} && q[0] !in s.queue && q[0] in s.tasks && s.tasks[q[0]].ppid == s.current
            && (forall x :: x in s'.tasks ==>
                              && s'.tasks[x].ppid == s.tasks[x].ppid && s'.tasks[x].status == s.tasks[x].status
                              && s'.tasks[x].waitQueue == if x == s.current then q[1..] else s.tasks[x].waitQueue)
  {
    var q := s.tasks[s.current].waitQueue;
    assert q[0] in q;
  }

  // ---- what becomes of a child ---------------------------------------------------------------

  lemma ReapStep(s: Sys, a: Action)
    requires Inv(s) && s.current in s.tasks && (a.DoWait? || a.DoWaitResume?) && s.tasks[s.current].waitQueue != []
    ensures var q := s.tasks[s.current].waitQueue;
            && Do(s, a) == Some(Reap(s)) && q[0] in s.tasks
            && forall c, v :: Reaps(s, a, c, v) <==> c == q[0] && v == s.tasks[c].status
  {
    ReapFamily(s);
    hide Inv, Reap;
  }

  lemma NoReap(s: Sys, a: Action, c: nat, v: int)
    requires s.current in s.tasks && ((!a.DoWait? && !a.DoWaitResume?) || s.tasks[s.current].waitQueue == [])
    ensures !Reaps(s, a, c, v)
  {
  }

  /** A child stays one until it exits or its parent does: then it waits for the parent, or is init's. */
  lemma ChildStep(s: Sys, a: Action, s': Sys, p: nat, c: nat)
    requires Inv(s) && s.current in s.tasks && Do(s, a) == Some(s') && Child(s, p, c) && p != c
    ensures Exits(s, a, c) ==> Zombie(s', p, c, a.status)
    ensures Exits(s, a, p) ==> Child(s', 1, c)
    ensures !Exits(s, a, c) && !Exits(s, a, p) ==> Child(s', p, c)
  {
    if Quiet(s, a) {
      QuietFamily(s, a);
    } else if a.DoFork? {
      ForkChild(s);
    } else if a.DoExit? {
      ExitFamily(s, a.status);
      InitLive(s);
      hide Inv, Exit;
      assert c != s.current ==> c in s'.tasks && LeftAs(s, s', c) by { NotWaiting(s, c); }
    } else {
      ReapStep(s, a);
      ReapFamily(s);
      hide Inv, Reap;
    }
  }

  lemma InitLive(s: Sys)
    requires Inv(s)
    ensures INIT in s.queue
  {
  }

  // A task in the queue is in nobody's wait queue.
  lemma NotWaiting(s: Sys, c: nat)
    requires Inv(s) && c in s.queue
    ensures forall p :: p in s.tasks ==> c !in s.tasks[p].waitQueue
  {
  }

  /** An exited child keeps its status until its parent waits for it, which returns that status, or exits itself. */
  lemma ZombieStep(s: Sys, a: Action, s': Sys, p: nat, c: nat, v: int)
    requires Inv(s) && s.current in s.tasks && Do(s, a) == Some(s') && Zombie(s, p, c, v)
    ensures (exists w :: Reaps(s, a, c, w)) ==> Reaps(s, a, c, v) && s.current == p && c in s'.freed
    ensures Exits(s, a, p) ==> c in s'.freed
    ensures (forall w :: !Reaps(s, a, c, w)) && !Exits(s, a, p) ==> Zombie(s', p, c, v)
  {
    OneHolder(s, p, c);
    hide Inv, Reaps;
    if Quiet(s, a) {
      QuietFamily(s, a);
      forall w ensures !Reaps(s, a, c, w) {
        NoReap(s, a, c, w);
      }
    } else if a.DoFork? {
      ForkChild(s);
      forall w ensures !Reaps(s, a, c, w) {
        NoReap(s, a, c, w);
      }
    } else if a.DoExit? {
      ZombieExit(s, a, s', p, c, v);
    } else {
      ZombieReap(s, a, s', p, c, v);
    }
  }

  lemma ZombieExit(s: Sys, a: Action, s': Sys, p: nat, c: nat, v: int)
    requires Inv(s) && s.current in s.tasks && Do(s, a) == Some(s') && Zombie(s, p, c, v) && a.DoExit? && s.current != INIT
    ensures forall w :: !Reaps(s, a, c, w)
    ensures if s.current == p then c in s'.freed else Zombie(s', p, c, v)
  {
    OneHolder(s, p, c);
    ExitFamily(s, a.status);
    forall w ensures !Reaps(s, a, c, w) {
      NoReap(s, a, c, w);
    }
    hide Inv, Exit, Reaps;
    if s.current != p {
      assert c !in s.tasks[s.current].waitQueue;
      assert LeftAs(s, s', c) && LeftAs(s, s', p);
    }
  }

  lemma ZombieReap(s: Sys, a: Action, s': Sys, p: nat, c: nat, v: int)
    requires Inv(s) && s.current in s.tasks && Do(s, a) == Some(s') && Zombie(s, p, c, v)
    requires (a.DoWait? || a.DoWaitResume?) && s.tasks[s.current].waitQueue != []
    ensures (exists w :: Reaps(s, a, c, w)) ==> Reaps(s, a, c, v) && s.current == p && c in s'.freed
    ensures (forall w :: !Reaps(s, a, c, w)) ==> Zombie(s', p, c, v)
  {
    OneHolder(s, p, c);
    ReapStep(s, a);
    ReapFamily(s);
    hide Inv, Reap, Reaps, Do;
    var q := s.tasks[s.current].waitQueue;
    assert q == [q[0]] + q[1..];
    if c == q[0] {
      assert Reaps(s, a, c, v);
    }
  }

  // An exited task waits for one parent.
  lemma OneHolder(s: Sys, p: nat, c: nat)
    requires Inv(s) && p in s.tasks && c in s.tasks[p].waitQueue
    ensures forall q :: q in s.tasks && c in s.tasks[q].waitQueue ==> q == p
    ensures c !in s.queue && c != s.current
    ensures p in s.queue ==> p !in s.tasks[s.current].waitQueue
  {
    hide ParentsLive, ZombiesHeld, Conserved, NoLostWakeup;
    assert s.tasks[c].ppid == p && c !in s.queue;
  }

  // ---- over runs ---------------------------------------------------------------------------------

  // A forked child is in the queue, or exited at step j and is waiting, or was waited for at step m after that.
  datatype Fate = Alive | Waiting(j: nat) | Gone(j: nat, m: nat)

  ghost predicate Fated(ss: seq<Sys>, acts: seq<Action>, i: nat, k: nat, p: nat, c: nat, f: Fate)
    requires |ss| == |acts| + 1 && k <= |acts|
  {
    match f
    case Alive => Child(ss[k], p, c) && forall m :: i < m < k ==> !Exits(ss[m], acts[m], c)
    case Waiting(j) =>
      && i < j < k && Exits(ss[j], acts[j], c) && Zombie(ss[k], p, c, acts[j].status)
      && forall m, w :: j < m < k ==> !Reaps(ss[m], acts[m], c, w)
    case Gone(j, m) =>
      && i < j < m < k && Exits(ss[j], acts[j], c) && Reaps(ss[m], acts[m], c, acts[j].status) && ss[m].current == p
      && c in ss[k].freed
  }

  lemma FreedStays(s: Sys, a: Action, s': Sys)
    requires Inv(s) && s.current in s.tasks && Do(s, a) == Some(s')
    ensures forall c :: c in s.freed ==> c in s'.freed
    ensures s.nextPid <= s'.nextPid && forall c :: c in s'.queue ==> c in s.queue || c == s.nextPid
  {
    if Quiet(s, a) {
      QuietFamily(s, a);
    } else if a.DoFork? {
      ForkChild(s);
    } else if a.DoExit? {
      ExitFamily(s, a.status);
      hide Inv, Exit, LeftAs;
    } else {
      ReapStep(s, a);
      ReapFamily(s);
    }
  }

  /** What becomes of a forked child while its parent lives: it is the parent's child until it exits, then waits with its
      status, and when it is waited for it is the parent that gets its pid and that status, once. */
  lemma {:induction false} ForkFate(ss: seq<Sys>, acts: seq<Action>, i: nat, k: nat, p: nat, c: nat) returns (f: Fate)
    requires Steps(ss, acts) && Inv(ss[0]) && i < k <= |acts|
    requires acts[i] == DoFork && ss[i].current == p && ss[i].nextPid == c
    requires forall m :: i < m < k ==> !Exits(ss[m], acts[m], p)
    ensures Fated(ss, acts, i, k, p, c, f)
    decreases k
  {
    hide Inv, Do, Exits, Reaps, Child, Zombie;
    StepsInv(ss, acts, i);
    ForkIs(ss[i], p, c);
    StepsInv(ss, acts, k - 1);
    if k - 1 == i {
      f := Alive;
    } else {
      f := ForkFate(ss, acts, i, k - 1, p, c);
      f := FateStep(ss, acts, i, k - 1, p, c, f);
    }
  }

  lemma ForkIs(s: Sys, p: nat, c: nat)
    requires Inv(s) && s.current == p && s.nextPid == c
    ensures s.current in s.tasks && Do(s, DoFork).Some? && Child(Do(s, DoFork).value, p, c) && c != INIT
  {
    ForkChild(s);
    InQueueInTasks(s);
  }

  lemma FateStep(ss: seq<Sys>, acts: seq<Action>, i: nat, k: nat, p: nat, c: nat, f: Fate) returns (f': Fate)
    requires |ss| == |acts| + 1 && i < k < |acts| && Fated(ss, acts, i, k, p, c, f)
    requires Inv(ss[k]) && ss[k].current in ss[k].tasks && Do(ss[k], acts[k]) == Some(ss[k + 1])
    requires !Exits(ss[k], acts[k], p) && c != INIT
    ensures Fated(ss, acts, i, k + 1, p, c, f')
  {
    hide Do, Reaps, Zombie, Inv;
    f' := f;
    match f
    case Alive =>
      ChildOther(ss[k], p, c);
      ChildStep(ss[k], acts[k], ss[k + 1], p, c);
      if Exits(ss[k], acts[k], c) {
        f' := Waiting(k);
      }
    case Waiting(j) =>
      var v := acts[j].status;
      ZombieStep(ss[k], acts[k], ss[k + 1], p, c, v);
      if w :| Reaps(ss[k], acts[k], c, w) {
        f' := Gone(j, k);
      }
    case Gone(_, _) =>
      FreedStays(ss[k], acts[k], ss[k + 1]);
  }

  lemma ChildOther(s: Sys, p: nat, c: nat)
    requires Inv(s) && Child(s, p, c) && c != INIT
    ensures p != c
  {
    assert HasParent(s, c);
  }

  /** What a wait returns, in any run: if p forked c, then p's wait returns c only with the status that c exited with,
      and -1, for no children, only when every child it forked has been waited for. */
  lemma WaitReturns(ss: seq<Sys>, acts: seq<Action>, i: nat, k: nat, p: nat, c: nat)
    requires Steps(ss, acts) && Inv(ss[0]) && i < k < |acts|
    requires acts[i] == DoFork && ss[i].current == p && ss[i].nextPid == c
    requires forall m :: i < m < k ==> !Exits(ss[m], acts[m], p)
    requires ss[k].current == p && ss[k].current in ss[k].tasks
    ensures forall v :: Reaps(ss[k], acts[k], c, v) ==>
              exists j :: i < j < k && Exits(ss[j], acts[j], c) && acts[j].status == v
    ensures acts[k] == DoWait && Wait(ss[k]).1 == NoChildren ==>
              exists j, m :: i < j < m < k && Exits(ss[j], acts[j], c) && Reaps(ss[m], acts[m], c, acts[j].status) && ss[m].current == p
  {
    StepsInv(ss, acts, k);
    var f := ForkFate(ss, acts, i, k, p, c);
    hide Do, Exits;
    WaitAnswers(ss[k], acts[k], p, c);
    if f.Waiting? {
      ZombieAnswer(ss[k], acts[k], p, c, acts[f.j].status);
    }
  }

  lemma WaitAnswers(s: Sys, a: Action, p: nat, c: nat)
    requires Inv(s) && s.current == p && s.current in s.tasks
    ensures Child(s, p, c) ==> (forall v :: !Reaps(s, a, c, v)) && (a == DoWait ==> Wait(s).1 != NoChildren)
    ensures c in s.freed ==> forall v :: !Reaps(s, a, c, v)
  {
    var q := s.tasks[p].waitQueue;
    if q != [] {
      assert q[0] in q && q[0] in s.tasks && q[0] !in s.queue;
    }
  }

  lemma ZombieAnswer(s: Sys, a: Action, p: nat, c: nat, v: int)
    requires Inv(s) && s.current == p && s.current in s.tasks && Zombie(s, p, c, v)
    ensures a == DoWait ==> Wait(s).1.Reaped?
    ensures forall w :: Reaps(s, a, c, w) ==> w == v
  {
  }

  /** Nothing else is ever returned: whoever is waited for in a run from boot, by its parent or by init, has exited with
      the status returned. */
  lemma ReapedExited(ss: seq<Sys>, acts: seq<Action>, k: nat, c: nat, v: int)
    requires Steps(ss, acts) && ss[0] == Initial() && k < |acts| && Reaps(ss[k], acts[k], c, v)
    ensures exists j :: 0 <= j < k && Exits(ss[j], acts[j], c) && acts[j].status == v
  {
    InitialInv();
    StepsInv(ss, acts, k);
    hide Do, Exits;
    ReapFamily(ss[k]);
    var j := ExitedBefore(ss, acts, k, c);
  }

  lemma {:induction false} ExitedBefore(ss: seq<Sys>, acts: seq<Action>, k: nat, c: nat) returns (j: nat)
    requires Steps(ss, acts) && ss[0] == Initial() && k <= |acts| && c in ss[k].tasks && c !in ss[k].queue
    ensures j < k && Exits(ss[j], acts[j], c) && acts[j].status == ss[k].tasks[c].status
    decreases k
  {
    InitialInv();
    hide Inv, Do, Exits;
    assert k > 0;
    StepsInv(ss, acts, k - 1);
    if c in ss[k - 1].tasks && c !in ss[k - 1].queue {
      j := ExitedBefore(ss, acts, k - 1, c);
      StatusStays(ss[k - 1], acts[k - 1], ss[k], c);
    } else {
      LeavesByExit(ss[k - 1], acts[k - 1], ss[k], c);
      j := k - 1;
    }
  }

  lemma StatusStays(s: Sys, a: Action, s': Sys, c: nat)
    requires Inv(s) && s.current in s.tasks && Do(s, a) == Some(s') && c in s.tasks && c !in s.queue && c in s'.tasks
    ensures s'.tasks[c].status == s.tasks[c].status
  {
    if Quiet(s, a) {
      QuietFamily(s, a);
    } else if a.DoFork? {
      ForkChild(s);
    } else if a.DoExit? {
      ExitFamily(s, a.status);
      hide Exit;
      assert c != s.current && LeftAs(s, s', c);
    } else {
      ReapStep(s, a);
      ReapFamily(s);
    }
  }

  lemma LeavesByExit(s: Sys, a: Action, s': Sys, c: nat)
    requires Inv(s) && s.current in s.tasks && Do(s, a) == Some(s') && c in s'.tasks && c !in s'.queue
    requires c !in s.tasks || c in s.queue
    ensures Exits(s, a, c) && a.status == s'.tasks[c].status
  {
    if Quiet(s, a) {
      QuietFamily(s, a);
    } else if a.DoFork? {
      ForkChild(s);
    } else if a.DoExit? {
      ExitFamily(s, a.status);
      hide Exit;
    } else {
      ReapStep(s, a);
      ReapFamily(s);
    }
  }
}
