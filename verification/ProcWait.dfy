/**
 Waiting for children cannot deadlock: while every wait is for any child, no exit goes unnoticed,
 and below every blocked process there is a live one that is not blocked.
 */
module ProcWait {
  import opened Proc
  import opened ProcLaws

  // ---- process identities

  /** A pid that has been handed out: 0 for idle, from 1 to kernel processes, from 100 to forks. */
  predicate Issued(s: Sched, pid: int) { 0 <= pid < s.nextKernel || 100 <= pid < s.nextFork }

  predicate Alive(p: Process) { !p.state.Unused? }

  /** Pids in use were issued, and once: they are pairwise distinct, and only to children of issued pids. */
  ghost predicate PidsDistinct(s: Sched) {
    forall i: Slot, j: Slot :: i != j && Alive(s.procs[i]) && Alive(s.procs[j]) ==> s.procs[i].pid != s.procs[j].pid
  }

  ghost predicate PidsIssued(s: Sched) {
    && 1 <= s.nextKernel && 100 <= s.nextFork
    && (forall i: Slot :: Alive(s.procs[i]) ==> Issued(s, s.procs[i].pid) && Issued(s, s.procs[i].ppid))
  }

  /**
   A new kernel process keeps the pids distinct if and only if the next kernel pid is not in
   use: from the hundredth kernel process on it may collide with a fork's.
   */
  lemma CreateKeepsPids(s: Sched)
    requires PidsDistinct(s) && FirstUnused(s.procs, 0) < 64
    ensures PidsDistinct(CreateKernel(s).0) <==> !exists i: Slot :: Named(s.procs[i], s.nextKernel)
  {
    var k := FirstUnused(s.procs, 0);
    var r := CreateKernel(s).0;
    assert r.procs[k].pid == s.nextKernel && Alive(r.procs[k]);
    forall i: Slot | i != k ensures r.procs[i] == s.procs[i] {}
    if i: Slot :| Named(s.procs[i], s.nextKernel) {
      assert Alive(r.procs[i]) && r.procs[i].pid == r.procs[k].pid;
    }
  }

  /** A fork keeps the pids distinct if and only if the next fork pid is not in use by a kernel process or a fork. */
  lemma ForkKeepsPids(s: Sched, dir: nat)
    requires PidsDistinct(s) && FirstUnused(s.procs, 0) < 64
    ensures PidsDistinct(Fork(s, dir).0) <==> !exists i: Slot :: Named(s.procs[i], s.nextFork)
  {
    var k := FirstUnused(s.procs, 0);
    var r := Fork(s, dir).0;
    assert r.procs[k].pid == s.nextFork && Alive(r.procs[k]);
    forall i: Slot | i != k ensures r.procs[i] == s.procs[i] {}
    if i: Slot :| Named(s.procs[i], s.nextFork) {
      assert Alive(r.procs[i]) && r.procs[i].pid == r.procs[k].pid;
    }
  }

  // ---- the order of creation

  /** Positions in the order of creation, kept beside the table: the n-th process created has age n. */
  type Ages = a: seq<nat> | |a| == 64 witness seq(64, _ => 0)

  /** Every child was created after its parent. */
  ghost predicate ParentsFirst(s: Sched, ages: Ages, created: nat) {
    && (forall i: Slot :: Alive(s.procs[i]) ==> ages[i] < created)
    && (forall i: Slot, j: Slot ::
      i != 0 && Alive(s.procs[i]) && Alive(s.procs[j]) && s.procs[i].ppid == s.procs[j].pid ==> ages[j] < ages[i])
  }

  /** The slot a step creates a process in, or 64. */
  function Created(s: Sched, a: Step): nat {
    if a.Creates? then CreateKernel(s).1 else if a.Forks? then Fork(s, a.dir).1 else 64
  }

  function AgesAfter(s: Sched, a: Step, ages: Ages, created: nat): (Ages, nat) {
    if Created(s, a) < 64 then (ages[Created(s, a) := created], created + 1) else (ages, created)
  }

  // ---- blocked processes

  /** j holds a child that can still exit: alive and no zombie. */
  predicate Worker(p: Process, parent: int) { ChildOf(p, parent) && !p.state.Zombie? }

  /** A blocked process has a child still at work, and no zombie waiting to be reaped. */
  ghost predicate WaitsForSomeone(s: Sched, i: Slot) {
    && (exists j: Slot :: j != i && Worker(s.procs[j], s.procs[i].pid))
    && (forall j: Slot :: !(s.procs[j].state.Zombie? && s.procs[j].ppid == s.procs[i].pid))
  }

  ghost predicate NoLostWakeup(s: Sched) {
    forall i: Slot :: s.procs[i].state.Blocked? ==> i != 0 && WaitsForSomeone(s, i)
  }

  ghost predicate Waitable(s: Sched, ages: Ages, created: nat) {
    && Settled(s) && PidsDistinct(s) && PidsIssued(s) && s.nextKernel <= 100
    && ParentsFirst(s, ages, created) && NoLostWakeup(s)
    && Alive(s.procs[0]) && s.procs[0].pid == 0 && s.procs[0].ppid == 0
  }

  /** Fewer than 100 kernel processes, and no waits for one particular child. */
  predicate Patient(s: Sched, a: Step) {
    Legal(s, a) && (a.Creates? ==> s.nextKernel < 100) && (a.Waits? ==> a.pid == -1)
  }

  // ---- what a step does to identities and waits, slot by slot

  /** The scheduler changes neither identities nor who is blocked or a zombie. */
  lemma TickKeepsIdentity(s: Sched, i: Slot)
    ensures var p, q := s.procs[i], Tick(s).procs[i];
      && q.pid == p.pid && q.ppid == p.ppid && q.exitCode == p.exitCode && (Alive(q) <==> Alive(p))
      && (q.state.Blocked? <==> p.state.Blocked?) && (q.state.Zombie? <==> p.state.Zombie?)
    ensures Tick(s).nextKernel == s.nextKernel && Tick(s).nextFork == s.nextFork
  {
  }

  /** Who is who, and who is blocked or a zombie, after a step and before the scheduler runs. */
  ghost predicate SlotAfter(s: Sched, a: Step, i: Slot) {
    var p, q, k := s.procs[i], Prepared(s, a).procs[i], Created(s, a);
    if i == k then
      && !Alive(p) && q.state.Ready? && q.ppid == Current(s).pid
        && q.pid == (if a.Creates? then s.nextKernel else s.nextFork)
    else
      && q.pid == p.pid && q.ppid == p.ppid && (Alive(q) ==> Alive(p))
      && (Alive(p) && !Alive(q) ==> a.Waits? && p.state.Zombie? && i != s.cur)
      && (q.state.Blocked? ==> p.state.Blocked? || (i == s.cur && a.Waits? && Ticks(s, a)))
      && (q.state.Zombie? ==> p.state.Zombie? || (i == s.cur && a.Exits?))
  }

  lemma SlotsAfter(s: Sched, a: Step, i: Slot)
    requires Current(s).state.Running? && Orderly(s)
    ensures SlotAfter(s, a, i)
  {
  }

  /** The parent of a process that exits is woken. */
  lemma ExitWakesParent(s: Sched, code: int, i: Slot)
    requires PidsDistinct(s) && OneRuns(s) && i != s.cur && Alive(s.procs[i]) && s.procs[i].pid == Current(s).ppid
    ensures !Prepared(s, Exits(code)).procs[i].state.Blocked?
    ensures !Exit(s, code).procs[i].state.Blocked?
  {
    hide Tick;
    var t := s.procs[s.cur := Current(s).(state := Zombie, exitCode := code)];
    var k := Find(t, Current(s).ppid, 0);
    assert Named(t[i], Current(s).ppid);
    assert k == i;
    StepIsPrepared(s, Exits(code));
    TickKeepsIdentity(Prepared(s, Exits(code)), i);
  }

  // ---- preservation

  /** New pids were never issued before, so identities stay distinct and parents stay older. */
  lemma IdentitiesKept(s: Sched, a: Step, ages: Ages, created: nat)
    requires Waitable(s, ages, created) && Patient(s, a)
    ensures var n, (ages', created') := Prepared(s, a), AgesAfter(s, a, ages, created);
      PidsDistinct(n) && PidsIssued(n) && n.nextKernel <= 100 && ParentsFirst(n, ages', created')
  {
    hide Prepared, NoLostWakeup, PidsDistinct, PidsIssued, ParentsFirst, AgesAfter, SlotAfter, Created, Orderly;
    forall i: Slot ensures SlotAfter(s, a, i) { SlotsAfter(s, a, i); }
    CountersAfter(s, a);
    DistinctKept(s, a);
    IssuedKept(s, a);
    ParentsKept(s, a, ages, created);
  }

  lemma DistinctKept(s: Sched, a: Step)
    requires PidsDistinct(s) && PidsIssued(s) && s.nextKernel <= 100 && (a.Creates? ==> s.nextKernel < 100)
    requires forall i: Slot :: SlotAfter(s, a, i)
    ensures PidsDistinct(Prepared(s, a))
  {
    hide Prepared, Created;
    var n := Prepared(s, a);
    forall i: Slot, j: Slot | i != j && Alive(n.procs[i]) && Alive(n.procs[j])
      ensures n.procs[i].pid != n.procs[j].pid
    {
      assert SlotAfter(s, a, i) && SlotAfter(s, a, j);
    }
  }

  lemma IssuedKept(s: Sched, a: Step)
    requires PidsIssued(s) && Alive(Current(s)) && forall i: Slot :: SlotAfter(s, a, i)
    ensures PidsIssued(Prepared(s, a))
  {
    hide Prepared, Created;
    CountersAfter(s, a);
    var n := Prepared(s, a);
    forall i: Slot | Alive(n.procs[i]) ensures Issued(n, n.procs[i].pid) && Issued(n, n.procs[i].ppid) {
      assert SlotAfter(s, a, i);
    }
  }

  lemma ParentsKept(s: Sched, a: Step, ages: Ages, created: nat)
    requires PidsDistinct(s) && PidsIssued(s) && s.nextKernel <= 100 && (a.Creates? ==> s.nextKernel < 100)
    requires ParentsFirst(s, ages, created) && Alive(Current(s)) && Alive(s.procs[0])
      && forall i: Slot :: SlotAfter(s, a, i)
    ensures var (ages', created') := AgesAfter(s, a, ages, created); ParentsFirst(Prepared(s, a), ages', created')
  {
    hide Prepared, Created;
    assert Issued(s, Current(s).pid);
    var n := Prepared(s, a);
    var (ages', created') := AgesAfter(s, a, ages, created);
    assert SlotAfter(s, a, s.cur);
    forall i: Slot | Alive(n.procs[i]) ensures ages'[i] < created' { assert SlotAfter(s, a, i); }
    forall i: Slot, j: Slot | i != 0 && Alive(n.procs[i]) && Alive(n.procs[j]) && n.procs[i].ppid == n.procs[j].pid
      ensures ages'[j] < ages'[i]
    {
      assert SlotAfter(s, a, i) && SlotAfter(s, a, j);
    }
  }

  lemma CountersAfter(s: Sched, a: Step)
    ensures Prepared(s, a).nextKernel == s.nextKernel + (if a.Creates? && Created(s, a) < 64 then 1 else 0)
    ensures Prepared(s, a).nextFork == s.nextFork + (if a.Forks? && Created(s, a) < 64 then 1 else 0)
    ensures !a.Creates? && !a.Forks? ==> Created(s, a) == 64
  {
  }

  /** A process that was waiting still has its worker, or has been woken. */
  lemma BlockedKept(s: Sched, a: Step, ages: Ages, created: nat, i: Slot)
    requires Waitable(s, ages, created) && Patient(s, a) && i != s.cur && Prepared(s, a).procs[i].state.Blocked?
    ensures i != 0 && WaitsForSomeone(Prepared(s, a), i)
  {
    hide Prepared, NoLostWakeup, Orderly, Created, ParentsFirst, PidsIssued, WaitsForSomeone;
    forall j: Slot ensures SlotAfter(s, a, j) { SlotsAfter(s, a, j); }
    assert SlotAfter(s, a, i);
    BlockedMeans(s, i);
    if a.Exits? && Current(s).ppid == s.procs[i].pid { ExitWakesParent(s, a.code, i); }
    WorkerStays(s, a, i);
  }

  lemma WorkerStays(s: Sched, a: Step, i: Slot)
    requires s.procs[i].state.Blocked? && WaitsForSomeone(s, i) && i != s.cur && i != Created(s, a)
    requires a.Exits? ==> Current(s).ppid != s.procs[i].pid
    requires forall j: Slot :: SlotAfter(s, a, j)
    ensures WaitsForSomeone(Prepared(s, a), i)
  {
    hide Prepared, Created;
    var j: Slot :| j != i && Worker(s.procs[j], s.procs[i].pid);
    assert SlotAfter(s, a, j) && SlotAfter(s, a, i);
    var n := Prepared(s, a);
    assert Worker(n.procs[j], n.procs[i].pid);
    forall z: Slot
      ensures !(n.procs[z].state.Zombie? && n.procs[z].ppid == n.procs[i].pid)
    {
      assert SlotAfter(s, a, z);
    }
  }

  lemma BlockedMeans(s: Sched, i: Slot)
    requires NoLostWakeup(s) && s.procs[i].state.Blocked?
    ensures i != 0 && WaitsForSomeone(s, i)
  {
  }

  lemma NotItsOwnParent(s: Sched, ages: Ages, created: nat, i: Slot)
    requires ParentsFirst(s, ages, created) && i != 0 && Alive(s.procs[i])
    ensures s.procs[i].ppid != s.procs[i].pid
  {
    var rank := ages[i];
  }

  /** A process blocks only when it has a child, and none of its children is a zombie. */
  lemma BlockingWaits(s: Sched, ages: Ages, created: nat)
    requires Waitable(s, ages, created) && s.cur != 0 && WaitPass(s, -1).1.Waiting?
    ensures WaitsForSomeone(Prepared(s, Waits(-1)), s.cur)
  {
    var me, n := Current(s).pid, Prepared(s, Waits(-1));
    var j := FirstChild(s.procs, me, 0);
    assert !Awaits(s.procs[j], me, -1);
    NotItsOwnParent(s, ages, created, s.cur);
    assert Worker(n.procs[j], me);
    forall i: Slot ensures !(n.procs[i].state.Zombie? && n.procs[i].ppid == me) { assert !Awaits(s.procs[i], me, -1); }
  }

  lemma PreparedWaitable(s: Sched, a: Step, ages: Ages, created: nat)
    requires Waitable(s, ages, created) && Patient(s, a)
    ensures NoLostWakeup(Prepared(s, a)) && Alive(Prepared(s, a).procs[0])
    ensures Prepared(s, a).procs[0].pid == 0 && Prepared(s, a).procs[0].ppid == 0
  {
    var n := Prepared(s, a);
    SlotsAfter(s, a, 0);
    SlotsAfter(s, a, s.cur);
    hide Prepared, WaitsForSomeone, FirstUnused, WaitPass;
    forall i: Slot | n.procs[i].state.Blocked? ensures i != 0 && WaitsForSomeone(n, i) {
      if i != s.cur { BlockedKept(s, a, ages, created, i); }
      else {
        OnlyWaitBlocks(s, a);
        BlockingWaits(s, ages, created);
      }
    }
  }

  lemma OnlyWaitBlocks(s: Sched, a: Step)
    requires Current(s).state.Running? && Orderly(s) && Prepared(s, a).procs[s.cur].state.Blocked?
      && (a.Waits? ==> a.pid == -1)
    ensures a == Waits(-1) && WaitPass(s, -1).1.Waiting? && (Legal(s, a) ==> s.cur != 0)
  {
    if a.Exits? { ExitKeepsOwnEntry(s, a.code); }
  }

  /** The scheduler keeps identities and waits. */
  lemma TickWaitable(n: Sched, ages: Ages, created: nat)
    requires PidsDistinct(n) && PidsIssued(n) && ParentsFirst(n, ages, created) && NoLostWakeup(n)
    ensures var r := Tick(n);
      && PidsDistinct(r) && PidsIssued(r) && ParentsFirst(r, ages, created) && NoLostWakeup(r)
      && r.nextKernel == n.nextKernel && (Alive(r.procs[0]) <==> Alive(n.procs[0]))
      && r.procs[0].pid == n.procs[0].pid && r.procs[0].ppid == n.procs[0].ppid
  {
    hide Tick;
    var r := Tick(n);
    forall i: Slot
      ensures var p, q := n.procs[i], r.procs[i];
        && q.pid == p.pid && q.ppid == p.ppid && (Alive(q) <==> Alive(p))
        && (q.state.Blocked? <==> p.state.Blocked?) && (q.state.Zombie? <==> p.state.Zombie?)
    {
      TickKeepsIdentity(n, i);
    }
    TickKeepsIdentity(n, 0);
    forall i: Slot | r.procs[i].state.Blocked? ensures i != 0 && WaitsForSomeone(r, i) {
      BlockedMeans(n, i);
      var j: Slot :| j != i && Worker(n.procs[j], n.procs[i].pid);
      assert Worker(r.procs[j], r.procs[i].pid);
    }
  }

  lemma StepWaitable(s: Sched, a: Step, ages: Ages, created: nat)
    requires Waitable(s, ages, created) && Patient(s, a)
    ensures var (ages', created') := AgesAfter(s, a, ages, created); Waitable(After(s, a), ages', created')
  {
    hide Tick, Prepared, NoLostWakeup, ParentsFirst, PidsDistinct, PidsIssued, AgesAfter;
    StepSettles(s, a);
    StepIsPrepared(s, a);
    IdentitiesKept(s, a, ages, created);
    PreparedWaitable(s, a, ages, created);
    var (ages', created') := AgesAfter(s, a, ages, created);
    TickWaitable(Prepared(s, a), ages', created');
  }

  // ---- whole runs

  predicate PatientRun(s: Sched, steps: seq<Step>)
    decreases |steps|
  {
    steps != [] ==> Patient(s, steps[0]) && PatientRun(After(s, steps[0]), steps[1..])
  }

  lemma BootIsWaitable()
    ensures Waitable(BOOTED, seq(64, _ => 0), 1)
  {
  }

  lemma {:induction false} RunWaitable(s: Sched, steps: seq<Step>, ages: Ages, created: nat)
      returns (ages': Ages, created': nat)
    requires Waitable(s, ages, created) && PatientRun(s, steps)
    ensures Waitable(Run(s, steps), ages', created')
    decreases |steps|
  {
    ages', created' := ages, created;
    if steps != [] {
      StepWaitable(s, steps[0], ages, created);
      var (a, c) := AgesAfter(s, steps[0], ages, created);
      ages', created' := RunWaitable(After(s, steps[0]), steps[1..], a, c);
    }
  }

  /** From each process of the path to the next: a blocked parent and a child that can still exit. */
  ghost predicate WaitPath(s: Sched, path: seq<Slot>) {
    forall k :: 0 <= k < |path| - 1 ==>
      s.procs[path[k]].state.Blocked? && Worker(s.procs[path[k + 1]], s.procs[path[k]].pid)
  }

  /** Following blocked children, each younger than its parent, ends at one that is not blocked. */
  lemma {:induction false} WaitEndsAtWork(s: Sched, ages: Ages, created: nat, i: Slot) returns (path: seq<Slot>)
    requires Waitable(s, ages, created) && s.procs[i].state.Blocked?
    ensures |path| >= 2 && path[0] == i && WaitPath(s, path)
    ensures var last := s.procs[path[|path| - 1]].state; last.Running? || last.Ready? || last.Sleeping?
    decreases created - ages[i]
  {
    BlockedMeans(s, i);
    var j: Slot :| j != i && Worker(s.procs[j], s.procs[i].pid);
    if s.procs[j].state.Blocked? {
      BlockedMeans(s, j);
      var rest := WaitEndsAtWork(s, ages, created, j);
      path := [i] + rest;
      assert forall k :: 1 <= k < |path| ==> path[k] == rest[k - 1];
    } else {
      path := [i, j];
    }
  }

  /**
   No deadlock: after any run from boot in which every wait is for any child, each blocked
   process heads a chain of children that ends at one running, ready or asleep, and none of its
   own children is a zombie it has not been woken for.
   */
  lemma NoDeadlock(steps: seq<Step>, i: Slot) returns (path: seq<Slot>)
    requires PatientRun(BOOTED, steps) && Run(BOOTED, steps).procs[i].state.Blocked?
    ensures var s := Run(BOOTED, steps);
      && |path| >= 2 && path[0] == i && WaitPath(s, path)
      && (var last := s.procs[path[|path| - 1]].state; last.Running? || last.Ready? || last.Sleeping?)
      && (forall j: Slot :: !(s.procs[j].state.Zombie? && s.procs[j].ppid == s.procs[i].pid))
  {
    BootIsWaitable();
    var ages, created := RunWaitable(BOOTED, steps, seq(64, _ => 0), 1);
    BlockedMeans(Run(BOOTED, steps), i);
    path := WaitEndsAtWork(Run(BOOTED, steps), ages, created, i);
  }
}
