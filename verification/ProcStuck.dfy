/**
 Waiting for one particular child can last for ever: a blocked process none of whose children is at
 work is woken by nothing but a signal, and a wait for a pid that no child has leads there.
 */
module ProcStuck {
  import opened Proc
  import opened ProcLaws
  import opened ProcWait
  import opened ProcExit
  import opened ProcPids

  /** Blocked, and no child is left that could exit. */
  ghost predicate Stuck(s: Sched, i: Slot) {
    s.procs[i].state.Blocked? && forall j: Slot :: !Worker(s.procs[j], s.procs[i].pid)
  }

  lemma StuckPrepared(s: Sched, a: Step, i: Slot, j: Slot)
    requires Sane(s) && Numbered(s, a) && Stuck(s, i) && !(a.Kills? && a.pid == s.procs[i].pid)
    ensures var n := Prepared(s, a);
      && n.procs[i].state.Blocked? && n.procs[i].pid == s.procs[i].pid && !Worker(n.procs[j], s.procs[i].pid)
  {
    hide Find, FirstUnused, FirstAwaited, FirstChild, WaitPass, NoOverdueSleeper, PidsIssued, Marked;
    assert i != s.cur;
    if a.Exits? {
      ExitKeepsOwnEntry(s, a.code);
      assert !Worker(Current(s), s.procs[i].pid);
    }
    if a.Waits? { WaitKeepsBlocked(s, a.pid, i, j); }
    if a.Creates? || a.Forks? { assert Current(s).pid != s.procs[i].pid; }
  }

  lemma WaitKeepsBlocked(s: Sched, pid: int, i: Slot, j: Slot)
    requires i != s.cur && s.procs[i].state.Blocked? && !Worker(s.procs[j], s.procs[i].pid)
    requires Current(s).state.Running?
    ensures var n := Prepared(s, Waits(pid));
      && n.procs[i].state.Blocked? && n.procs[i].pid == s.procs[i].pid && !Worker(n.procs[j], s.procs[i].pid)
  {
  }

  /** Nothing but a signal to it wakes a stuck process. */
  lemma StuckStays(s: Sched, a: Step, i: Slot)
    requires Sane(s) && Numbered(s, a) && Stuck(s, i) && !(a.Kills? && a.pid == s.procs[i].pid)
    ensures Sane(After(s, a)) && Stuck(After(s, a), i) && After(s, a).procs[i].pid == s.procs[i].pid
  {
    hide Tick, Prepared, Sane, Numbered, Worker;
    StepSane(s, a);
    SaneRuns(s);
    StepIsPrepared(s, a);
    var n := Prepared(s, a);
    StuckPrepared(s, a, i, i);
    TickKeepsIdentity(n, i);
    forall j: Slot ensures !Worker(After(s, a).procs[j], s.procs[i].pid) {
      StuckPrepared(s, a, i, j);
      WorkerTick(n, j, s.procs[i].pid);
    }
  }

  lemma SaneRuns(s: Sched)
    requires Sane(s)
    ensures Current(s).state.Running?
  {
  }

  lemma WorkerTick(n: Sched, j: Slot, pid: int)
    ensures Worker(Tick(n).procs[j], pid) <==> Worker(n.procs[j], pid)
  {
    TickKeepsIdentity(n, j);
    hide Tick;
  }

  predicate NeverKills(steps: seq<Step>, pid: int) { forall a <- steps :: a.Kills? ==> a.pid != pid }

  /** Over every run without such a signal it stays blocked. */
  lemma {:induction false} StuckForever(s: Sched, steps: seq<Step>, i: Slot)
    requires Sane(s) && NumberedRun(s, steps) && Stuck(s, i) && NeverKills(steps, s.procs[i].pid)
    ensures Run(s, steps).procs[i].state.Blocked?
    decreases |steps|
  {
    hide Sane, After, Numbered;
    if steps != [] {
      assert steps[0] in steps;
      StuckStays(s, steps[0], i);
      StuckForever(After(s, steps[0]), steps[1..], i);
    }
  }

  // ---- a wait that never returns

  /** Pids 0, 1 and 2, each the parent of the next. */
  ghost predicate Family(s: Sched, cur: Slot, idle: State, parent: State, child: State) {
    && At(s, Camp(cur, [idle, parent, child, Unused], [0, 1, 2, 0], 3, 100))
    && s.procs[0].ppid == 0 && s.procs[1].ppid == 0 && s.procs[2].ppid == 1
  }

  lemma ParentStarted()
    ensures var s := After(After(BOOTED, Creates), Timer);
      && At(s, Camp(1, [Ready, Running, Unused, Unused], [0, 1, 0, 0], 2, 100))
      && s.procs[0].ppid == 0 && s.procs[1].ppid == 0
  {
    hide Woken, NextReady, Tick;
    TickTo(After(BOOTED, Creates), 1);
  }

  lemma ChildBorn(s: Sched)
    requires At(s, Camp(1, [Ready, Running, Unused, Unused], [0, 1, 0, 0], 2, 100))
    requires s.procs[0].ppid == 0 && s.procs[1].ppid == 0
    ensures Family(After(s, Creates), 1, Ready, Running, Ready)
  {
  }

  lemma FamilyBorn()
    ensures LegalRun(BOOTED, Start() + [Creates]) && Family(Run(BOOTED, Start() + [Creates]), 1, Ready, Running, Ready)
    ensures Sane(Run(BOOTED, Start() + [Creates]))
  {
    hide Sane, At, Family, After;
    var s := After(BOOTED, Creates);
    var t := After(s, Timer);
    ParentStarted();
    ChildBorn(t);
    AtCur(t, Camp(1, [Ready, Running, Unused, Unused], [0, 1, 0, 0], 2, 100));
    Counters(t, Camp(1, [Ready, Running, Unused, Unused], [0, 1, 0, 0], 2, 100));
    BootIsSane();
    StepSane(BOOTED, Creates);
    StepSane(s, Timer);
    StepSane(t, Creates);
    RunNone(BOOTED);
    RunOn(BOOTED, [], Creates);
    RunOn(BOOTED, [Creates], Timer);
    assert [] + [Creates] == [Creates] && [Creates] + [Timer] == Start();
    RunOn(BOOTED, Start(), Creates);
  }

  lemma Counters(s: Sched, c: Camp)
    requires At(s, c)
    ensures s.nextKernel == c.nextKernel
  {
  }

  /** The parent waits for a pid that nobody has ... */
  lemma FirstWait(s: Sched)
    requires Family(s, 1, Ready, Running, Ready)
    ensures Family(After(s, Waits(7)), 2, Ready, Blocked, Running)
  {
    hide Woken, NextReady, Tick;
    assert ChildOf(s.procs[2], 1);
    var b := s.(procs := SetState(s.procs, 1, Blocked));
    assert After(s, Waits(7)) == Tick(b);
    TickTo(b, 1);
  }

  /** ... its child exits, which wakes it ... */
  lemma ChildExits(s: Sched)
    requires Family(s, 2, Ready, Blocked, Running)
    ensures Family(After(s, Exits(0)), 0, Running, Ready, Zombie)
  {
    hide Woken, NextReady, Tick;
    var z := s.procs[2 := Current(s).(state := Zombie, exitCode := 0)];
    assert Named(z[1], 1) && !Named(z[0], 1);
    assert Find(z, 1, 0) == 1;
    var t := WakeParent(z, 1);
    var e := s.(procs := t[2 := t[2].(pageDir := KERNEL_DIR)]);
    assert After(s, Exits(0)) == Tick(e);
    TickTo(e, 62);
  }

  lemma ParentBack(s: Sched)
    requires Family(s, 0, Running, Ready, Zombie)
    ensures Family(After(s, Timer), 1, Ready, Running, Zombie)
  {
    TickTo(s, 1);
    hide Woken, NextReady, Tick;
  }

  /** ... and on the next turn of its loop it blocks again, with a zombie for its only child. */
  lemma SecondWait(s: Sched)
    requires Family(s, 1, Ready, Running, Zombie)
    ensures Stuck(After(s, Waits(7)), 1) && After(s, Waits(7)).procs[1].pid == 1
  {
    hide Woken, NextReady, Tick;
    assert ChildOf(s.procs[2], 1);
    var b := s.(procs := SetState(s.procs, 1, Blocked));
    assert After(s, Waits(7)) == Tick(b);
    TickTo(b, 63);
  }

  function WaitForNobody(): seq<Step> { Start() + [Creates] + [Waits(7)] + [Exits(0)] + [Timer] + [Waits(7)] }

  /**
   From boot: pid 1 waits for pid 7 while its child, pid 2, exits.  Whatever happens afterwards, short
   of a signal to it or the hundredth kernel process, pid 1 does not come back from `proc_wait`.
   */
  lemma WaitForOneCanStick(steps: seq<Step>)
    requires NumberedRun(Run(BOOTED, WaitForNobody()), steps) && NeverKills(steps, 1)
    ensures LegalRun(BOOTED, WaitForNobody())
    ensures Run(Run(BOOTED, WaitForNobody()), steps).procs[1].state.Blocked?
  {
    hide Run, LegalRun, After, Family, Stuck, Sane, Start;
    FamilyBorn();
    var r0 := Start() + [Creates];
    var s0 := Run(BOOTED, r0);
    FirstWait(s0);
    var s1 := After(s0, Waits(7));
    ChildExits(s1);
    var s2 := After(s1, Exits(0));
    ParentBack(s2);
    var s3 := After(s2, Timer);
    SecondWait(s3);
    RunOn(BOOTED, r0, Waits(7));
    RunOn(BOOTED, r0 + [Waits(7)], Exits(0));
    RunOn(BOOTED, r0 + [Waits(7)] + [Exits(0)], Timer);
    RunOn(BOOTED, r0 + [Waits(7)] + [Exits(0)] + [Timer], Waits(7));
    FamilyRuns(s0, 1, Ready, Running, Ready);
    FamilyRuns(s1, 2, Ready, Blocked, Running);
    FamilyRuns(s2, 0, Running, Ready, Zombie);
    FamilyRuns(s3, 1, Ready, Running, Zombie);
    StepSane(s0, Waits(7));
    StepSane(s1, Exits(0));
    StepSane(s2, Timer);
    StepSane(s3, Waits(7));
    StuckForever(Run(BOOTED, WaitForNobody()), steps, 1);
  }

  lemma FamilyRuns(s: Sched, cur: Slot, idle: State, parent: State, child: State)
    requires Family(s, cur, idle, parent, child)
    ensures s.cur == cur
  {
  }
}
