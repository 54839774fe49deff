/**
 Exits and the waits that report them: over any run each exit is reported at most once, to the
 parent, with the pid and the code of the process that exited.
 */
module ProcExit {
  import opened Proc
  import opened ProcLaws
  import opened ProcWait

  datatype Event = Exited(pid: int, parent: int, code: int) | Reported(pid: int, parent: int, code: int)

  /** What a step makes known. */
  function EventsOf(s: Sched, a: Step): seq<Event> {
    if a.Exits? then [Exited(Current(s).pid, Current(s).ppid, a.code)]
    else if a.Waits? && WaitPass(s, a.pid).1.Reaped? then
      [Reported(WaitPass(s, a.pid).1.pid, Current(s).pid, WaitPass(s, a.pid).1.code)]
    else []
  }

  function Log(s: Sched, steps: seq<Step>): seq<Event>
    decreases |steps|
  {
    if steps == [] then [] else EventsOf(s, steps[0]) + Log(After(s, steps[0]), steps[1..])
  }

  /** Fewer than 100 kernel processes, so that no pid is handed out twice. */
  predicate Numbered(s: Sched, a: Step) { Legal(s, a) && (a.Creates? ==> s.nextKernel < 100) }

  predicate NumberedRun(s: Sched, steps: seq<Step>)
    decreases |steps|
  {
    steps != [] ==> Numbered(s, steps[0]) && NumberedRun(After(s, steps[0]), steps[1..])
  }

  ghost predicate Sane(s: Sched) { Settled(s) && PidsDistinct(s) && PidsIssued(s) && s.nextKernel <= 100 }

  lemma StepSane(s: Sched, a: Step)
    requires Sane(s) && Numbered(s, a)
    ensures Sane(After(s, a))
  {
    hide Tick, Prepared, PidsDistinct, PidsIssued, SlotAfter, Orderly, Created;
    StepSettles(s, a);
    StepIsPrepared(s, a);
    forall i: Slot ensures SlotAfter(s, a, i) { SlotsAfter(s, a, i); }
    CountersAfter(s, a);
    DistinctKept(s, a);
    IssuedKept(s, a);
    if Ticks(s, a) { TickSane(Prepared(s, a)); }
  }

  lemma TickSane(n: Sched)
    requires PidsDistinct(n) && PidsIssued(n)
    ensures PidsDistinct(Tick(n)) && PidsIssued(Tick(n)) && Tick(n).nextKernel == n.nextKernel
  {
    hide Tick;
    TickKeepsIdentity(n, 0);
    forall i: Slot
      ensures Tick(n).procs[i].pid == n.procs[i].pid && Tick(n).procs[i].ppid == n.procs[i].ppid
      ensures Alive(Tick(n).procs[i]) <==> Alive(n.procs[i])
    {
      TickKeepsIdentity(n, i);
    }
  }

  // ---- zombies

  /** What entry p of slot i became, q, in terms a log can record. */
  ghost predicate BecameRecorded(s: Sched, a: Step, i: Slot, p: Process, q: Process) {
    var e := EventsOf(s, a);
    if q.state.Zombie? then
      && q.pid == p.pid && q.ppid == p.ppid
      && (if p.state.Zombie? then q.exitCode == p.exitCode && (forall w, c :: e != [Reported(p.pid, w, c)])
          else i == s.cur && Alive(p) && e == [Exited(q.pid, q.ppid, q.exitCode)])
    else if Alive(q) then
      if Alive(p) then q.pid == p.pid && !p.state.Zombie? && (forall w, c :: e != [Exited(p.pid, w, c)])
      else q.pid == (if a.Creates? then s.nextKernel else s.nextFork) && e == [] && i == Created(s, a)
    else Alive(p) ==> p.state.Zombie? && e == [Reported(p.pid, p.ppid, p.exitCode)]
  }

  lemma PreparedRecorded(s: Sched, a: Step, i: Slot)
    requires Sane(s) && Numbered(s, a)
    ensures BecameRecorded(s, a, i, s.procs[i], Prepared(s, a).procs[i])
  {
    hide BecameRecorded, Prepared, PidsIssued, Orderly, NoOverdueSleeper, PidsDistinct;
    if a.Exits? { ExitRecorded(s, a, i); } else if a.Waits? { WaitRecorded(s, a, i); } else { OtherRecorded(s, a, i); }
  }

  lemma OtherRecorded(s: Sched, a: Step, i: Slot)
    requires Sane(s) && !a.Exits? && !a.Waits?
    ensures BecameRecorded(s, a, i, s.procs[i], Prepared(s, a).procs[i])
  {
    hide WaitPass, Exit, Find, PidsDistinct, PidsIssued, Orderly, NoOverdueSleeper;
  }

  lemma ExitRecorded(s: Sched, a: Step, i: Slot)
    requires Sane(s) && a.Exits?
    ensures BecameRecorded(s, a, i, s.procs[i], Prepared(s, a).procs[i])
  {
    hide WaitPass, FirstUnused, Find, PidsDistinct, PidsIssued, Orderly, NoOverdueSleeper;
    OtherPid(s, s.cur, i);
    ExitKeepsOwnEntry(s, a.code);
  }

  lemma WaitRecorded(s: Sched, a: Step, i: Slot)
    requires Sane(s) && a.Waits?
    ensures BecameRecorded(s, a, i, s.procs[i], Prepared(s, a).procs[i])
  {
    hide FirstChild, PidsDistinct, PidsIssued, Orderly, NoOverdueSleeper, FirstAwaited;
    var k := FirstAwaited(s.procs, Current(s).pid, a.pid, 0);
    if k < 64 { OtherPid(s, k, i); }
  }

  lemma OtherPid(s: Sched, k: Slot, i: Slot)
    requires PidsDistinct(s)
    ensures k == i || !Alive(s.procs[k]) || !Alive(s.procs[i]) || s.procs[k].pid != s.procs[i].pid
  {
  }

  lemma TickRecorded(s: Sched, a: Step, i: Slot, p: Process, n: Sched)
    requires BecameRecorded(s, a, i, p, n.procs[i])
    ensures BecameRecorded(s, a, i, p, Tick(n).procs[i])
  {
    hide Tick, EventsOf, Created;
    TickKeepsIdentity(n, i);
  }

  /** A zombie never runs again; its entry is fixed until the one wait that reaps it. */
  lemma StepRecorded(s: Sched, a: Step, i: Slot)
    requires Sane(s) && Numbered(s, a)
    ensures BecameRecorded(s, a, i, s.procs[i], After(s, a).procs[i])
  {
    hide BecameRecorded, Prepared, Tick, Orderly, PidsDistinct, PidsIssued;
    StepIsPrepared(s, a);
    PreparedRecorded(s, a, i);
    if Ticks(s, a) { TickRecorded(s, a, i, s.procs[i], Prepared(s, a)); }
  }

  // ---- the log of a run

  /** The log so far agrees with the table: who has exited, and who has been reported. */
  ghost predicate LogAgrees(s: Sched, log: seq<Event>) {
    && (forall e <- log :: Issued(s, e.pid))
    && (forall i: Slot, e :: e in log && Alive(s.procs[i]) && e.pid == s.procs[i].pid ==>
      s.procs[i].state.Zombie? && e == Exited(s.procs[i].pid, s.procs[i].ppid, s.procs[i].exitCode))
    && (forall i: Slot :: s.procs[i].state.Zombie? ==>
      Exited(s.procs[i].pid, s.procs[i].ppid, s.procs[i].exitCode) in log)
    && (forall e <- log :: e.Reported? ==> Exited(e.pid, e.parent, e.code) in log)
  }

  /** No process exits twice, and none is reported twice. */
  ghost predicate OncePerProcess(log: seq<Event>) {
    forall j, k :: 0 <= j < k < |log| && log[j].pid == log[k].pid ==> log[j].Exited? && log[k].Reported?
  }

  /** A step logs nothing, the exit of the running process, or the report of a zombie k. */
  lemma EventIs(s: Sched, a: Step) returns (k: Slot)
    requires Sane(s)
    ensures var e := EventsOf(s, a);
      || e == []
      || (k == s.cur && a.Exits? && e == [Exited(Current(s).pid, Current(s).ppid, a.code)])
      || (s.procs[k].state.Zombie? && e == [Reported(s.procs[k].pid, s.procs[k].ppid, s.procs[k].exitCode)])
  {
    hide FirstUnused, FirstChild, PidsIssued, Orderly, PidsDistinct, NoOverdueSleeper;
    k := s.cur;
    if EventsOf(s, a) != [] && a.Waits? { k := FirstAwaited(s.procs, Current(s).pid, a.pid, 0); }
  }

  /** An event about a process in use at slot i is the exit the table shows. */
  lemma EventOfSlot(s: Sched, log: seq<Event>, a: Step, i: Slot, e: Event)
    requires Sane(s) && Numbered(s, a) && LogAgrees(s, log) && e in log + EventsOf(s, a)
    requires var q := After(s, a).procs[i]; Alive(q) && e.pid == q.pid
    ensures var q := After(s, a).procs[i]; q.state.Zombie? && e == Exited(q.pid, q.ppid, q.exitCode)
  {
    hide After, Orderly, EventsOf, Created;
    StepRecorded(s, a, i);
    var k := EventIs(s, a);
    var p, q := s.procs[i], After(s, a).procs[i];
    if e in log {
      assert Issued(s, e.pid);
    } else {
      assert [e] == EventsOf(s, a);
      OtherPid(s, k, i);
    }
  }

  lemma StepLogged(s: Sched, log: seq<Event>, a: Step)
    requires Sane(s) && Numbered(s, a) && LogAgrees(s, log) && OncePerProcess(log)
    ensures LogAgrees(After(s, a), log + EventsOf(s, a)) && OncePerProcess(log + EventsOf(s, a))
  {
    hide After, Orderly, EventsOf, Created, BecameRecorded;
    var r, all := After(s, a), log + EventsOf(s, a);
    var k := EventIs(s, a);
    forall e | e in all ensures Issued(r, e.pid) {
      IssuedStays(s, a, e.pid);
    }
    forall i: Slot, e | e in all && Alive(r.procs[i]) && e.pid == r.procs[i].pid
      ensures r.procs[i].state.Zombie? && e == Exited(r.procs[i].pid, r.procs[i].ppid, r.procs[i].exitCode)
    {
      EventOfSlot(s, log, a, i, e);
    }
    forall i: Slot | r.procs[i].state.Zombie?
      ensures Exited(r.procs[i].pid, r.procs[i].ppid, r.procs[i].exitCode) in all
    {
      ZombieLogged(s, log, a, i);
    }
    forall j, l | 0 <= j < l < |all| && all[j].pid == all[l].pid ensures all[j].Exited? && all[l].Reported? {
      assert all[j] in log;
      if l < |log| {
        assert all[l] == log[l] && all[j] == log[j];
      } else {
        assert all[l] == EventsOf(s, a)[0] && Alive(s.procs[k]);
      }
    }
  }

  lemma IssuedStays(s: Sched, a: Step, pid: int)
    requires Issued(s, pid)
    ensures Issued(After(s, a), pid)
  {
    hide FirstUnused, Find, FirstAwaited, FirstChild, Woken, NextReady;
  }

  lemma ZombieLogged(s: Sched, log: seq<Event>, a: Step, i: Slot)
    requires Sane(s) && Numbered(s, a) && LogAgrees(s, log) && After(s, a).procs[i].state.Zombie?
    ensures var q := After(s, a).procs[i]; Exited(q.pid, q.ppid, q.exitCode) in log + EventsOf(s, a)
  {
    hide After, EventsOf, Created;
    StepRecorded(s, a, i);
  }

  lemma {:induction false} RunLogged(s: Sched, log: seq<Event>, steps: seq<Step>)
    requires Sane(s) && NumberedRun(s, steps) && LogAgrees(s, log) && OncePerProcess(log)
    ensures Sane(Run(s, steps)) && LogAgrees(Run(s, steps), log + Log(s, steps)) && OncePerProcess(log + Log(s, steps))
    decreases |steps|
  {
    hide After, EventsOf, Sane, LogAgrees, OncePerProcess, Numbered;
    if steps == [] {
      assert log + Log(s, steps) == log;
    } else {
      var a := steps[0];
      StepSane(s, a);
      StepLogged(s, log, a);
      RunLogged(After(s, a), log + EventsOf(s, a), steps[1..]);
      assert log + Log(s, steps) == log + EventsOf(s, a) + Log(After(s, a), steps[1..]);
    }
  }

  lemma BootIsSane()
    ensures Sane(BOOTED) && LogAgrees(BOOTED, []) && OncePerProcess([])
  {
  }

  /**
   Over any run from boot with fewer than 100 kernel processes, each report names the pid, the
   parent and the code of an earlier exit, and no exit is reported twice.
   */
  lemma ReportsAreTrue(steps: seq<Step>, k: nat)
    requires NumberedRun(BOOTED, steps) && k < |Log(BOOTED, steps)| && Log(BOOTED, steps)[k].Reported?
    ensures var log, e := Log(BOOTED, steps), Log(BOOTED, steps)[k];
      && (exists j :: 0 <= j < k && log[j] == Exited(e.pid, e.parent, e.code))
      && (forall j :: 0 <= j < |log| && j != k && log[j].Reported? ==> log[j].pid != e.pid)
  {
    hide Run, Log, NumberedRun, Sane;
    var log := Log(BOOTED, steps);
    BootIsSane();
    RunLogged(BOOTED, [], steps);
    assert [] + log == log;
    TrueInLog(Run(BOOTED, steps), log, k);
  }

  lemma TrueInLog(s: Sched, log: seq<Event>, k: nat)
    requires LogAgrees(s, log) && OncePerProcess(log) && k < |log| && log[k].Reported?
    ensures exists j :: 0 <= j < k && log[j] == Exited(log[k].pid, log[k].parent, log[k].code)
    ensures forall j :: 0 <= j < |log| && j != k && log[j].Reported? ==> log[j].pid != log[k].pid
  {
    var e := log[k];
    assert e in log && Exited(e.pid, e.parent, e.code) in log;
    var j :| 0 <= j < |log| && log[j] == Exited(e.pid, e.parent, e.code);
    assert j < k;
  }
}
