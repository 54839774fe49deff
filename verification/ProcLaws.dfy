/**
 What every step of the process table keeps: one process runs, on its own stack and in its own
 address space; no sleeper is overdue; a ready process is dispatched within 63 ticks.
 */
module ProcLaws {
  import opened Bits
  import opened Proc

  // ---- one running process

  /** Only the current process can be running, slot 0 is never off duty, and stacks are the slots' own. */
  ghost predicate Orderly(s: Sched) {
    && (forall i: Slot :: i != s.cur ==> !s.procs[i].state.Running?)
    && (forall i: Slot :: !s.procs[i].state.Unused? ==> s.procs[i].stackTop == if i == 0 then 0 else i + 1)
    && (s.procs[0].state.Running? || s.procs[0].state.Ready?)
  }

  /** The current process runs with its own stack and directory. */
  ghost predicate OneRuns(s: Sched) {
    Current(s).state.Running? && s.esp0 == Current(s).stackTop && s.cr3 == Current(s).pageDir
  }

  ghost predicate NoOverdueSleeper(s: Sched) {
    forall i: Slot :: s.procs[i].state.Sleeping? ==> s.ticks < s.procs[i].sleepUntil
  }

  /** The state between complete steps. */
  ghost predicate Settled(s: Sched) { Orderly(s) && OneRuns(s) && NoOverdueSleeper(s) }

  /** The scheduler settles the state whenever the current process still runs or another one is ready. */
  lemma TickSettles(s: Sched)
    requires Orderly(s) && (OneRuns(s) || NextReady(Woken(s.procs, NextTick(s.ticks)), s.cur, 1) < 64)
    ensures Settled(Tick(s))
  {
    hide Woken, NextTick, NextReady, Ahead;
    var t := Woken(s.procs, NextTick(s.ticks));
    assert forall i: Slot :: t[i] == Wake(s.procs[i], NextTick(s.ticks));
  }

  /** A ready process other than the current one is found by the scan, at its distance at the latest. */
  lemma ReadyIsFound(t: Table, cur: Slot, j: Slot)
    requires j != cur && t[j].state.Ready?
    ensures NextReady(t, cur, 1) <= Distance(cur, j) < 64
  {
  }

  /** While slot 0 is not the current process it is ready, so the scan finds someone. */
  lemma IdleIsFound(s: Sched)
    requires Orderly(s) && s.cur != 0
    ensures NextReady(Woken(s.procs, NextTick(s.ticks)), s.cur, 1) < 64
  {
    ReadyIsFound(Woken(s.procs, NextTick(s.ticks)), s.cur, 0);
  }

  /** What one step does to the table before the scheduler runs, if it runs. */
  function Prepared(s: Sched, a: Step): Sched {
    match a
    case Timer => s
    case Yields => s.(procs := SetState(s.procs, s.cur, Ready))
    case Sleeps(ms) =>
      var until := (s.ticks + (ms / 10 + 1)) % 0x1_0000_0000;
      s.(procs := s.procs[s.cur := Current(s).(sleepUntil := until, state := Sleeping)])
    case Creates => CreateKernel(s).0
    case Forks(dir) => Fork(s, dir).0
    case Exits(code) =>
      var t := WakeParent(s.procs[s.cur := Current(s).(state := Zombie, exitCode := code)], Current(s).ppid);
      s.(procs := t[s.cur := t[s.cur].(pageDir := KERNEL_DIR)])
    case Waits(pid) => if WaitPass(s, pid).1.Waiting? then s.(procs := SetState(s.procs, s.cur, Blocked))
      else WaitPass(s, pid).0
    case Kills(pid, sig) => Kill(s, pid, sig)
  }

  lemma StepIsPrepared(s: Sched, a: Step)
    requires Current(s).state.Running?
    ensures After(s, a) == if Ticks(s, a) then Tick(Prepared(s, a)) else Prepared(s, a)
    ensures Prepared(s, a).cur == s.cur && Prepared(s, a).ticks == s.ticks
    ensures Prepared(s, a).esp0 == s.esp0 && Prepared(s, a).cr3 == s.cr3
  {
    hide Tick, Find, FirstUnused, FirstAwaited, FirstChild;
    if a.Exits? { ExitKeepsOwnEntry(s, a.code); }
  }

  /** Waking the parent does not touch the zombie itself. */
  lemma ExitKeepsOwnEntry(s: Sched, code: int)
    ensures var p := Current(s).(state := Zombie, exitCode := code);
      WakeParent(s.procs[s.cur := p], p.ppid)[s.cur] == p
  {
    hide Find;
  }

  /** Slot by slot: all a step does to other processes is signal one, wake one, reap one or fill an unused slot. */
  lemma PreparedSlot(s: Sched, a: Step, i: Slot)
    requires Settled(s) && Legal(s, a)
    ensures var q := Prepared(s, a).procs[i];
      var p := s.procs[i].(pending := q.pending);
      && (i != s.cur ==>
        || q == p
        || (q == p.(state := Ready) && (p.state.Blocked? || p.state.Sleeping?))
        || (q == p.(state := Unused) && p.state.Zombie? && a.Waits?)
        || (p.state.Unused? && q.state.Ready? && q.stackTop == i + 1 && i != 0))
      && (i == s.cur ==>
        q.stackTop == p.stackTop && (Ticks(s, a) && !a.Timer? ==> s.cur != 0) && (!Ticks(s, a) ==> q == p))
  {
  }

  /** Every legal step from a settled state leads to a settled state. */
  lemma StepSettles(s: Sched, a: Step)
    requires Settled(s) && Legal(s, a)
    ensures Settled(After(s, a))
  {
    hide Tick;
    var n := Prepared(s, a);
    StepIsPrepared(s, a);
    forall i: Slot
      ensures i != s.cur ==> !n.procs[i].state.Running?
      ensures !n.procs[i].state.Unused? ==> n.procs[i].stackTop == if i == 0 then 0 else i + 1
      ensures i != s.cur && n.procs[i].state.Sleeping? ==> n.ticks < n.procs[i].sleepUntil
    {
      PreparedSlot(s, a, i);
    }
    PreparedSlot(s, a, 0);
    PreparedSlot(s, a, s.cur);
    if Ticks(s, a) {
      if !a.Timer? { IdleIsFound(n); }
      TickSettles(n);
    }
  }

  /** Whoever runs, `proc_yield` leaves a running process if and only if another one is ready by then. */
  lemma YieldKeepsOneRunning(s: Sched)
    requires Settled(s)
    ensures Settled(Yield(s)) <==> exists j: Slot :: j != s.cur && Wake(s.procs[j], NextTick(s.ticks)).state.Ready?
  {
    var n := s.(procs := SetState(s.procs, s.cur, Ready));
    var t := Woken(n.procs, NextTick(s.ticks));
    var k := NextReady(t, s.cur, 1);
    if k < 64 {
      TickSettles(n);
      assert Wake(s.procs[Ahead(s.cur, k)], NextTick(s.ticks)).state.Ready?;
    } else {
      assert !Current(Yield(s)).state.Running?;
      forall j: Slot | j != s.cur ensures !Wake(s.procs[j], NextTick(s.ticks)).state.Ready? {
        if t[j].state.Ready? { ReadyIsFound(t, s.cur, j); }
      }
    }
  }

  /** So an idle process that yields when it is alone leaves nobody running. */
  lemma IdleYieldBreaks()
    ensures Settled(BOOTED) && !Settled(Yield(BOOTED))
  {
    YieldKeepsOneRunning(BOOTED);
  }

  // ---- whole runs

  lemma {:induction false} RunSettles(s: Sched, steps: seq<Step>)
    requires Settled(s) && LegalRun(s, steps)
    ensures Settled(Run(s, steps))
    decreases |steps|
  {
    if steps != [] {
      StepSettles(s, steps[0]);
      RunSettles(After(s, steps[0]), steps[1..]);
    }
  }

  /** Calls of `scheduler_tick` along a run. */
  function TickCount(s: Sched, steps: seq<Step>): nat
    decreases |steps|
  {
    if steps == [] then 0
    else (if Ticks(s, steps[0]) then 1 else 0) + TickCount(After(s, steps[0]), steps[1..])
  }

  // ---- no starvation

  /** Each tick dispatches a waiting ready process or brings the scan closer to it. */
  lemma TickApproaches(s: Sched, i: Slot)
    requires i != s.cur && s.procs[i].state.Ready?
    ensures var r := Tick(s);
      r.cur == i || (r.procs[i].state.Ready? && r.cur != i && Distance(r.cur, i) < Distance(s.cur, i))
  {
    var t := Woken(s.procs, NextTick(s.ticks));
    ReadyIsFound(t, s.cur, i);
  }

  lemma StepApproaches(s: Sched, a: Step, i: Slot)
    requires Settled(s) && Legal(s, a) && i != s.cur && s.procs[i].state.Ready?
    ensures var r := After(s, a);
      || r.cur == i
      || (r.procs[i].state.Ready? && r.cur != i
        && Distance(r.cur, i) + (if Ticks(s, a) then 1 else 0) <= Distance(s.cur, i))
  {
    StepIsPrepared(s, a);
    PreparedSlot(s, a, i);
    if Ticks(s, a) { TickApproaches(Prepared(s, a), i); }
  }

  /**
   No starvation: whatever the steps of a run are, a ready process stays ready until it is
   dispatched, and it is dispatched within its cyclic distance from the current slot, at most
   63 calls of the scheduler.
   */
  lemma {:induction false} NoStarvation(s: Sched, steps: seq<Step>, i: Slot) returns (k: nat)
    requires Settled(s) && LegalRun(s, steps) && i != s.cur && s.procs[i].state.Ready?
    requires TickCount(s, steps) >= Distance(s.cur, i)
    ensures k <= |steps| && Run(s, steps[..k]).cur == i && TickCount(s, steps[..k]) <= Distance(s.cur, i) <= 63
    ensures forall j :: 0 <= j < k ==> Run(s, steps[..j]).procs[i].state.Ready?
    decreases |steps|
  {
    hide Settled, After, Ticks;
    var a, n := steps[0], After(s, steps[0]);
    StepSettles(s, a);
    StepApproaches(s, a, i);
    if n.cur == i {
      k := 1;
      assert steps[..1][1..] == [];
    } else {
      var m := NoStarvation(n, steps[1..], i);
      k := m + 1;
      forall j | 0 <= j <= k ensures j > 0 ==> steps[..j][1..] == steps[1..][..j - 1] {}
      forall j | 0 <= j < k ensures Run(s, steps[..j]).procs[i].state.Ready? {
        if j > 0 { assert Run(s, steps[..j]) == Run(n, steps[1..][..j - 1]); }
      }
    }
  }

  // ---- sleeping

  /** Before the sleeper's time has come a step leaves it asleep or, killed, ready. */
  lemma SleeperStep(s: Sched, a: Step, i: Slot)
    requires Settled(s) && Legal(s, a) && i != s.cur && s.procs[i].state.Sleeping? && s.ticks < 0xFFFF_FFFF
    ensures var r := After(s, a);
      && r.ticks == s.ticks + (if Ticks(s, a) then 1 else 0)
      && (r.cur == i || r.procs[i].state.Ready? ||
        (r.procs[i].state.Sleeping? && r.procs[i].sleepUntil == s.procs[i].sleepUntil
          && r.ticks < s.procs[i].sleepUntil))
  {
    hide After, Prepared, Ticks, Tick, Orderly;
    StepIsPrepared(s, a);
    StepSettles(s, a);
    PreparedSlot(s, a, i);
    if Ticks(s, a) { TickSlot(Prepared(s, a), i); }
  }

  /** What one tick does to a slot that is not the current one. */
  lemma TickSlot(s: Sched, i: Slot)
    requires i != s.cur
    ensures Tick(s).ticks == NextTick(s.ticks)
    ensures Tick(s).cur == i || Tick(s).procs[i] == Wake(s.procs[i], NextTick(s.ticks))
  {
    hide NextReady, Ahead, NextTick;
  }

  /** A sleeper runs again at most 63 ticks after its time, as long as the tick counter does not wrap. */
  lemma {:induction false} SleeperRuns(s: Sched, steps: seq<Step>, i: Slot) returns (k: nat)
    requires Settled(s) && LegalRun(s, steps) && i != s.cur && s.procs[i].state.Sleeping?
    requires s.ticks + TickCount(s, steps) < 0x1_0000_0000
    requires TickCount(s, steps) >= s.procs[i].sleepUntil - s.ticks + 63
    ensures k <= |steps| && Run(s, steps[..k]).cur == i
    ensures TickCount(s, steps[..k]) <= s.procs[i].sleepUntil - s.ticks + 63
    decreases |steps|
  {
    hide After;
    var a, n := steps[0], After(s, steps[0]);
    StepSettles(s, a);
    SleeperStep(s, a, i);
    if n.cur == i {
      k := 1;
      assert steps[..1][1..] == [];
    } else {
      var m;
      if n.procs[i].state.Ready? { m := NoStarvation(n, steps[1..], i); } else { m := SleeperRuns(n, steps[1..], i); }
      k := m + 1;
      assert steps[..k][1..] == steps[1..][..m];
    }
  }

  /**
   `proc_sleep` for n = ms / 10 + 1 ticks leaves the caller asleep, due exactly n ticks after the
   call, if and only if n > 1 and the due time does not wrap past the counter as the counter
   itself stands before its wrap; in all other cases the caller is ready again at once.
   */
  lemma SleepsInTime(s: Sched, ms: word)
    requires Settled(s) && s.cur != 0
    ensures var n, r := ms / 10 + 1, Sleep(s, ms).procs[s.cur];
      && (r.state.Sleeping? <==> n > 1 && (s.ticks + n < 0x1_0000_0000 || s.ticks == 0xFFFF_FFFF))
      && (!r.state.Sleeping? ==> r.state.Ready?)
      && (r.state.Sleeping? ==> (r.sleepUntil - NextTick(s.ticks)) == n - 1)
  {
    hide Woken, NextReady, Ahead, NextTick, Distance;
    var n := ms / 10 + 1;
    DueTime(s.ticks, n);
    var p := Current(s).(sleepUntil := (s.ticks + n) % 0x1_0000_0000, state := Sleeping);
    var s1 := s.(procs := s.procs[s.cur := p]);
    var t := Woken(s1.procs, NextTick(s.ticks));
    assert s1.procs[s.cur] == p && t[0] == Wake(s.procs[0], NextTick(s.ticks))
      && t[s.cur] == Wake(p, NextTick(s.ticks));
    ReadyIsFound(t, s.cur, 0);
    NextIsOther(t, s.cur);
  }

  lemma NextIsOther(t: Table, cur: Slot)
    ensures NextReady(t, cur, 1) < 64 ==> Ahead(cur, NextReady(t, cur, 1)) != cur
  {
  }

  /** When a due time n ticks ahead, reduced to 32 bits, is still to come after one tick. */
  lemma DueTime(ticks: word, n: nat)
    requires 1 <= n <= 0x2000_0000
    ensures var until, now := (ticks + n) % 0x1_0000_0000, NextTick(ticks);
      && (now < until <==> n > 1 && (ticks + n < 0x1_0000_0000 || ticks == 0xFFFF_FFFF))
      && (now < until ==> until - now == n - 1)
  {
    if ticks + n >= 0x1_0000_0000 { assert (ticks + n) % 0x1_0000_0000 == ticks + n - 0x1_0000_0000; }
  }
}
