/**
 Pids do collide: kernel processes are numbered from 1 and forks from 100 without a look at the
 table, and both counters can be driven into each other by runs that any kernel process may make.
 */
module ProcPids {
  import opened Proc
  import opened ProcWait

  /** Idle and a kernel process in slots 0 and 1; what slots 2 and 3 hold varies, the others are unused. */
  datatype Camp = Camp(cur: Slot, states: seq<State>, pids: seq<int>, nextKernel: nat, nextFork: nat)

  ghost predicate At(s: Sched, c: Camp) {
    && |c.states| == 4 && |c.pids| == 4 && s.cur == c.cur && s.nextKernel == c.nextKernel && s.nextFork == c.nextFork
    && (forall i: Slot :: i < 4 ==> s.procs[i].state == c.states[i])
    && (forall i: Slot :: i < 4 && c.states[i] != Unused ==> s.procs[i].pid == c.pids[i])
    && (c.states[3] != Unused ==> s.procs[3].ppid == 1)
    && (forall i: Slot :: i >= 4 ==> s.procs[i].state == Unused)
  }

  /** With nobody asleep a tick dispatches the nearest ready process ahead. */
  lemma TickTo(s: Sched, d: nat)
    requires forall i: Slot :: s.procs[i].state != Sleeping
    requires 1 <= d <= 63 && s.procs[Ahead(s.cur, d)].state == Ready
    requires forall j :: 1 <= j < d ==> s.procs[Ahead(s.cur, j)].state != Ready
    ensures Tick(s) == Dispatch(s.(ticks := NextTick(s.ticks)), Ahead(s.cur, d))
  {
    var t := Woken(s.procs, NextTick(s.ticks));
    assert t == s.procs;
    var i := NextReady(t, s.cur, 1);
    assert i == d;
  }

  // ---- one child born, run and reaped

  const REST: seq<State> := [Ready, Running, Ready, Unused]

  function Resting(p: int, k: nat, f: nat): Camp { Camp(1, REST, [0, 1, p, 0], k, f) }

  function Cycle(): seq<Step> { [Creates, Yields, Timer, Exits(0), Timer, Waits(-1)] }

  lemma Born(s: Sched, p: int, k: nat, f: nat)
    requires At(s, Resting(p, k, f))
    ensures At(After(s, Creates), Camp(1, [Ready, Running, Ready, Ready], [0, 1, p, k], k + 1, f))
  {
  }

  lemma Yielded(s: Sched, p: int, q: int, k: nat, f: nat)
    requires At(s, Camp(1, [Ready, Running, Ready, Ready], [0, 1, p, q], k, f))
    ensures At(After(s, Yields), Camp(2, [Ready, Ready, Running, Ready], [0, 1, p, q], k, f))
  {
    TickTo(s.(procs := SetState(s.procs, s.cur, Ready)), 1);
    hide Woken, NextReady, Tick;
  }

  lemma Ticked(s: Sched, p: int, q: int, k: nat, f: nat)
    requires At(s, Camp(2, [Ready, Ready, Running, Ready], [0, 1, p, q], k, f))
    ensures At(After(s, Timer), Camp(3, [Ready, Ready, Ready, Running], [0, 1, p, q], k, f))
  {
    TickTo(s, 1);
    hide Woken, NextReady, Tick;
  }

  lemma Exited(s: Sched, p: int, q: int, k: nat, f: nat)
    requires At(s, Camp(3, [Ready, Ready, Ready, Running], [0, 1, p, q], k, f))
    ensures At(After(s, Exits(0)), Camp(0, [Running, Ready, Ready, Zombie], [0, 1, p, q], k, f))
  {
    hide Woken, NextReady, Tick;
    var z := s.procs[3 := Current(s).(state := Zombie, exitCode := 0)];
    assert WakeParent(z, Current(s).ppid) == z;
    var e := s.(procs := z[3 := z[3].(pageDir := KERNEL_DIR)]);
    assert After(s, Exits(0)) == Tick(e);
    TickTo(e, 61);
  }

  lemma Resumed(s: Sched, p: int, q: int, k: nat, f: nat)
    requires At(s, Camp(0, [Running, Ready, Ready, Zombie], [0, 1, p, q], k, f))
    ensures At(After(s, Timer), Camp(1, [Ready, Running, Ready, Zombie], [0, 1, p, q], k, f))
  {
    TickTo(s, 1);
    hide Woken, NextReady, Tick;
  }

  lemma Buried(s: Sched, p: int, q: int, k: nat, f: nat)
    requires At(s, Camp(1, [Ready, Running, Ready, Zombie], [0, 1, p, q], k, f))
    ensures At(After(s, Waits(-1)), Resting(p, k, f))
  {
    assert Awaits(s.procs[3], 1, -1);
    var z := FirstAwaited(s.procs, 1, -1, 0);
    assert z == 3;
  }

  /** The whole cycle uses up one kernel pid and leaves the table as it was. */
  lemma Cycled(s: Sched, p: int, k: nat, f: nat)
    requires At(s, Resting(p, k, f))
    ensures LegalRun(s, Cycle()) && At(Run(s, Cycle()), Resting(p, k + 1, f))
  {
    hide At, After;
    Born(s, p, k, f);
    var s1 := After(s, Creates);
    Yielded(s1, p, k, k + 1, f);
    var s2 := After(s1, Yields);
    Ticked(s2, p, k, k + 1, f);
    var s3 := After(s2, Timer);
    Exited(s3, p, k, k + 1, f);
    var s4 := After(s3, Exits(0));
    Resumed(s4, p, k, k + 1, f);
    var s5 := After(s4, Timer);
    Buried(s5, p, k, k + 1, f);
    CycleRun(s);
    AtCur(s, Resting(p, k, f));
    AtCur(s1, Camp(1, [Ready, Running, Ready, Ready], [0, 1, p, k], k + 1, f));
    AtCur(s2, Camp(2, [Ready, Ready, Running, Ready], [0, 1, p, k], k + 1, f));
    AtCur(s3, Camp(3, [Ready, Ready, Ready, Running], [0, 1, p, k], k + 1, f));
    AtCur(s5, Camp(1, [Ready, Running, Ready, Zombie], [0, 1, p, k], k + 1, f));
  }

  lemma AtCur(s: Sched, c: Camp)
    requires At(s, c)
    ensures s.cur == c.cur
  {
  }

  lemma CycleRun(s: Sched)
    ensures var s1 := After(s, Creates);
      var s2 := After(s1, Yields);
      var s3 := After(s2, Timer);
      var s4 := After(s3, Exits(0));
      var s5 := After(s4, Timer);
      && Run(s, Cycle()) == After(s5, Waits(-1))
      && (s.cur != 0 && s1.cur != 0 && s2.cur != 0 && s3.cur != 0 && s5.cur != 0 ==> LegalRun(s, Cycle()))
  {
    hide After;
    var s1 := After(s, Creates);
    var s2 := After(s1, Yields);
    var s3 := After(s2, Timer);
    var s4 := After(s3, Exits(0));
    var s5 := After(s4, Timer);
    FirstStep(s, Creates, Cycle()[1..]);
    FirstStep(s1, Yields, Cycle()[2..]);
    FirstStep(s2, Timer, Cycle()[3..]);
    FirstStep(s3, Exits(0), Cycle()[4..]);
    FirstStep(s4, Timer, Cycle()[5..]);
    FirstStep(s5, Waits(-1), []);
    assert [Creates] + Cycle()[1..] == Cycle() && [Yields] + Cycle()[2..] == Cycle()[1..];
    assert [Timer] + Cycle()[3..] == Cycle()[2..] && [Exits(0)] + Cycle()[4..] == Cycle()[3..];
    assert [Timer] + Cycle()[5..] == Cycle()[4..] && [Waits(-1)] + [] == Cycle()[5..];
  }

  lemma FirstStep(s: Sched, a: Step, rest: seq<Step>)
    ensures Run(s, [a] + rest) == Run(After(s, a), rest)
    ensures LegalRun(s, [a] + rest) <==> Legal(s, a) && LegalRun(After(s, a), rest)
  {
    assert ([a] + rest)[1..] == rest;
  }

  // ---- n cycles

  function Cycles(n: nat): seq<Step> { if n == 0 then [] else Cycle() + Cycles(n - 1) }

  lemma {:induction false} RunJoin(s: Sched, a: seq<Step>, b: seq<Step>)
    ensures Run(s, a + b) == Run(Run(s, a), b)
    ensures LegalRun(s, a + b) <==> LegalRun(s, a) && LegalRun(Run(s, a), b)
    decreases |a|
  {
    hide After;
    if a == [] {
      assert a + b == b;
    } else {
      assert (a + b)[1..] == a[1..] + b;
      RunJoin(After(s, a[0]), a[1..], b);
    }
  }

  lemma {:induction false} CyclesRun(s: Sched, p: int, k: nat, f: nat, n: nat)
    requires At(s, Resting(p, k, f))
    ensures LegalRun(s, Cycles(n)) && At(Run(s, Cycles(n)), Resting(p, k + n, f))
    decreases n
  {
    hide At, Run, LegalRun, Cycle;
    if n == 0 {
      RunNone(s);
    } else {
      Cycled(s, p, k, f);
      CyclesRun(Run(s, Cycle()), p, k + 1, f, n - 1);
      RunJoin(s, Cycle(), Cycles(n - 1));
    }
  }

  lemma RunNone(s: Sched)
    ensures Run(s, []) == s && LegalRun(s, [])
  {
  }

  // ---- from boot

  function Start(): seq<Step> { [Creates, Timer] }

  lemma Started()
    ensures LegalRun(BOOTED, Start())
    ensures At(Run(BOOTED, Start()), Camp(1, [Ready, Running, Unused, Unused], [0, 1, 0, 0], 2, 100))
  {
    var s := After(BOOTED, Creates);
    TickTo(s, 1);
    FirstStep(BOOTED, Creates, [Timer]);
    FirstStep(s, Timer, []);
    assert [Creates] + [Timer] == Start() && [Timer] + [] == [Timer];
  }

  /** Pids of a rested camp are distinct as long as the one in slot 2 is neither 0 nor 1. */
  lemma RestingDistinct(s: Sched, p: int, k: nat, f: nat)
    requires At(s, Resting(p, k, f)) && p > 1
    ensures PidsDistinct(s) && FirstUnused(s.procs, 0) == 3
  {
  }

  /** From boot: a second process in slot 2, then n cycles. */
  function Prepare(a: Step, n: nat): seq<Step> { Start() + [a] + Cycles(n) }

  lemma PrepareRuns(a: Step, n: nat)
    requires a.Forks? || a.Creates?
    ensures LegalRun(BOOTED, Prepare(a, n))
    ensures At(Run(BOOTED, Prepare(a, n)), if a.Forks? then Resting(100, 2 + n, 101) else Resting(2, 3 + n, 100))
  {
    hide At, Run, LegalRun, Start, Cycles;
    Started();
    var s0 := Run(BOOTED, Start());
    SecondSlot(s0, a);
    RunJoin(BOOTED, Start(), [a]);
    if a.Forks? { CyclesRun(Run(s0, [a]), 100, 2, 101, n); } else { CyclesRun(Run(s0, [a]), 2, 3, 100, n); }
    RunJoin(BOOTED, Start() + [a], Cycles(n));
  }

  /** One step more. */
  lemma RunOn(s: Sched, steps: seq<Step>, a: Step)
    ensures Run(s, steps + [a]) == After(Run(s, steps), a)
    ensures LegalRun(s, steps + [a]) <==> LegalRun(s, steps) && Legal(Run(s, steps), a)
  {
    RunJoin(s, steps, [a]);
    FirstStep(Run(s, steps), a, []);
    RunNone(After(Run(s, steps), a));
    assert [a] + [] == [a];
  }

  /** A run after which the next kernel process gets the pid of a fork that is still alive. */
  lemma CreateCollides(dir: nat) returns (steps: seq<Step>)
    ensures LegalRun(BOOTED, steps + [Creates])
    ensures PidsDistinct(Run(BOOTED, steps)) && !PidsDistinct(Run(BOOTED, steps + [Creates]))
  {
    hide At, Run, LegalRun, Prepare, PidsDistinct;
    steps := Prepare(Forks(dir), 98);
    PrepareRuns(Forks(dir), 98);
    var s := Run(BOOTED, steps);
    RestingDistinct(s, 100, 100, 101);
    AtSlot(s, Resting(100, 100, 101));
    CreateKeepsPids(s);
    RunOn(BOOTED, steps, Creates);
  }

  lemma AtSlot(s: Sched, c: Camp)
    requires At(s, c) && c.states[2] == Ready
    ensures Named(s.procs[2], c.pids[2]) && s.nextKernel == c.nextKernel && s.nextFork == c.nextFork && s.cur == c.cur
  {
  }

  /** The process in slot 2: a fork or a second kernel process. */
  lemma SecondSlot(s: Sched, a: Step)
    requires At(s, Camp(1, [Ready, Running, Unused, Unused], [0, 1, 0, 0], 2, 100)) && (a.Forks? || a.Creates?)
    ensures LegalRun(s, [a])
    ensures At(Run(s, [a]), if a.Forks? then Resting(100, 2, 101) else Resting(2, 3, 100))
  {
    FirstStep(s, a, []);
    assert [a] + [] == [a];
  }

  /** A run after which the next fork gets the pid of a kernel process that is still alive. */
  lemma ForkCollides(dir: nat) returns (steps: seq<Step>)
    ensures LegalRun(BOOTED, steps + [Forks(dir)])
    ensures PidsDistinct(Run(BOOTED, steps)) && !PidsDistinct(Run(BOOTED, steps + [Forks(dir)]))
  {
    hide At, Run, LegalRun, Prepare, PidsDistinct;
    var most := Prepare(Creates, 97);
    PrepareRuns(Creates, 97);
    HundredthCreated(Run(BOOTED, most));
    RunOn(BOOTED, most, Creates);
    steps := most + [Creates];
    ForkKeepsPids(Run(BOOTED, steps), dir);
    RunOn(BOOTED, steps, Forks(dir));
  }

  lemma HundredthCreated(s: Sched)
    requires At(s, Resting(2, 100, 100))
    ensures var t := After(s, Creates);
      && PidsDistinct(t) && Named(t.procs[3], 100) && t.nextFork == 100 && t.cur == 1 && s.cur == 1
      && FirstUnused(t.procs, 0) == 4
  {
    Born(s, 2, 100, 100);
  }
}
