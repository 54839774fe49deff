/**
 What each call of proc/proc.c leaves in the table, slot by slot: who is chosen, whose entry
 changes and how, and that nothing else does.
 */
module ProcMeaning {
  import opened Bits
  import opened Proc
  import opened ProcLaws
  import opened ProcWait

  // ---- the scheduler

  /** Asleep with its time come. */
  predicate Due(p: Process, now: nat) { p.state == Sleeping && p.sleepUntil <= now }

  predicate CanRun(p: Process, now: nat) { p.state == Ready || Due(p, now) }

  /** The entry of a process that is not chosen. */
  function Rested(p: Process, now: nat): Process { if Due(p, now) then p.(state := Ready) else p }

  /** The slot e places ahead, round the table. */
  function Round(cur: Slot, e: nat): Slot { (cur + e) % 64 }

  /** The entry that process i gets when the d-th slot ahead is chosen; 64 ahead is nobody else. */
  function NewEntry(s: Sched, d: nat, now: nat, i: Slot): Process {
    if d < 64 && i == Round(s.cur, d) then s.procs[i].(state := Running)
    else if d < 64 && i == s.cur && s.procs[i].state == Running then s.procs[i].(state := Ready)
    else Rested(s.procs[i], now)
  }

  /**
   r is s one tick later: the first process ahead that can run, d slots on, has the processor with
   its own stack and directory, and the one that ran before is ready.
   */
  ghost predicate Scheduled(s: Sched, r: Sched, d: nat) {
    var now, n := (s.ticks + 1) % 0x1_0000_0000, Round(s.cur, d);
    && 1 <= d <= 64 && r.ticks == now && r.nextKernel == s.nextKernel && r.nextFork == s.nextFork
    && (forall e: nat :: 1 <= e < d ==> !CanRun(s.procs[Round(s.cur, e)], now))
    && (d < 64 ==> CanRun(s.procs[n], now))
    && (r.cur, r.esp0, r.cr3) ==
      (if d < 64 then (n, s.procs[n].stackTop, s.procs[n].pageDir) else (s.cur, s.esp0, s.cr3))
    && (forall i: Slot :: r.procs[i] == NewEntry(s, d, now, i))
  }

  lemma RoundIsAhead(cur: Slot, e: nat)
    requires 1 <= e <= 64
    ensures Round(cur, e) == Ahead(cur, e) && (e < 64 ==> Round(cur, e) != cur)
  {
  }

  /** `scheduler_tick` is round robin over the ready processes, sleepers whose time has come among them. */
  lemma TickMeaning(s: Sched) returns (d: nat)
    ensures Scheduled(s, Tick(s), d)
  {
    hide NextReady, Round, Ahead, Woken;
    var now := NextTick(s.ticks);
    var t := Woken(s.procs, now);
    var i := NextReady(t, s.cur, 1);
    d := if i < 64 then i else 64;
    RoundIsAhead(s.cur, d);
    assert forall j: Slot :: t[j] == Wake(s.procs[j], now);
    forall e: nat | 1 <= e < d ensures !CanRun(s.procs[Round(s.cur, e)], now) {
      RoundIsAhead(s.cur, e);
      assert !t[Ahead(s.cur, e)].state.Ready?;
    }
  }

  /** `proc_yield`: the caller, if it ran, is ready, and then the scheduler decides. */
  lemma YieldMeaning(s: Sched) returns (d: nat)
    ensures Scheduled(if Current(s).state == Running then s.(procs := s.procs[s.cur := Current(s).(state := Ready)])
      else s, Yield(s), d)
  {
    hide Tick;
    d := TickMeaning(if Current(s).state == Running then s.(procs := s.procs[s.cur := Current(s).(state := Ready)])
      else s);
  }

  /** `proc_sleep`: the caller sleeps for a tick more than the whole tens of milliseconds. */
  lemma SleepMeaning(s: Sched, ms: nat) returns (d: nat)
    requires ms < 0x1_0000_0000
    ensures Scheduled(s.(procs := s.procs[s.cur :=
      Current(s).(state := Sleeping, sleepUntil := (s.ticks + ms / 10 + 1) % 0x1_0000_0000)]), Sleep(s, ms), d)
  {
    hide Yield, Scheduled;
    d := YieldMeaning(s.(procs := s.procs[s.cur :=
      Current(s).(state := Sleeping, sleepUntil := (s.ticks + ms / 10 + 1) % 0x1_0000_0000)]));
  }

  // ---- creation

  /** r is s with p in the first slot of the table that is not in use; k is that slot, or 64 if there is none. */
  ghost predicate Entered(s: Sched, r: Sched, k: nat, p: Process) {
    && k <= 64 && (forall j: Slot :: j < k ==> s.procs[j].state != Unused)
    && (k == 64 ==> r == s)
    && (k < 64 ==> s.procs[k].state == Unused && r.procs[k] == p)
    && (r.cur, r.ticks, r.esp0, r.cr3) == (s.cur, s.ticks, s.esp0, s.cr3)
    && (forall i: Slot :: i != k ==> r.procs[i] == s.procs[i])
  }

  /** `proc_create_kernel`: a ready child of the caller, in the kernel's address space, on its slot's stack. */
  lemma CreateMeaning(s: Sched)
    ensures var (r, k) := CreateKernel(s);
      && Entered(s, r, k, Process(s.nextKernel, Current(s).pid, Ready, 0, 0, 0, k + 1, 0))
      && (k < 64 ==> r.nextKernel == s.nextKernel + 1 && r.nextFork == s.nextFork)
  {
  }

  /**
   `proc_fork`: a ready child of the caller, in the address space it is handed and on its slot's own
   stack, with the caller's other fields.
   */
  lemma ForkMeaning(s: Sched, dir: nat)
    ensures var ((r, k), p) := (Fork(s, dir), Current(s));
      && Entered(s, r, k, Process(s.nextFork, p.pid, Ready, p.exitCode, p.sleepUntil, dir, k + 1, p.pending))
      && (k < 64 ==> r.nextFork == s.nextFork + 1 && r.nextKernel == s.nextKernel)
  {
  }

  // ---- exit and wait

  /** Slot i is the first in use by that pid. */
  ghost predicate FirstWith(s: Sched, pid: int, i: Slot) {
    && s.procs[i].state != Unused && s.procs[i].pid == pid
    && (forall j: Slot :: j < i ==> !(s.procs[j].state != Unused && s.procs[j].pid == pid))
  }

  lemma FirstIsFound(s: Sched, pid: int, i: Slot)
    ensures FirstWith(s, pid, i) <==> Find(s.procs, pid, 0) == i
  {
  }

  /**
   `proc_exit`: the caller is a zombie with that code in the kernel's address space, its parent is
   ready if it was blocked, nobody else is touched, and then the scheduler decides.
   */
  lemma ExitMeaning(s: Sched, code: int) returns (n: Sched, d: nat)
    requires Current(s).state == Running
    ensures Scheduled(n, Exit(s, code), d) && n == s.(procs := n.procs)
    ensures n.procs[s.cur] == Current(s).(state := Zombie, exitCode := code, pageDir := 0)
    ensures forall i: Slot :: i != s.cur ==>
      n.procs[i] == if FirstWith(s, Current(s).ppid, i) && s.procs[i].state == Blocked
        then s.procs[i].(state := Ready) else s.procs[i]
  {
    hide Tick, Find;
    var z := s.procs[s.cur := Current(s).(state := Zombie, exitCode := code)];
    var t := WakeParent(z, Current(s).ppid);
    n := s.(procs := t[s.cur := t[s.cur].(pageDir := KERNEL_DIR)]);
    ExitKeepsOwnEntry(s, code);
    forall i: Slot ensures FirstWith(s, Current(s).ppid, i) <==> Find(z, Current(s).ppid, 0) == i {
      FirstIsFound(s.(procs := z), Current(s).ppid, i);
      SameFirst(s, s.(procs := z), Current(s).ppid, i);
    }
    d := YieldMeaning(n);
  }

  lemma SameFirst(s: Sched, r: Sched, pid: int, i: Slot)
    requires forall j: Slot ::
      r.procs[j].pid == s.procs[j].pid && (r.procs[j].state == Unused <==> s.procs[j].state == Unused)
    ensures FirstWith(r, pid, i) <==> FirstWith(s, pid, i)
  {
  }

  /** The zombie is one this wait asks for: a child of the caller, any or the one with that pid. */
  predicate Answers(p: Process, caller: int, pid: int) {
    p.state == Zombie && p.ppid == caller && (pid == p.pid || pid == -1)
  }

  ghost predicate HasChild(s: Sched, caller: int) {
    exists j: Slot :: s.procs[j].state != Unused && s.procs[j].ppid == caller
  }

  /** `proc_wait` reaps the first zombie it asks for and answers with its pid and code; nobody else is touched. */
  lemma WaitReaps(s: Sched, pid: int, k: Slot)
    requires Answers(s.procs[k], Current(s).pid, pid)
    requires forall j: Slot :: j < k ==> !Answers(s.procs[j], Current(s).pid, pid)
    ensures WaitPass(s, pid) ==
      (s.(procs := s.procs[k := s.procs[k].(state := Unused)]), Reaped(s.procs[k].pid, s.procs[k].exitCode))
  {
    var me := Current(s).pid;
    assert Awaits(s.procs[k], me, pid);
    var f := FirstAwaited(s.procs, me, pid, 0);
    assert f <= k && Answers(s.procs[f], me, pid);
  }

  /**
   Without such a zombie it answers that there is no child, changing nothing, if no slot in use names
   the caller as parent; otherwise the caller blocks and the scheduler decides.
   */
  lemma WaitBlocks(s: Sched, pid: int) returns (d: nat)
    requires forall k: Slot :: !Answers(s.procs[k], Current(s).pid, pid)
    ensures var (r, o) := WaitPass(s, pid);
      if HasChild(s, Current(s).pid) then
        && o == Waiting && r.procs[s.cur] == Current(s).(state := Blocked)
        && Scheduled(s.(procs := s.procs[s.cur := Current(s).(state := Blocked)]), r, d)
      else o == NoChild && r == s
  {
    hide Yield, WaitPass;
    WithoutZombie(s, pid);
    var n := s.(procs := s.procs[s.cur := Current(s).(state := Blocked)]);
    d := YieldMeaning(n);
    BlockedStays(n, Yield(n), d);
  }

  lemma WithoutZombie(s: Sched, pid: int)
    requires forall k: Slot :: !Answers(s.procs[k], Current(s).pid, pid)
    ensures WaitPass(s, pid) ==
      if HasChild(s, Current(s).pid) then (Yield(s.(procs := s.procs[s.cur := Current(s).(state := Blocked)])), Waiting)
      else (s, NoChild)
  {
    hide Yield;
    var me, k := Current(s).pid, FirstAwaited(s.procs, Current(s).pid, pid, 0);
    assert k < 64 ==> Answers(s.procs[k], me, pid);
    var c := FirstChild(s.procs, me, 0);
    assert c < 64 ==> s.procs[c].state != Unused && s.procs[c].ppid == me;
    forall j: Slot ensures c == 64 ==> s.procs[j].state == Unused || s.procs[j].ppid != me {
      assert c == 64 ==> !ChildOf(s.procs[j], me);
    }
  }

  lemma BlockedStays(s: Sched, r: Sched, d: nat)
    requires Scheduled(s, r, d) && Current(s).state == Blocked
    ensures r.procs[s.cur] == Current(s)
  {
    RoundIsAhead(s.cur, d);
  }

  // ---- signals

  /**
   `proc_kill` adds exactly that signal to the first process in use by the pid, wakes it if it waits
   or sleeps, and touches nothing else.
   */
  lemma KillMeaning(s: Sched, pid: int, sig: nat, i: Slot, j: nat)
    ensures var (r, p, q) := (Kill(s, pid, sig), s.procs[i], Kill(s, pid, sig).procs[i]);
      && r == s.(procs := r.procs)
      && (if !FirstWith(s, pid, i) then q == p
          else
            && (Bit(q.pending, j) <==> Bit(p.pending, j) || j == sig % 32)
            && q == p.(pending := q.pending,
              state := if p.state == Blocked || p.state == Sleeping then Ready else p.state))
  {
    FirstIsFound(s, pid, i);
    hide Find, Or, FirstWith;
    BitOr(s.procs[i].pending, Pow2(sig % 32), j);
    BitPow2(sig % 32, j);
  }

  // ---- address spaces

  /** Two processes share an address space only if it is the kernel's. */
  ghost predicate OwnSpaces(s: Sched) {
    forall i: Slot, j: Slot :: i != j && Alive(s.procs[i]) && Alive(s.procs[j]) ==>
      s.procs[i].pageDir != s.procs[j].pageDir || s.procs[i].pageDir == KERNEL_DIR
  }

  /** A fork is handed a directory that no process holds. */
  ghost predicate HandsOver(s: Sched, a: Step) {
    a.Forks? ==> forall i: Slot :: Alive(s.procs[i]) ==> s.procs[i].pageDir != a.dir
  }

  ghost predicate SpacesRun(s: Sched, steps: seq<Step>)
    decreases |steps|
  {
    steps != [] ==> HandsOver(s, steps[0]) && SpacesRun(After(s, steps[0]), steps[1..])
  }

  /** The address space of the entry q that slot i got in a step, in terms of who held what before. */
  ghost predicate SpaceKept(s: Sched, a: Step, i: Slot, q: Process) {
    Alive(q) ==>
      || q.pageDir == KERNEL_DIR
      || (Alive(s.procs[i]) && q.pageDir == s.procs[i].pageDir)
      || (a.Forks? && i == Fork(s, a.dir).1 && q.pageDir == a.dir)
  }

  lemma TickKeepsSpace(s: Sched, i: Slot)
    ensures Tick(s).procs[i].pageDir == s.procs[i].pageDir && (Alive(Tick(s).procs[i]) <==> Alive(s.procs[i]))
  {
    var d := TickMeaning(s);
    hide Tick, Round;
  }

  lemma PreparedKeepsSpace(s: Sched, a: Step, i: Slot)
    requires Current(s).state.Running?
    ensures SpaceKept(s, a, i, Prepared(s, a).procs[i])
  {
    hide Tick, Find, FirstUnused, FirstAwaited, FirstChild;
    if a.Exits? { ExitKeepsOwnEntry(s, a.code); }
  }

  lemma StepKeepsSpace(s: Sched, a: Step, i: Slot)
    requires Current(s).state.Running?
    ensures SpaceKept(s, a, i, After(s, a).procs[i])
  {
    hide Tick, Prepared, Fork, After, Ticks;
    StepIsPrepared(s, a);
    PreparedKeepsSpace(s, a, i);
    if Ticks(s, a) { TickKeepsSpace(Prepared(s, a), i); }
  }

  lemma StepOwnSpaces(s: Sched, a: Step)
    requires OwnSpaces(s) && Current(s).state.Running? && HandsOver(s, a)
    ensures OwnSpaces(After(s, a))
  {
    hide After, Fork;
    var r := After(s, a);
    forall i: Slot, j: Slot | i != j && Alive(r.procs[i]) && Alive(r.procs[j])
      ensures r.procs[i].pageDir != r.procs[j].pageDir || r.procs[i].pageDir == KERNEL_DIR
    {
      StepKeepsSpace(s, a, i);
      StepKeepsSpace(s, a, j);
    }
  }

  lemma {:induction false} RunOwnSpaces(s: Sched, steps: seq<Step>)
    requires Settled(s) && LegalRun(s, steps) && OwnSpaces(s) && SpacesRun(s, steps)
    ensures OwnSpaces(Run(s, steps))
    decreases |steps|
  {
    hide After, OwnSpaces, HandsOver, Orderly, NoOverdueSleeper;
    if steps != [] {
      StepSettles(s, steps[0]);
      StepOwnSpaces(s, steps[0]);
      RunOwnSpaces(After(s, steps[0]), steps[1..]);
    }
  }

  /**
   Over every run from boot in which each fork is handed a directory that no live process holds, two
   live processes on one directory both hold the kernel's: the directory that an exit destroys is
   nobody else's.
   */
  lemma SpacesStayOwn(steps: seq<Step>, i: Slot, j: Slot)
    requires LegalRun(BOOTED, steps) && SpacesRun(BOOTED, steps) && i != j
    ensures var t := Run(BOOTED, steps).procs;
      t[i].state != Unused && t[j].state != Unused && t[i].pageDir == t[j].pageDir ==> t[i].pageDir == KERNEL_DIR
  {
    RunOwnSpaces(BOOTED, steps);
  }
}
