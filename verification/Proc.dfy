/**
 The process table of proc/proc.c and its operations, each as one atomic step: system calls and
 timer interrupts run with interrupts off.
 */
module Proc {
  import opened Bits

  const MAX_PROCS: nat := 64
  const KERNEL_DIR: nat := 0

  datatype State = Unused | Running | Ready | Blocked | Zombie | Sleeping

  /** Stacks are numbered: the kernel stack of slot i is i + 1, and 0 stands for none. */
  datatype Process = Process(
    pid: int, ppid: int, state: State, exitCode: int, sleepUntil: word, pageDir: nat, stackTop: nat, pending: word)

  const NOBODY := Process(0, 0, Unused, 0, 0, 0, 0, 0)

  type Table = t: seq<Process> | |t| == 64 witness seq(64, _ => NOBODY)
  type Slot = i: nat | i < 64

  /** The scheduler's variables, with the kernel stack the TSS names and the active directory. */
  datatype Sched = Sched(
    procs: Table, cur: Slot, ticks: word, nextKernel: nat, nextFork: nat, esp0: nat, cr3: nat)

  function Current(s: Sched): Process { s.procs[s.cur] }

  function SetState(t: Table, i: Slot, state: State): Table { t[i := t[i].(state := state)] }

  // ---- scans

  /** `alloc_proc`: the first unused slot at or after i, or 64. */
  function FirstUnused(t: Table, i: nat): (k: nat)
    requires i <= 64
    ensures i <= k <= 64 && (k < 64 ==> t[k].state.Unused?)
    ensures forall j :: i <= j < k ==> !t[j].state.Unused?
    decreases 64 - i
  {
    if i == 64 || t[i].state.Unused? then i else FirstUnused(t, i + 1)
  }

  predicate Named(p: Process, pid: int) { p.pid == pid && !p.state.Unused? }

  /** `proc_get`: the first slot at or after i in use by that pid, or 64. */
  function Find(t: Table, pid: int, i: nat): (k: nat)
    requires i <= 64
    ensures i <= k <= 64 && (k < 64 ==> Named(t[k], pid))
    ensures forall j :: i <= j < k ==> !Named(t[j], pid)
    decreases 64 - i
  {
    if i == 64 || Named(t[i], pid) then i else Find(t, pid, i + 1)
  }

  /** `(cur_idx + i) % MAX_PROCS` */
  function Ahead(cur: Slot, i: nat): Slot
    requires i <= 64
  {
    if cur + i < 64 then cur + i else cur + i - 64
  }

  /** How far slot j lies ahead of slot c. */
  function Distance(c: Slot, j: Slot): (d: nat)
    ensures 1 <= d <= 64 && Ahead(c, d) == j && (d == 64 <==> c == j)
  {
    if c < j then j - c else j - c + 64
  }

  /** The scheduler's scan: the least i in [from, 64] whose slot ahead is READY, or 65. */
  function NextReady(t: Table, cur: Slot, from: nat): (i: nat)
    requires 1 <= from <= 65
    ensures from <= i <= 65 && (i < 65 ==> t[Ahead(cur, i)].state.Ready?)
    ensures forall j :: from <= j < i ==> !t[Ahead(cur, j)].state.Ready?
    decreases 65 - from
  {
    if from == 65 || t[Ahead(cur, from)].state.Ready? then from else NextReady(t, cur, from + 1)
  }

  // ---- the scheduler

  function Wake(p: Process, now: word): Process {
    if p.state.Sleeping? && now >= p.sleepUntil then p.(state := Ready) else p
  }

  function Woken(t: Table, now: word): (r: Table)
    ensures forall i :: 0 <= i < 64 ==> r[i] == Wake(t[i], now)
  {
    seq(64, i requires 0 <= i < 64 => Wake(t[i], now))
  }

  function NextTick(ticks: word): word { (ticks + 1) % 0x1_0000_0000 }

  /** Process n takes the processor, with its own stack and address space. */
  function Dispatch(s: Sched, n: Slot): Sched {
    var t := if Current(s).state.Running? then SetState(s.procs, s.cur, Ready) else s.procs;
    s.(procs := SetState(t, n, Running), cur := n, esp0 := t[n].stackTop, cr3 := t[n].pageDir)
  }

  /** `scheduler_tick` */
  function Tick(s: Sched): Sched {
    var s1 := s.(ticks := NextTick(s.ticks), procs := Woken(s.procs, NextTick(s.ticks)));
    var i := NextReady(s1.procs, s.cur, 1);
    if i >= 64 then s1 else Dispatch(s1, Ahead(s.cur, i))
  }

  /** `proc_yield` */
  function Yield(s: Sched): Sched {
    Tick(if Current(s).state.Running? then s.(procs := SetState(s.procs, s.cur, Ready)) else s)
  }

  /** `proc_sleep`, one tick for each 10 ms begun */
  function Sleep(s: Sched, ms: word): Sched {
    var until := (s.ticks + (ms / 10 + 1)) % 0x1_0000_0000;
    Yield(s.(procs := s.procs[s.cur := Current(s).(sleepUntil := until, state := Sleeping)]))
  }

  // ---- creation

  /** `proc_create_kernel`; the slot is 64 when the table is full. */
  function CreateKernel(s: Sched): (Sched, nat) {
    var i := FirstUnused(s.procs, 0);
    if i == 64 then (s, 64)
    else
      var p := Process(s.nextKernel, Current(s).pid, Ready, 0, 0, KERNEL_DIR, i + 1, 0);
      (s.(procs := s.procs[i := p], nextKernel := s.nextKernel + 1), i)
  }

  /** `proc_fork` with the directory `vmm_clone` returned. */
  function Fork(s: Sched, dir: nat): (Sched, nat) {
    var i := FirstUnused(s.procs, 0);
    if i == 64 then (s, 64)
    else
      var p := Current(s).(pid := s.nextFork, ppid := Current(s).pid, state := Ready, pageDir := dir,
        stackTop := i + 1);
      (s.(procs := s.procs[i := p], nextFork := s.nextFork + 1), i)
  }

  // ---- exit, wait and kill

  /** A blocked process with that pid becomes ready. */
  function WakeParent(t: Table, pid: int): Table {
    var k := Find(t, pid, 0);
    if k < 64 && t[k].state.Blocked? then SetState(t, k, Ready) else t
  }

  /** `proc_exit` */
  function Exit(s: Sched, code: int): Sched {
    var t := WakeParent(s.procs[s.cur := Current(s).(state := Zombie, exitCode := code)], Current(s).ppid);
    Yield(s.(procs := t[s.cur := t[s.cur].(pageDir := KERNEL_DIR)]))
  }

  predicate Awaits(p: Process, parent: int, pid: int) {
    p.state.Zombie? && p.ppid == parent && (pid == -1 || p.pid == pid)
  }

  predicate ChildOf(p: Process, parent: int) { p.ppid == parent && !p.state.Unused? }

  /** The first zombie at or after i that this wait takes, or 64. */
  function FirstAwaited(t: Table, parent: int, pid: int, i: nat): (k: nat)
    requires i <= 64
    ensures i <= k <= 64 && (k < 64 ==> Awaits(t[k], parent, pid))
    ensures forall j :: i <= j < k ==> !Awaits(t[j], parent, pid)
    decreases 64 - i
  {
    if i == 64 || Awaits(t[i], parent, pid) then i else FirstAwaited(t, parent, pid, i + 1)
  }

  function FirstChild(t: Table, parent: int, i: nat): (k: nat)
    requires i <= 64
    ensures i <= k <= 64 && (k < 64 ==> ChildOf(t[k], parent))
    ensures forall j :: i <= j < k ==> !ChildOf(t[j], parent)
    decreases 64 - i
  {
    if i == 64 || ChildOf(t[i], parent) then i else FirstChild(t, parent, i + 1)
  }

  datatype Outcome = Reaped(pid: int, code: int) | NoChild | Waiting

  /** One pass through the loop of `proc_wait`: a child reaped, no child at all, or blocked. */
  function WaitPass(s: Sched, pid: int): (Sched, Outcome) {
    var me, k := Current(s).pid, FirstAwaited(s.procs, Current(s).pid, pid, 0);
    if k < 64 then
      (s.(procs := SetState(s.procs, k, Unused)), Reaped(s.procs[k].pid, s.procs[k].exitCode))
    else if FirstChild(s.procs, me, 0) == 64 then (s, NoChild)
    else (Yield(s.(procs := SetState(s.procs, s.cur, Blocked))), Waiting)
  }

  /** `pending_sigs | (1u << sig)`; the processor shifts by the low five bits. */
  function Marked(pending: word, sig: nat): word {
    PowGrows(sig % 32, 32);
    PowersUsed();
    OrBound(pending, Pow2(sig % 32), 32);
    Or(pending, Pow2(sig % 32))
  }

  /** `proc_kill`: the signal is recorded, and a waiting or sleeping process becomes ready. */
  function Kill(s: Sched, pid: int, sig: nat): Sched {
    var k := Find(s.procs, pid, 0);
    if k == 64 then s
    else
      var p := s.procs[k].(pending := Marked(s.procs[k].pending, sig));
      s.(procs := s.procs[k := if p.state.Blocked? || p.state.Sleeping? then p.(state := Ready) else p])
  }

  // ---- runs

  /** What the current process, or the timer, does next. */
  datatype Step =
    | Timer | Yields | Sleeps(ms: word) | Creates | Forks(dir: nat)
    | Exits(code: int) | Waits(pid: int) | Kills(pid: int, sig: nat)

  function After(s: Sched, a: Step): Sched {
    match a
    case Timer => Tick(s)
    case Yields => Yield(s)
    case Sleeps(ms) => Sleep(s, ms)
    case Creates => CreateKernel(s).0
    case Forks(dir) => Fork(s, dir).0
    case Exits(code) => Exit(s, code)
    case Waits(pid) => WaitPass(s, pid).0
    case Kills(pid, sig) => Kill(s, pid, sig)
  }

  /** The idle process in slot 0 starts kernel processes at boot and then only halts. */
  predicate Legal(s: Sched, a: Step) { s.cur == 0 ==> a.Timer? || a.Creates? }

  function Run(s: Sched, steps: seq<Step>): Sched
    decreases |steps|
  {
    if steps == [] then s else Run(After(s, steps[0]), steps[1..])
  }

  predicate LegalRun(s: Sched, steps: seq<Step>)
    decreases |steps|
  {
    steps != [] ==> Legal(s, steps[0]) && LegalRun(After(s, steps[0]), steps[1..])
  }

  /** Whether the step calls `scheduler_tick`. */
  predicate Ticks(s: Sched, a: Step) {
    a.Timer? || a.Yields? || a.Sleeps? || a.Exits? || (a.Waits? && WaitPass(s, a.pid).1.Waiting?)
  }

  /** `proc_init` */
  const BOOTED := Sched(seq(64, i => if i == 0 then NOBODY.(state := Running) else NOBODY), 0, 0, 1, 100, 0, KERNEL_DIR)
}
