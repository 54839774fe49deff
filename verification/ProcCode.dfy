/**
 proc/proc.c as it runs: a table updated in place by scanning loops.  Every method is proved
 equal to its operation on the table's value.
 */
module ProcCode {
  import opened Bits
  import opened Proc

  class Scheduler {
    const table: array<Process>
    var current: nat
    var ticks: word
    var nextKernel: nat
    var nextFork: nat
    /** `tss.esp0` and CR3 */
    var esp0: nat
    var cr3: nat

    ghost predicate Ok()
      reads this
    {
      table.Length == 64 && current < 64
    }

    ghost function View(): Sched
      requires Ok()
      reads this, table
    {
      Sched(table[..], current, ticks, nextKernel, nextFork, esp0, cr3)
    }

    /** `proc_init` on the zeroed table */
    constructor ()
      ensures Ok() && View() == BOOTED
    {
      table := new Process[64](i => if i == 0 then NOBODY.(state := Running) else NOBODY);
      current, ticks, nextKernel, nextFork, esp0, cr3 := 0, 0, 1, 100, 0, KERNEL_DIR;
    }

    // ---- scans

    /** Finds the first unused slot and clears it; 64 when the table is full. */
    method AllocProc() returns (i: nat)
      requires Ok()
      modifies table
      ensures i == FirstUnused(old(table[..]), 0)
      ensures table[..] == if i < 64 then old(table[..])[i := NOBODY] else old(table[..])
    {
      i := 0;
      while i < MAX_PROCS
        invariant i <= 64 && table[..] == old(table[..])
        invariant FirstUnused(table[..], 0) == FirstUnused(table[..], i)
      {
        if table[i].state.Unused? {
          table[i] := NOBODY;
          return;
        }
        i := i + 1;
      }
    }

    method ProcGet(pid: int) returns (i: nat)
      requires Ok()
      ensures i == Find(table[..], pid, 0)
    {
      i := 0;
      while i < MAX_PROCS
        invariant i <= 64 && Find(table[..], pid, 0) == Find(table[..], pid, i)
      {
        if table[i].pid == pid && !table[i].state.Unused? { return; }
        i := i + 1;
      }
    }

    // ---- the scheduler

    /** Sleepers whose time has come become ready. */
    method WakeSleepers()
      requires Ok()
      modifies table
      ensures table[..] == Woken(old(table[..]), ticks)
    {
      var i := 0;
      while i < MAX_PROCS
        invariant i <= 64
        invariant forall j :: 0 <= j < 64 ==> table[j] == if j < i then Wake(old(table[j]), ticks) else old(table[j])
      {
        if table[i].state.Sleeping? && ticks >= table[i].sleepUntil {
          table[i] := table[i].(state := Ready);
        }
        i := i + 1;
      }
      assert forall j :: 0 <= j < 64 ==> table[..][j] == Woken(old(table[..]), ticks)[j];
    }

    /** The slot of the next ready process, or 64. */
    method FindNext() returns (next: nat)
      requires Ok()
      ensures var i := NextReady(table[..], current, 1); next == if i < 65 then Ahead(current, i) else 64
    {
      hide NextReady, Ahead;
      var i := 1;
      while i <= MAX_PROCS
        invariant 1 <= i <= 65 && NextReady(table[..], current, 1) == NextReady(table[..], current, i)
      {
        var idx := (current + i) % MAX_PROCS;
        AheadIs(current, i);
        NextReadyStep(table[..], current, i);
        if table[idx].state.Ready? { return idx; }
        i := i + 1;
      }
      next := 64;
    }

    method SchedulerTick()
      requires Ok()
      modifies `ticks, `current, `esp0, `cr3, table
      ensures Ok() && View() == Tick(old(View()))
    {
      ghost var s := View();
      ticks := (ticks + 1) % 0x1_0000_0000;
      WakeSleepers();
      ghost var s1 := View();
      assert s1 == s.(ticks := NextTick(s.ticks), procs := Woken(s.procs, NextTick(s.ticks)));
      var next := FindNext();
      TickIs(s, next);
      hide Tick, Woken, NextReady, NextTick, Ahead;
      if next == 64 || next == current { return; }
      SwitchTo(next);
    }

    /** The processor, its kernel stack and its address space pass to process `next`. */
    method SwitchTo(next: nat)
      requires Ok() && next < 64 && next != current
      modifies `current, `esp0, `cr3, table
      ensures Ok() && View() == Dispatch(old(View()), next)
    {
      var prev := current;
      if table[prev].state.Running? { table[prev] := table[prev].(state := Ready); }
      table[next] := table[next].(state := Running);
      current := next;
      esp0 := table[next].stackTop;
      cr3 := table[next].pageDir;
    }

    method ProcYield()
      requires Ok()
      modifies `ticks, `current, `esp0, `cr3, table
      ensures Ok() && View() == Yield(old(View()))
    {
      if table[current].state.Running? { table[current] := table[current].(state := Ready); }
      hide Tick;
      SchedulerTick();
    }

    method ProcSleep(ms: word)
      requires Ok()
      modifies `ticks, `current, `esp0, `cr3, table
      ensures Ok() && View() == Sleep(old(View()), ms)
    {
      hide Yield;
      table[current] := table[current].(sleepUntil := (ticks + (ms / 10 + 1)) % 0x1_0000_0000);
      table[current] := table[current].(state := Sleeping);
      assert table[..] == old(table[..])[current := table[current]];
      ProcYield();
    }

    // ---- creation

    method ProcCreateKernel() returns (i: nat)
      requires Ok() && !table[current].state.Unused?
      modifies `nextKernel, table
      ensures Ok() && CreateKernel(old(View())) == (View(), i)
    {
      hide FirstUnused;
      i := AllocProc();
      if i < 64 {
        FillKernel(i);
        assert table[..] == old(table[..])[i := table[i]];
      }
    }

    /** The fields of a new kernel process, one by one. */
    method FillKernel(i: nat)
      requires Ok() && i < 64 && i != current && table[i] == NOBODY
      modifies `nextKernel, table
      ensures Ok() && nextKernel == old(nextKernel) + 1
      ensures table[..] ==
        old(table[..])[i := Process(old(nextKernel), old(table[current].pid), Ready, 0, 0, KERNEL_DIR, i + 1, 0)]
    {
      table[i] := table[i].(pid := nextKernel);
      nextKernel := nextKernel + 1;
      table[i] := table[i].(ppid := table[current].pid);
      table[i] := table[i].(state := Ready);
      table[i] := table[i].(pageDir := KERNEL_DIR);
      table[i] := table[i].(stackTop := i + 1);
    }

    method ProcFork(dir: nat) returns (i: nat)
      requires Ok() && !table[current].state.Unused?
      modifies `nextFork, table
      ensures Ok() && Fork(old(View()), dir) == (View(), i)
    {
      hide FirstUnused;
      i := AllocProc();
      if i < 64 {
        FillChild(i, dir);
        assert table[..] == old(table[..])[i := table[i]];
      }
    }

    /** A copy of the caller, with its own identity, directory and stack. */
    method FillChild(i: nat, dir: nat)
      requires Ok() && i < 64 && i != current
      modifies `nextFork, table
      ensures Ok() && nextFork == old(nextFork) + 1
      ensures table[..] == old(table[..])[i := old(table[current]).(
        pid := old(nextFork), ppid := old(table[current].pid), state := Ready, pageDir := dir, stackTop := i + 1)]
    {
      table[i] := table[current];
      table[i] := table[i].(pid := nextFork);
      nextFork := nextFork + 1;
      table[i] := table[i].(ppid := table[current].pid);
      table[i] := table[i].(state := Ready);
      table[i] := table[i].(pageDir := dir);
      table[i] := table[i].(stackTop := i + 1);
    }

    // ---- exit, wait and kill

    /** `destroyed` is the directory handed to `vmm_destroy_directory`, or the kernel's for none. */
    method ProcExit(code: int) returns (destroyed: nat)
      requires Ok()
      modifies `ticks, `current, `esp0, `cr3, table
      ensures Ok() && View() == Exit(old(View()), code)
      ensures destroyed == old(table[current].pageDir)
    {
      hide Yield, Find;
      table[current] := table[current].(state := Zombie);
      table[current] := table[current].(exitCode := code);
      assert table[..] == old(table[..])[current := table[current]];
      ghost var z := table[..];
      var parent := ProcGet(table[current].ppid);
      if parent < 64 && table[parent].state.Blocked? {
        table[parent] := table[parent].(state := Ready);
      }
      ghost var t := WakeParent(z, z[current].ppid);
      assert table[..] == t;
      destroyed := KERNEL_DIR;
      if table[current].pageDir != KERNEL_DIR {
        destroyed := table[current].pageDir;
        table[current] := table[current].(pageDir := KERNEL_DIR);
      }
      assert table[..] == t[current := t[current].(pageDir := KERNEL_DIR)];
      ProcYield();
    }

    method FindAwaited(pid: int) returns (i: nat)
      requires Ok()
      ensures i == FirstAwaited(table[..], table[current].pid, pid, 0)
    {
      i := 0;
      while i < MAX_PROCS
        invariant i <= 64
        invariant FirstAwaited(table[..], table[current].pid, pid, 0) ==
          FirstAwaited(table[..], table[current].pid, pid, i)
      {
        var p := table[i];
        if p.state.Zombie? && p.ppid == table[current].pid && !(pid != -1 && p.pid != pid) { return; }
        i := i + 1;
      }
    }

    method HasChild() returns (has: bool)
      requires Ok()
      ensures has <==> FirstChild(table[..], table[current].pid, 0) < 64
    {
      var i := 0;
      while i < MAX_PROCS
        invariant i <= 64
        invariant FirstChild(table[..], table[current].pid, 0) == FirstChild(table[..], table[current].pid, i)
      {
        if table[i].ppid == table[current].pid && !table[i].state.Unused? { return true; }
        i := i + 1;
      }
      has := false;
    }

    /** One turn of the loop in `proc_wait`. */
    method WaitOnce(pid: int) returns (r: Outcome)
      requires Ok()
      modifies `ticks, `current, `esp0, `cr3, table
      ensures Ok() && WaitPass(old(View()), pid) == (View(), r)
    {
      hide Yield, FirstAwaited, FirstChild;
      var i := FindAwaited(pid);
      if i < 64 {
        r := Reaped(table[i].pid, table[i].exitCode);
        table[i] := table[i].(state := Unused);
        return;
      }
      var has := HasChild();
      if !has { return NoChild; }
      table[current] := table[current].(state := Blocked);
      ProcYield();
      r := Waiting;
    }

    method ProcKill(pid: int, sig: nat)
      requires Ok()
      modifies table
      ensures Ok() && View() == Kill(old(View()), pid, sig)
    {
      hide Find, Marked;
      var i := ProcGet(pid);
      if i == 64 { return; }
      table[i] := table[i].(pending := Marked(table[i].pending, sig));
      if table[i].state.Blocked? || table[i].state.Sleeping? {
        table[i] := table[i].(state := Ready);
      }
    }
  }

  lemma AheadIs(cur: Slot, i: nat)
    requires i <= 64
    ensures (cur + i) % 64 == Ahead(cur, i)
  {
  }

  lemma NextReadyStep(t: Table, cur: Slot, i: nat)
    requires 1 <= i <= 64
    ensures NextReady(t, cur, i) == if t[Ahead(cur, i)].state.Ready? then i else NextReady(t, cur, i + 1)
  {
  }

  lemma TickIs(s: Sched, next: nat)
    requires var i := NextReady(Woken(s.procs, NextTick(s.ticks)), s.cur, 1); next == if i < 65 then Ahead(s.cur, i)
      else 64
    ensures var s1 := s.(ticks := NextTick(s.ticks), procs := Woken(s.procs, NextTick(s.ticks)));
      Tick(s) == if next == 64 || next == s.cur then s1 else Dispatch(s1, next)
  {
    hide Woken, NextTick;
  }
}
