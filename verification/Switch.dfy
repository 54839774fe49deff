/**
 `context_switch` of proc/switch.S: one processor and one memory give every process its own
 registers and stack.  Memory is counted in words of 4 bytes; the kernel stacks are separate.
 */
module Switch {

  /** The registers a call keeps, and where execution goes on. */
  datatype Cpu = Cpu(ebp: nat, ebx: nat, esi: nat, edi: nat, eip: nat)

  /** The one machine: `saved` holds the `esp` field of every slot, `cur` is `current_proc`. */
  datatype State = State(mem: seq<nat>, cpu: Cpu, esp: nat, saved: seq<nat>, cur: nat)

  datatype Stack = Stack(lo: nat, hi: nat)

  ghost predicate Apart(ss: seq<Stack>, size: nat) {
    && (forall p :: 0 <= p < |ss| ==> ss[p].lo + 5 <= ss[p].hi <= size)
    && (forall p, q :: 0 <= p < |ss| && 0 <= q < |ss| && p != q ==> ss[p].hi <= ss[q].lo || ss[q].hi <= ss[p].lo)
  }

  // ---- the machine

  function PushWord(m: State, v: nat): (r: State)
    requires 0 < m.esp <= |m.mem|
    ensures |r.mem| == |m.mem|
  {
    m.(mem := m.mem[m.esp - 1 := v], esp := m.esp - 1)
  }

  /** `context_switch(old_esp, new_esp)` with the return address on top of its two arguments. */
  function ContextSwitched(m: State): (r: State)
    requires 4 <= m.esp && m.esp + 2 < |m.mem| && m.mem[m.esp + 1] < |m.saved| && m.mem[m.esp + 2] + 5 <= |m.mem|
    ensures |r.mem| == |m.mem| && |r.saved| == |m.saved|
  {
    var mem := m.mem[..m.esp - 4] + [m.cpu.edi, m.cpu.esi, m.cpu.ebx, m.cpu.ebp] + m.mem[m.esp..];
    var s := m.mem[m.esp + 2];
    State(mem, Cpu(mem[s + 3], mem[s + 2], mem[s + 1], mem[s], mem[s + 4]), s + 5,
          m.saved[m.mem[m.esp + 1] := m.esp - 4], m.cur)
  }

  /** The call in `scheduler_tick`: `current_proc = next; context_switch(&prev->esp, next->esp)`, returning to ret. */
  function SwitchTo(m: State, next: nat, ret: nat): State
    requires 7 <= m.esp <= |m.mem| && m.cur < |m.saved| && next < |m.saved| && m.saved[next] + 5 <= |m.mem|
  {
    ContextSwitched(PushWord(PushWord(PushWord(m.(cur := next), m.saved[next]), m.cur), ret))
  }

  class Machine {
    var ebp: nat
    var ebx: nat
    var esi: nat
    var edi: nat
    var eip: nat
    var esp: nat
    var saved: seq<nat>
    var cur: nat
    const mem: array<nat>

    constructor (size: nat, slots: nat)
      ensures fresh(mem) && mem.Length == size && |saved| == slots && esp == size && cur == 0
    {
      mem := new nat[size];
      ebp, ebx, esi, edi, eip, esp, cur := 0, 0, 0, 0, 0, size, 0;
      saved := seq(slots, _ => 0);
    }

    function View(): State
      reads this, mem
    {
      State(mem[..], Cpu(ebp, ebx, esi, edi, eip), esp, saved, cur)
    }

    method Push(v: nat)
      requires 0 < esp <= mem.Length
      modifies this`esp, mem
      ensures esp == old(esp) - 1 && mem[..] == old(mem[..])[esp := v]
    {
      esp := esp - 1;
      mem[esp] := v;
    }

    method Pop() returns (v: nat)
      requires esp < mem.Length
      modifies this`esp
      ensures v == mem[old(esp)] && esp == old(esp) + 1
    {
      v := mem[esp];
      esp := esp + 1;
    }

    method SaveRegisters()
      requires 4 <= esp <= mem.Length
      modifies this`esp, mem
      ensures esp == old(esp) - 4
      ensures mem[..] == old(mem[..esp - 4] + [edi, esi, ebx, ebp] + mem[esp..])
    {
      Push(ebp);
      Push(ebx);
      Push(esi);
      Push(edi);
    }

    method RestoreRegisters()
      requires esp + 4 < mem.Length
      modifies this`esp, this`edi, this`esi, this`ebx, this`ebp, this`eip
      ensures esp == old(esp) + 5
      ensures edi == mem[old(esp)] && esi == mem[old(esp) + 1] && ebx == mem[old(esp) + 2]
      ensures ebp == mem[old(esp) + 3] && eip == mem[old(esp) + 4]
    {
      edi := Pop();
      esi := Pop();
      ebx := Pop();
      ebp := Pop();
      eip := Pop();
    }

    /** The thirteen instructions. */
    method ContextSwitch()
      requires 4 <= esp && esp + 2 < mem.Length && mem[esp + 1] < |saved| && mem[esp + 2] + 5 <= mem.Length
      modifies this, mem
      ensures View() == ContextSwitched(old(View()))
    {
      var eax := mem[esp + 1];
      var ecx := mem[esp + 2];
      SaveRegisters();
      ghost var now := mem[..];
      saved := saved[eax := esp];
      esp := ecx;
      RestoreRegisters();
      assert mem[..] == now;
      assert edi == now[ecx] && esi == now[ecx + 1] && ebx == now[ecx + 2] && ebp == now[ecx + 3]
        && eip == now[ecx + 4];
    }

    method Call(next: nat, ret: nat)
      requires 7 <= esp <= mem.Length && cur < |saved| && next < |saved| && saved[next] + 5 <= mem.Length
      modifies this, mem
      ensures View() == SwitchTo(old(View()), next, ret)
    {
      hide ContextSwitched;
      var prev := cur;
      cur := next;
      ghost var m := View();
      Push(saved[next]);
      Push(prev);
      Push(ret);
      assert View() == PushWord(PushWord(PushWord(m, m.saved[next]), prev), ret);
      ContextSwitch();
    }
  }

  // ---- what a process sees

  /** A process of its own: its registers and what is on its stack, top first. */
  datatype Thread = Thread(cpu: Cpu, live: seq<nat>)
  datatype World = World(threads: map<nat, Thread>, cur: nat)

  /**
   Work: the running process computes, calls and returns as it likes on its own stack.
   Call: `scheduler_tick` switches.  Create: `proc_create_kernel` fills a slot.
   */
  datatype Event = Work(cpu: Cpu, stack: seq<nat>, esp: nat) | Call(next: nat, ret: nat) | Create(slot: nat, entry: nat)

  ghost predicate Legal(ss: seq<Stack>, w: World, e: Event) {
    && w.cur < |ss| && w.cur in w.threads
    && var s := ss[w.cur];
    match e
    case Work(_, stack, esp) => s.lo <= esp <= s.hi && s.lo + |stack| == s.hi
    case Call(next, _) =>
      && next in w.threads && next != w.cur && next < |ss| && s.lo + |w.threads[w.cur].live| + 7 <= s.hi
      && |w.threads[next].live| + 5 <= ss[next].hi
    case Create(slot, _) => slot < |ss| && slot != w.cur
  }

  /** Every process on a processor of its own: a switch only pushes the call's two arguments. */
  ghost function Step(ss: seq<Stack>, w: World, e: Event): World
    requires Legal(ss, w, e)
  {
    match e
    case Work(cpu, stack, esp) =>
      w.(threads := w.threads[w.cur := Thread(cpu, stack[esp - ss[w.cur].lo..])])
    case Call(next, ret) =>
      var t := w.threads[w.cur];
      var to := ss[next].hi - |w.threads[next].live| - 5;
      World(w.threads[w.cur := Thread(t.cpu.(eip := ret), [w.cur, to] + t.live)], next)
    case Create(slot, entry) =>
      w.(threads := w.threads[slot := Thread(Cpu(0, 0, 0, 0, entry), [])])
  }

  // ---- the machine under the same events

  /** Five words on top of a suspended stack. */
  function Frame(c: Cpu): seq<nat> { [c.edi, c.esi, c.ebx, c.ebp, c.eip] }

  ghost predicate Suspended(mem: seq<nat>, st: Stack, s: nat, t: Thread) {
    st.lo <= s && s + 5 <= st.hi <= |mem| && mem[s..st.hi] == Frame(t.cpu) + t.live
  }

  ghost predicate Running(m: State, st: Stack, t: Thread) {
    st.lo <= m.esp <= st.hi <= |m.mem| && m.cpu == t.cpu && m.mem[m.esp..st.hi] == t.live
  }

  ghost predicate Refines(ss: seq<Stack>, m: State, w: World) {
    && Apart(ss, |m.mem|) && |m.saved| == |ss| && m.cur == w.cur && w.cur in w.threads && w.cur < |ss|
    && (forall p :: p in w.threads ==> p < |ss|)
    && Running(m, ss[w.cur], w.threads[w.cur])
    && (forall p :: p in w.threads && p != w.cur ==> Suspended(m.mem, ss[p], m.saved[p], w.threads[p]))
  }

  ghost function Happens(ss: seq<Stack>, m: State, e: Event): State
    requires Apart(ss, |m.mem|) && |m.saved| == |ss| && m.cur < |ss|
    requires e.Work? ==> ss[m.cur].lo + |e.stack| == ss[m.cur].hi
    requires e.Call? ==> 7 <= m.esp <= |m.mem| && e.next < |ss| && m.saved[e.next] + 5 <= |m.mem|
    requires e.Create? ==> e.slot < |ss|
  {
    match e
    case Work(cpu, stack, esp) =>
      m.(mem := m.mem[..ss[m.cur].lo] + stack + m.mem[ss[m.cur].hi..], cpu := cpu, esp := esp)
    case Call(next, ret) => SwitchTo(m, next, ret)
    case Create(slot, entry) =>
      var hi := ss[slot].hi;
      m.(mem := m.mem[..hi - 5] + [0, 0, 0, 0, entry] + m.mem[hi..], saved := m.saved[slot := hi - 5])
  }

  /** A suspended process is not disturbed by writes outside its stack. */
  lemma OthersStaySuspended(ss: seq<Stack>, a: seq<nat>, b: seq<nat>, q: nat, p: nat, s: nat, t: Thread)
    requires Apart(ss, |a|) && |b| == |a| && q < |ss| && p < |ss| && p != q && Suspended(a, ss[p], s, t)
    requires forall i :: 0 <= i < |a| && !(ss[q].lo <= i < ss[q].hi) ==> b[i] == a[i]
    ensures Suspended(b, ss[p], s, t)
  {
    assert b[s..ss[p].hi] == a[s..ss[p].hi];
  }

  lemma AllStaySuspended(ss: seq<Stack>, m: State, w: World, b: seq<nat>, q: nat)
    requires Refines(ss, m, w) && |b| == |m.mem| && q < |ss|
    requires forall i :: 0 <= i < |b| && !(ss[q].lo <= i < ss[q].hi) ==> b[i] == m.mem[i]
    ensures forall p :: p in w.threads && p != w.cur && p != q ==> Suspended(b, ss[p], m.saved[p], w.threads[p])
  {
    hide Frame;
    forall p | p in w.threads && p != w.cur && p != q
      ensures Suspended(b, ss[p], m.saved[p], w.threads[p])
    {
      OthersStaySuspended(ss, m.mem, b, q, p, m.saved[p], w.threads[p]);
    }
  }

  lemma SwitchMemory(m: State, next: nat, ret: nat)
    requires 7 <= m.esp <= |m.mem| && m.cur < |m.saved| && next < |m.saved| && m.saved[next] + 5 <= |m.mem|
    ensures SwitchTo(m, next, ret).mem ==
      m.mem[..m.esp - 7] + (Frame(m.cpu.(eip := ret)) + [m.cur, m.saved[next]]) + m.mem[m.esp..]
  {
    var c := PushWord(PushWord(PushWord(m.(cur := next), m.saved[next]), m.cur), ret);
    assert c.mem == m.mem[..m.esp - 3] + [ret, m.cur, m.saved[next]] + m.mem[m.esp..];
  }

  /** The words a switch leaves on the stack of the process it suspends. */
  lemma SwitchPushes(m: State, next: nat, ret: nat, hi: nat)
    requires 7 <= m.esp <= hi <= |m.mem| && m.cur < |m.saved| && next < |m.saved| && m.saved[next] + 5 <= |m.mem|
    ensures var r, s := SwitchTo(m, next, ret).mem, m.esp - 7;
      && |r| == |m.mem| && (forall i :: 0 <= i < |r| && !(s <= i < m.esp) ==> r[i] == m.mem[i])
      && r[s..hi] == Frame(m.cpu.(eip := ret)) + ([m.cur, m.saved[next]] + m.mem[m.esp..hi])
  {
    hide SwitchTo;
    SwitchMemory(m, next, ret);
  }

  /** The registers and stack pointer a switch takes from a suspended process. */
  lemma SwitchPops(m: State, next: nat, ret: nat)
    requires 7 <= m.esp <= |m.mem| && m.cur < |m.saved| && next < |m.saved| && m.saved[next] + 5 <= |m.mem|
    requires next != m.cur
    ensures var r, s := SwitchTo(m, next, ret), m.saved[next];
      && r.esp == s + 5 && r.cur == next && r.saved == m.saved[m.cur := m.esp - 7]
      && Frame(r.cpu) == r.mem[s..s + 5]
  {
  }

  lemma FrameUnique(a: Cpu, b: Cpu, f: seq<nat>, live: seq<nat>)
    requires f == Frame(b) + live && Frame(a) == f[..5]
    ensures a == b && f[5..] == live
  {
    assert Frame(a)[0] == Frame(b)[0] && Frame(a)[1] == Frame(b)[1] && Frame(a)[2] == Frame(b)[2];
    assert Frame(a)[3] == Frame(b)[3] && Frame(a)[4] == Frame(b)[4];
  }

  lemma CallSuspends(ss: seq<Stack>, m: State, w: World, next: nat, ret: nat)
    requires Refines(ss, m, w) && Legal(ss, w, Event.Call(next, ret))
    ensures 7 <= m.esp <= |m.mem| && m.saved[next] + 5 <= |m.mem|
    ensures m.saved[next] == ss[next].hi - |w.threads[next].live| - 5
    ensures var r := SwitchTo(m, next, ret).mem;
      && |r| == |m.mem|
      && Suspended(r, ss[w.cur], m.esp - 7, Step(ss, w, Event.Call(next, ret)).threads[w.cur])
      && forall p :: p in w.threads && p != w.cur ==> Suspended(r, ss[p], m.saved[p], w.threads[p])
  {
    hide SwitchTo;
    assert Suspended(m.mem, ss[next], m.saved[next], w.threads[next]);
    assert |m.mem[m.saved[next]..ss[next].hi]| == 5 + |w.threads[next].live|;
    SwitchPushes(m, next, ret, ss[w.cur].hi);
    AllStaySuspended(ss, m, w, SwitchTo(m, next, ret).mem, w.cur);
  }

  /** Five pops of a suspended process bring it back. */
  lemma PopsRun(r: State, st: Stack, s: nat, t: Thread)
    requires Suspended(r.mem, st, s, t) && r.esp == s + 5 && Frame(r.cpu) == r.mem[s..s + 5]
    ensures Running(r, st, t)
  {
    var f := r.mem[s..st.hi];
    assert f[..5] == r.mem[s..s + 5] && f[5..] == r.mem[s + 5..st.hi];
    FrameUnique(r.cpu, t.cpu, f, t.live);
  }

  lemma CallRefines(ss: seq<Stack>, m: State, w: World, next: nat, ret: nat)
    requires Refines(ss, m, w) && Legal(ss, w, Event.Call(next, ret))
    ensures 7 <= m.esp <= |m.mem| && m.saved[next] + 5 <= |m.mem|
    ensures Refines(ss, SwitchTo(m, next, ret), Step(ss, w, Event.Call(next, ret)))
  {
    hide SwitchTo, Frame;
    CallSuspends(ss, m, w, next, ret);
    SwitchPops(m, next, ret);
    PopsRun(SwitchTo(m, next, ret), ss[next], m.saved[next], w.threads[next]);
  }

  lemma WorkRefines(ss: seq<Stack>, m: State, w: World, cpu: Cpu, stack: seq<nat>, esp: nat)
    requires Refines(ss, m, w) && Legal(ss, w, Event.Work(cpu, stack, esp))
    ensures Refines(ss, Happens(ss, m, Event.Work(cpu, stack, esp)), Step(ss, w, Event.Work(cpu, stack, esp)))
  {
    hide Frame;
    var r, st := Happens(ss, m, Event.Work(cpu, stack, esp)), ss[w.cur];
    AllStaySuspended(ss, m, w, r.mem, w.cur);
    assert r.mem[esp..st.hi] == stack[esp - st.lo..];
  }

  lemma EntryFrame(mem: seq<nat>, st: Stack, entry: nat)
    requires st.lo + 5 <= st.hi <= |mem|
    ensures Suspended(mem[..st.hi - 5] + [0, 0, 0, 0, entry] + mem[st.hi..], st, st.hi - 5,
                      Thread(Cpu(0, 0, 0, 0, entry), []))
  {
  }

  lemma CreateRefines(ss: seq<Stack>, m: State, w: World, slot: nat, entry: nat)
    requires Refines(ss, m, w) && Legal(ss, w, Event.Create(slot, entry))
    ensures Refines(ss, Happens(ss, m, Event.Create(slot, entry)), Step(ss, w, Event.Create(slot, entry)))
  {
    hide Frame;
    var r, st := Happens(ss, m, Event.Create(slot, entry)), ss[slot];
    EntryFrame(m.mem, st, entry);
    assert r.mem[m.esp..ss[w.cur].hi] == m.mem[m.esp..ss[w.cur].hi];
    AllStaySuspended(ss, m, w, r.mem, slot);
  }

  /** The machine after an event: every process sees what it would see on a processor of its own. */
  ghost function After(ss: seq<Stack>, m: State, w: World, e: Event): (r: State)
    requires Refines(ss, m, w) && Legal(ss, w, e)
    ensures Refines(ss, r, Step(ss, w, e))
    ensures |r.mem| == |m.mem|
  {
    hide SwitchTo, Step;
    match e
    case Call(next, ret) => CallRefines(ss, m, w, next, ret); Happens(ss, m, e)
    case Work(cpu, stack, esp) => WorkRefines(ss, m, w, cpu, stack, esp); Happens(ss, m, e)
    case Create(slot, entry) => CreateRefines(ss, m, w, slot, entry); Happens(ss, m, e)
  }

  // ---- whole runs

  ghost predicate LegalRun(ss: seq<Stack>, w: World, es: seq<Event>)
    decreases |es|
  {
    es != [] ==> Legal(ss, w, es[0]) && LegalRun(ss, Step(ss, w, es[0]), es[1..])
  }

  ghost function Steps(ss: seq<Stack>, w: World, es: seq<Event>): World
    requires LegalRun(ss, w, es)
    decreases |es|
  {
    if es == [] then w else Steps(ss, Step(ss, w, es[0]), es[1..])
  }

  /** The machine after a run. */
  ghost function RunOf(ss: seq<Stack>, m: State, w: World, es: seq<Event>): (r: State)
    requires Refines(ss, m, w) && LegalRun(ss, w, es)
    ensures |r.mem| == |m.mem|
    decreases |es|
  {
    if es == [] then m else RunOf(ss, After(ss, m, w, es[0]), Step(ss, w, es[0]), es[1..])
  }

  /** The one machine refines the processes on processors of their own, over every run. */
  lemma {:induction false} RunRefines(ss: seq<Stack>, m: State, w: World, es: seq<Event>)
    requires Refines(ss, m, w) && LegalRun(ss, w, es)
    ensures Refines(ss, RunOf(ss, m, w, es), Steps(ss, w, es))
    decreases |es|
  {
    hide Refines, Legal, Step, After;
    if es != [] {
      RunRefines(ss, After(ss, m, w, es[0]), Step(ss, w, es[0]), es[1..]);
    }
  }

  predicate Touches(e: Event, p: nat) {
    match e
    case Work(_, _, _) => false
    case Call(next, _) => next == p
    case Create(slot, _) => slot == p
  }

  ghost predicate Untouched(es: seq<Event>, p: nat) { forall i :: 0 <= i < |es| ==> !Touches(es[i], p) }

  /** A suspended process, when it is switched to again. */
  lemma {:induction false} Resumes(ss: seq<Stack>, m: State, w: World, p: nat, es: seq<Event>, back: nat)
    requires Refines(ss, m, w) && p in w.threads && p != w.cur
    requires LegalRun(ss, w, es + [Event.Call(p, back)]) && Untouched(es, p)
    ensures Running(RunOf(ss, m, w, es + [Event.Call(p, back)]), ss[p], w.threads[p])
    decreases |es|
  {
    hide Refines, Legal, Running, After, Step;
    var all := es + [Event.Call(p, back)];
    var m1, w1 := After(ss, m, w, all[0]), Step(ss, w, all[0]);
    if es == [] {
      assert all[1..] == [];
      assert RunOf(ss, m1, w1, all[1..]) == m1;
      StepCalls(ss, w, p, back);
      RefinesRunning(ss, m1, w1);
    } else {
      assert all[0] == es[0] && all[1..] == es[1..] + [Event.Call(p, back)];
      StepKeeps(ss, w, es[0], p);
      Resumes(ss, m1, w1, p, es[1..], back);
    }
  }

  lemma RefinesRunning(ss: seq<Stack>, m: State, w: World)
    requires Refines(ss, m, w)
    ensures w.cur in w.threads && w.cur < |ss| && Running(m, ss[w.cur], w.threads[w.cur])
  {
  }

  lemma StepCalls(ss: seq<Stack>, w: World, p: nat, back: nat)
    requires Legal(ss, w, Event.Call(p, back))
    ensures var r := Step(ss, w, Event.Call(p, back)); r.cur == p && p in r.threads && r.threads[p] == w.threads[p]
  {
  }

  lemma StepKeeps(ss: seq<Stack>, w: World, e: Event, p: nat)
    requires Legal(ss, w, e) && p in w.threads && p != w.cur && !Touches(e, p)
    ensures var r := Step(ss, w, e); p in r.threads && r.threads[p] == w.threads[p] && r.cur != p
  {
  }

  /**
   Over every run: a process that is switched away from and later resumed sees the registers,
   stack contents and return address it was suspended with.
   */
  lemma ResumesAsSuspended(ss: seq<Stack>, m: State, w: World, next: nat, ret: nat, es: seq<Event>, back: nat)
    requires Refines(ss, m, w) && LegalRun(ss, w, [Event.Call(next, ret)] + (es + [Event.Call(w.cur, back)]))
    requires Untouched(es, w.cur)
    ensures var r := RunOf(ss, m, w, [Event.Call(next, ret)] + (es + [Event.Call(w.cur, back)]));
      && r.cpu == m.cpu.(eip := ret) && r.esp == m.esp - 2
      && 0 <= m.esp <= ss[w.cur].hi <= |r.mem| && |r.mem| == |m.mem|
      && r.mem[m.esp..ss[w.cur].hi] == m.mem[m.esp..ss[w.cur].hi]
  {
    hide Refines, After;
    var rest := es + [Event.Call(w.cur, back)];
    var e := Event.Call(next, ret);
    var all := [e] + rest;
    assert all[0] == e && all[1..] == rest;
    var w1 := Step(ss, w, e);
    RefinesRunning(ss, m, w);
    Resumes(ss, After(ss, m, w, e), w1, w.cur, es, back);
    SameAbove(m, RunOf(ss, After(ss, m, w, e), w1, rest), ss[w.cur], w.threads[w.cur], ret, w1.threads[w.cur]);
  }

  lemma SameAbove(m: State, r: State, st: Stack, t: Thread, ret: nat, u: Thread)
    requires Running(m, st, t) && Running(r, st, u) && |r.mem| == |m.mem|
    requires u.cpu == t.cpu.(eip := ret) && |u.live| == |t.live| + 2 && u.live[2..] == t.live
    ensures r.cpu == m.cpu.(eip := ret) && r.esp == m.esp - 2 && r.mem[m.esp..st.hi] == m.mem[m.esp..st.hi]
  {
    assert |r.mem[r.esp..st.hi]| == |m.mem[m.esp..st.hi]| + 2;
    assert r.mem[m.esp..st.hi] == r.mem[r.esp..st.hi][2..];
  }

  /** A new process starts at its entry point with an empty stack and those registers zero. */
  lemma StartsAtEntry(ss: seq<Stack>, m: State, w: World, slot: nat, entry: nat, es: seq<Event>, back: nat)
    requires Refines(ss, m, w) && LegalRun(ss, w, [Event.Create(slot, entry)] + (es + [Event.Call(slot, back)]))
    requires Untouched(es, slot)
    ensures var r := RunOf(ss, m, w, [Event.Create(slot, entry)] + (es + [Event.Call(slot, back)]));
      slot < |ss| && r.cpu == Cpu(0, 0, 0, 0, entry) && r.esp == ss[slot].hi
  {
    hide Refines, After;
    var rest := es + [Event.Call(slot, back)];
    var e := Event.Create(slot, entry);
    var all := [e] + rest;
    assert all[0] == e && all[1..] == rest;
    Resumes(ss, After(ss, m, w, e), Step(ss, w, e), slot, es, back);
    var r := RunOf(ss, After(ss, m, w, e), Step(ss, w, e), rest);
    assert Step(ss, w, e).threads[slot] == Thread(Cpu(0, 0, 0, 0, entry), []);
    assert |r.mem[r.esp..ss[slot].hi]| == 0;
    assert RunOf(ss, m, w, all) == r;
  }
}
