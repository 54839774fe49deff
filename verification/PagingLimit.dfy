/**
 How far the heap can grow: the frames a growth costs, the condition under which a page can be
 added at all, and the bound that follows for a freshly booted kernel.
 */
module PagingLimit {
  import opened Bits
  import opened Frames
  import opened Paging
  import opened PagingLaws
  import opened PagingClone
  import opened PagingRights
  import opened PagingAccess
  import opened PagingHeap

  // ---- one page

  /**
   A heap page can be added if and only if it has a table or the active directory reaches the
   frame that will become its table: the lowest one left once the page itself is allocated.
   */
  lemma HeapPageGoesThrough(s: Phys, dirs: set<nat>, a: nat, hi: nat)
    requires Inv(s, dirs) && Reachable(s, dirs, a) && FIRST_HEAP_PAGE <= hi < ALL_PAGES
    requires Room(s.pmm, if NeedsTable(s, s.kernelDir, hi) then 2 else 1)
    ensures Backed(s, s.kernelDir, hi)
    ensures TryHeapPage(s, a, hi) ==
      if NeedsTable(s, s.kernelDir, hi) && !Direct(s.mem, a, Alloc(Alloc(s.pmm).0).1) then Fault
        else Done(HeapPage(s, hi))
  {
    HeapFrameTaken(s, dirs, hi);
    TakenFrameInv(s, dirs);
    var (m, f) := Alloc(s.pmm);
    MapGoesThrough(s.(pmm := m), dirs, a, s.kernelDir, hi, 4096 * f, PRESENT + WRITE);
    assert Direct(s.mem, a, s.kernelDir);
    assert !NeedsTable(s, s.kernelDir, hi) ==> Direct(s.mem, a, Table(s, s.kernelDir, hi / 1024));
  }

  /** Adding a page keeps everything reachable when its table, if it needs one, can be low. */
  lemma HeapPageKeepsReachable(s: Phys, dirs: set<nat>, a: nat, hi: nat)
    requires Inv(s, dirs) && Reachable(s, dirs, a) && FIRST_HEAP_PAGE <= hi < ALL_PAGES
    requires Room(s.pmm, 1) && (NeedsTable(s, s.kernelDir, hi) ==> LowRoom(s.pmm, 2))
    ensures Room(s.pmm, if NeedsTable(s, s.kernelDir, hi) then 2 else 1)
    ensures Backed(s, s.kernelDir, hi) && Reachable(HeapPage(s, hi), dirs, a)
      && TryHeapPage(s, a, hi) == Done(HeapPage(s, hi))
  {
    AllocMeaning(s.pmm);
    AllocLow(s.pmm);
    CountSlope(s.pmm.bitmap, Low(s.pmm), s.pmm.total);
    TakenFrameInv(s, dirs);
    var (m, f) := Alloc(s.pmm);
    MapKeepsReachable(s.(pmm := m), dirs, a, s.kernelDir, hi, 4096 * f, PRESENT + WRITE);
  }

  // ---- the frames a growth costs

  /** Tables that growing from page `from` to page `to` may need: one for each slot begun on the way. */
  function NewTables(from: nat, to: nat): int { (to + 1023) / 1024 - (from + 1023) / 1024 }

  function FramesFor(from: nat, to: nat): int { to - from + NewTables(from, to) }

  /** The last page below `to` that begins a slot. */
  function LastBegun(to: nat): int { 1024 * ((to + 1023) / 1024 - 1) }

  /**
   The allocator can serve a growth from page `from` up to page `to`: enough frames in all, and
   enough of them low when the last new table is taken.
   */
  predicate Supply(m: Pmm, from: nat, to: nat) {
    from <= to < ALL_PAGES && m.used + FramesFor(from, to) <= m.total
    && (NewTables(from, to) > 0 ==>
      LastBegun(to) >= from && Count(m.bitmap, Low(m)) + FramesFor(from, LastBegun(to)) + 2 <= Low(m))
  }

  lemma NewTablesStep(from: nat, to: nat)
    requires from < to
    ensures NewTables(from, to) == NewTables(from + 1, to) + (if from % 1024 == 0 then 1 else 0)
    ensures NewTables(from + 1, to) >= 0 && FramesFor(from, from) == 0
  {
  }

  lemma LastBegunIs(from: nat, to: nat)
    requires from <= to && NewTables(from, to) > 0
    ensures from <= LastBegun(to) < to && LastBegun(to) % 1024 == 0 && NewTables(LastBegun(to) + 1, to) == 0
  {
    var q := (to + 1023) / 1024 - 1;
    assert (1024 * q + 1 + 1023) / 1024 == q + 1;
  }

  /** A page that follows a heap page in the same slot has a table. */
  lemma TableContinues(s: Phys, dirs: set<nat>, hi: nat)
    requires s.pmm.total <= MAX_FRAMES && HeapBacked(s, dirs, hi) && FIRST_HEAP_PAGE <= hi && hi % 1024 != 0
    ensures !NeedsTable(s, s.kernelDir, hi)
  {
    BitZero(0);
    assert (hi - 1) / 1024 == hi / 1024;
    assert Present(Pte(s.mem, s.kernelDir, hi - 1));
  }

  /** What the first page of a growth costs, and what the rest does. */
  lemma CostOfPage(hi: nat, to: nat)
    requires hi < to
    ensures FramesFor(hi, to) == FramesFor(hi + 1, to) + (if hi % 1024 == 0 then 2 else 1) && FramesFor(hi + 1, to) >= 0
    ensures hi % 1024 == 0 ==> NewTables(hi, to) > 0
    ensures NewTables(hi + 1, to) > 0 ==> (
      && NewTables(hi, to) > 0 && hi < LastBegun(to)
      && FramesFor(hi, LastBegun(to)) == FramesFor(hi + 1, LastBegun(to)) + (if hi % 1024 == 0 then 2 else 1)
      && FramesFor(hi + 1, LastBegun(to)) >= 0)
    ensures NewTables(hi, to) > 0 ==> hi <= LastBegun(to) && FramesFor(hi, LastBegun(to)) >= 0
  {
    NewTablesStep(hi, to);
    if NewTables(hi, to) > 0 {
      LastBegunIs(hi, to);
      if hi < LastBegun(to) { NewTablesStep(hi, LastBegun(to)); } else { NewTablesStep(hi, hi + 1); }
    }
    if NewTables(hi + 1, to) > 0 { LastBegunIs(hi + 1, to); }
  }

  /** Each page of a growth finds its frames, and leaves enough for the rest. */
  lemma SupplyLasts(s: Phys, dirs: set<nat>, hi: nat, to: nat)
    requires Inv(s, dirs) && HeapBacked(s, dirs, hi) && FIRST_HEAP_PAGE <= hi < to && Supply(s.pmm, hi, to)
    ensures Room(s.pmm, if NeedsTable(s, s.kernelDir, hi) then 2 else 1)
    ensures NeedsTable(s, s.kernelDir, hi) ==> LowRoom(s.pmm, 2)
    ensures Backed(s, s.kernelDir, hi) && Supply(HeapPage(s, hi).pmm, hi + 1, to)
  {
    CostOfPage(hi, to);
    if hi % 1024 != 0 { TableContinues(s, dirs, hi); }
    HeapFrameTaken(s, dirs, hi);
    MapPmm(s.(pmm := Alloc(s.pmm).0), s.kernelDir, hi, 4096 * Alloc(s.pmm).1, PRESENT + WRITE);
    hide NewTables, FramesFor, LastBegun, HeapPage, Count, Alloc, Entry, Test;
    if NewTables(hi + 1, to) > 0 {
      LowAfter(s.pmm, FramesFor(hi, LastBegun(to)) + 2, NeedsTable(s, s.kernelDir, hi));
    }
  }

  // ---- the heap while the kernel runs

  /**
   The heap's pages below hi are mapped on frames of their own; the kernel reaches every directory
   and table, and of the free frames only low ones; every table is entered writable.
   */
  ghost predicate HeapMapped(s: Phys, dirs: set<nat>, a: nat, hi: nat) {
    Inv(s, dirs) && HeapBacked(s, dirs, hi) && Bounded(s, dirs, a) && TablesOpen(s, dirs)
  }

  /** A heap page may lie on the frame of its own number, but that frame is then taken. */
  lemma HeapPageKeepsFar(s: Phys, dirs: set<nat>, a: nat, hi: nat)
    requires Inv(s, dirs) && a in dirs && FreeIsFar(s, a) && FIRST_HEAP_PAGE <= hi < ALL_PAGES
    requires Room(s.pmm, if NeedsTable(s, s.kernelDir, hi) then 2 else 1)
    ensures Backed(s, s.kernelDir, hi) && HeapPage(s, hi).pmm.total == s.pmm.total && FreeIsFar(HeapPage(s, hi), a)
  {
    HeapFrameTaken(s, dirs, hi);
    TakenFrameInv(s, dirs);
    AllocMeaning(s.pmm);
    var (m, f) := Alloc(s.pmm);
    var s1 := s.(pmm := m);
    HeapEntry(f);
    MapKeepsFar(s1, dirs, a, s.kernelDir, hi, 4096 * f, PRESENT + WRITE);
    MapPmm(s1, s.kernelDir, hi, 4096 * f, PRESENT + WRITE);
    if NeedsTable(s1, s.kernelDir, hi) { AllocMeaning(m); }
  }

  /** One turn of the loop in `heap_expand`, with everything the next one needs. */
  lemma PageAdded(s: Phys, dirs: set<nat>, a: nat, hi: nat, to: nat)
    requires HeapMapped(s, dirs, a, hi) && FIRST_HEAP_PAGE <= hi < to && Supply(s.pmm, hi, to)
    ensures Room(s.pmm, 1) && Backed(s, s.kernelDir, hi) && Alloc(s.pmm).1 < MAX_FRAMES
    ensures TryHeapPage(s, a, hi) == Done(HeapPage(s, hi))
    ensures NeedsTable(s, s.kernelDir, hi) ==> Aside(s.mem, a, Alloc(Alloc(s.pmm).0).1)
    ensures var r := HeapPage(s, hi);
      && HeapMapped(r, dirs, a, hi + 1) && Supply(r.pmm, hi + 1, to) && PagesWritable(r, hi, hi + 1)
        && r.pmm.total == s.pmm.total
      && (forall up: nat :: up < hi ==> Pte(r.mem, r.kernelDir, up) == Pte(s.mem, s.kernelDir, up))
      && (forall up: nat :: up < hi ==> (MayWrite(r.mem, r.kernelDir, up) <==> MayWrite(s.mem, s.kernelDir, up)))
  {
    SupplyLasts(s, dirs, hi, to);
    HeapPageKeepsBacked(s, dirs, hi);
    HeapPageKeepsReachable(s, dirs, a, hi);
    HeapPageKeepsFar(s, dirs, a, hi);
    HeapPageRights(s, dirs, hi);
    HeapFrameTaken(s, dirs, hi);
    TakeFrameKeepsInv(s, dirs);
    if NeedsTable(s, s.kernelDir, hi) { FreshIsAside(s.(pmm := Alloc(s.pmm).0), dirs, a); }
  }

  /**
   While the heap is in use, whatever its size, a clone goes through if and only if the frames for
   it are free below 4 MB, and then the heap stays in use.
   */
  lemma CloneBesideHeap(s: Phys, dirs: set<nat>, a: nat, hi: nat, src: nat)
    requires HeapMapped(s, dirs, a, hi) && hi <= ALL_PAGES && src in dirs
    requires Room(s.pmm, 1 + PresentSlots(s.mem, src, 0))
    ensures TryClone(s, a, src) ==
      if LowRoom(s.pmm, 1 + PresentSlots(s.mem, src, 0)) then Done(Clone(s, src).0) else Fault
    ensures LowRoom(s.pmm, 1 + PresentSlots(s.mem, src, 0)) ==>
      var (r, dst) := Clone(s, src); HeapMapped(r, dirs + {dst}, a, hi)
  {
    hide Inv, Bounded, HeapBacked, TablesOpen, TryClone, Clone, PresentSlots, LowRoom, Entry;
    CloneGoesThrough(s, dirs, a, src);
    CloneKeepsBacked(s, dirs, src, hi);
    CloneKeepsOpen(s, dirs, src);
  }

  // ---- a freshly booted kernel

  /** Exactly the first `used` frames are marked: nothing has been given back yet. */
  ghost predicate Packed(m: Pmm) {
    m.total <= MAX_FRAMES && forall p: nat :: p < m.total ==> (Test(m.bitmap, p) <==> p < m.used)
  }

  lemma PackedAlloc(m: Pmm)
    requires Counted(m) && Packed(m) && Room(m, 1)
    ensures Alloc(m).1 == m.used && Packed(Alloc(m).0) && Counted(Alloc(m).0)
    ensures Alloc(m).0.used == m.used + 1 && Alloc(m).0.total == m.total
  {
    AllocMeaning(m);
    assert !Test(m.bitmap, m.used);
  }

  /** The state `vmm_init` leaves: one directory, its first slot mapping the first 4 MB to themselves. */
  ghost predicate Booted(s: Phys, a: nat) {
    && Inv(s, {a}) && s.kernelDir == a && OnlyLow(s.mem, a) && AllLow(s, {a}) && Packed(s.pmm) && TablesOpen(s, {a})
    && (forall i: nat :: i < 1024 ==> (Present(Entry(s.mem, a, i)) <==> i == 0))
  }

  /** s after n heap pages, the first n of slot 4. */
  ghost predicate GrownBy(boot: Phys, s: Phys, a: nat, n: nat) {
    && Inv(s, {a}) && s.kernelDir == a && Reachable(s, {a}, a) && Packed(s.pmm) && s.pmm.total == boot.pmm.total
    && s.pmm.used == boot.pmm.used + n + (if n > 0 then 1 else 0)
    && (forall i: nat :: i < 1024 ==> (Present(Entry(s.mem, a, i)) <==> i == 0 || (i == 4 && n > 0)))
    && HeapBacked(s, {a}, FIRST_HEAP_PAGE + n)
  }

  /** The loop of `heap_expand`, n pages from page hi on. */
  function TryGrow(s: Phys, a: nat, hi: nat, n: nat): Outcome
    decreases n
  {
    if n == 0 then Done(s)
    else if !Backed(s, s.kernelDir, hi) then Fault
    else
      match TryHeapPage(s, a, hi)
      case Fault => Fault
      case Done(r) => TryGrow(r, a, hi + 1, n - 1)
  }

  lemma GrowOnePage(boot: Phys, s: Phys, a: nat, n: nat)
    requires LowRoom(boot.pmm, 2) && GrownBy(boot, s, a, n) && n < 1024 && Room(s.pmm, 2)
    requires n == 0 ==> s == boot
    ensures Backed(s, a, FIRST_HEAP_PAGE + n) && TryHeapPage(s, a, FIRST_HEAP_PAGE + n) ==
      Done(HeapPage(s, FIRST_HEAP_PAGE + n))
    ensures GrownBy(boot, HeapPage(s, FIRST_HEAP_PAGE + n), a, n + 1)
  {
    var hi := FIRST_HEAP_PAGE + n;
    assert hi / 1024 == 4 && (NeedsTable(s, a, hi) <==> n == 0);
    hide Entry, HeapPage, TryHeapPage, Test, Count;
    HeapPageKeepsReachable(s, {a}, a, hi);
    HeapPageKeepsBacked(s, {a}, hi);
    HeapPageSlots(s, a, hi);
    PackedPage(s, a, hi);
  }

  lemma PackedPage(s: Phys, a: nat, hi: nat)
    requires Inv(s, {a}) && s.kernelDir == a && FIRST_HEAP_PAGE <= hi < ALL_PAGES && Packed(s.pmm) && Room(s.pmm, 2)
    ensures Backed(s, a, hi) && Packed(HeapPage(s, hi).pmm)
  {
    PackedAlloc(s.pmm);
    HeapPageSlots(s, a, hi);
    if NeedsTable(s, a, hi) { PackedAlloc(Alloc(s.pmm).0); }
  }

  lemma HeapPageSlots(s: Phys, a: nat, hi: nat)
    requires Inv(s, {a}) && s.kernelDir == a && FIRST_HEAP_PAGE <= hi < ALL_PAGES
    requires Room(s.pmm, if NeedsTable(s, a, hi) then 2 else 1)
    ensures Backed(s, a, hi)
    ensures HeapPage(s, hi).pmm == if NeedsTable(s, a, hi) then Alloc(Alloc(s.pmm).0).0 else Alloc(s.pmm).0
    ensures forall i: nat :: i < 1024 ==>
      (Present(Entry(HeapPage(s, hi).mem, a, i)) <==> i == hi / 1024 || Present(Entry(s.mem, a, i)))
  {
    HeapFrameTaken(s, {a}, hi);
    TakenFrameInv(s, {a});
    var s1, phys := s.(pmm := Alloc(s.pmm).0), 4096 * Alloc(s.pmm).1;
    MapPmm(s1, a, hi, phys, PRESENT + WRITE);
    MapSlots(s1, {a}, a, hi, phys, PRESENT + WRITE);
  }

  /** Page 5120 needs the table of slot 5, and every frame it could take lies beyond the kernel's reach. */
  lemma FirstPageBeyondFaults(boot: Phys, s: Phys, a: nat)
    requires Booted(boot, a) && LowRoom(boot.pmm, 2) && GrownBy(boot, s, a, 1024) && Room(s.pmm, 2)
    ensures Backed(s, a, 5120) && TryHeapPage(s, a, 5120) == Fault
  {
    PackedAlloc(s.pmm);
    PackedAlloc(Alloc(s.pmm).0);
    HeapPageGoesThrough(s, {a}, a, 5120);
    var t := Alloc(Alloc(s.pmm).0).1;
    CountPrefix(boot.pmm.bitmap, if boot.pmm.used < Low(boot.pmm) then boot.pmm.used else Low(boot.pmm), Low(boot.pmm));
    assert 1024 <= t < 4096;
    BitZero(0);
  }

  lemma KernelIs(boot: Phys, s: Phys, a: nat, k: nat)
    requires GrownBy(boot, s, a, k)
    ensures s.kernelDir == a && s.pmm.total == boot.pmm.total && s.pmm.used <= boot.pmm.used + k + 1
  {
  }

  lemma {:induction false} GrowthFrom(boot: Phys, s: Phys, a: nat, k: nat, n: nat)
    requires Booted(boot, a) && LowRoom(boot.pmm, 2) && GrownBy(boot, s, a, k) && k <= 1024 && Room(boot.pmm, k + n + 3)
    requires k == 0 ==> s == boot
    ensures TryGrow(s, a, FIRST_HEAP_PAGE + k, n).Done? <==> k + n <= 1024
    decreases n
  {
    hide GrownBy, Booted, HeapPage, TryHeapPage, Test, Count;
    if n > 0 {
      KernelIs(boot, s, a, k);
      if k < 1024 {
        GrowOnePage(boot, s, a, k);
        GrowthFrom(boot, HeapPage(s, FIRST_HEAP_PAGE + k), a, k + 1, n - 1);
      } else {
        FirstPageBeyondFaults(boot, s, a);
      }
    }
  }

  lemma NotYetGrown(boot: Phys, a: nat)
    requires Booted(boot, a)
    ensures GrownBy(boot, boot, a, 0)
  {
  }

  /**
   From boot, with frames to spare, the heap can grow by n pages if and only if n <= 1024: the
   kernel heap ends at 0x0140_0000, whatever memory the machine has.
   */
  lemma HeapEndsAt4MB(boot: Phys, a: nat, n: nat)
    requires Booted(boot, a) && LowRoom(boot.pmm, 2) && Room(boot.pmm, n + 3)
    ensures TryGrow(boot, a, FIRST_HEAP_PAGE, n).Done? <==> n <= 1024
  {
    hide Booted, GrownBy, TryGrow, Test, Count, Entry;
    NotYetGrown(boot, a);
    GrowthFrom(boot, boot, a, 0, n);
  }
}
