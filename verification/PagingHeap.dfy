/**
 The pages behind the kernel heap: `heap_expand` maps one fresh frame per page into the kernel
 directory, so that distinct heap addresses stay distinct in physical memory and never touch a
 page table.
 */
module PagingHeap {
  import opened Bits
  import opened Frames
  import opened Paging
  import opened PagingLaws
  import opened PagingClone
  import opened PagingRights
  import opened PagingAccess
  import opened PagingDestroy
  import opened PagingLife

  const FIRST_HEAP_PAGE: nat := 4096

  function HeapFrame(s: Phys, vp: nat): nat { FrameOf(Pte(s.mem, s.kernelDir, vp)) }

  /** Frame f is allocated and is neither a directory nor a table. */
  ghost predicate DataFrame(s: Phys, dirs: set<nat>, f: nat)
    requires s.pmm.total <= MAX_FRAMES
  {
    Taken(s, f) && f !in dirs && forall d: nat, i: nat :: OwnSlot(s, dirs, d, i) ==> Table(s, d, i) != f
  }

  /** Every heap page below hi is present, on a data frame of its own. */
  ghost predicate HeapBacked(s: Phys, dirs: set<nat>, hi: nat)
    requires s.pmm.total <= MAX_FRAMES
  {
    && (forall vp: nat :: FIRST_HEAP_PAGE <= vp < hi ==>
      Present(Pte(s.mem, s.kernelDir, vp)) && DataFrame(s, dirs, HeapFrame(s, vp)))
    && (forall vp: nat, up: nat :: FIRST_HEAP_PAGE <= vp < up < hi ==> HeapFrame(s, vp) != HeapFrame(s, up))
  }

  /** Every page from lo up to hi is mapped and writable. */
  ghost predicate PagesWritable(s: Phys, lo: nat, hi: nat) {
    forall vp: nat :: lo <= vp < hi ==> MayWrite(s.mem, s.kernelDir, vp)
  }

  /** One turn of the loop in `heap_expand`: a fresh frame, mapped present and writable at page hi. */
  function HeapPage(s: Phys, hi: nat): Phys
    requires Backed(s, s.kernelDir, hi)
  {
    var (m, f) := Alloc(s.pmm);
    MapPage(s.(pmm := m), s.kernelDir, hi, 4096 * f, PRESENT + WRITE)
  }

  /** The same turn under active directory a. */
  function TryHeapPage(s: Phys, a: nat, hi: nat): Outcome
    requires Backed(s, s.kernelDir, hi)
  {
    var (m, f) := Alloc(s.pmm);
    TryMap(s.(pmm := m), a, s.kernelDir, hi, 4096 * f, PRESENT + WRITE)
  }

  lemma TakenFrameInv(s: Phys, dirs: set<nat>)
    requires Inv(s, dirs) && Room(s.pmm, 1)
    ensures Inv(s.(pmm := Alloc(s.pmm).0), dirs)
    ensures DataFrame(s.(pmm := Alloc(s.pmm).0), dirs, Alloc(s.pmm).1)
    ensures forall f: nat :: DataFrame(s, dirs, f) ==>
      f != Alloc(s.pmm).1 && DataFrame(s.(pmm := Alloc(s.pmm).0), dirs, f)
  {
    AllocMeaning(s.pmm);
    FreshFrame(s, dirs);
    TakeFrameKeepsInv(s, dirs);
    var r := s.(pmm := Alloc(s.pmm).0);
    assert forall d: nat, i: nat :: OwnSlot(r, dirs, d, i) <==> OwnSlot(s, dirs, d, i);
  }

  /** Mapping a page turns no data frame into a table. */
  lemma MapKeepsDataFrame(s: Phys, dirs: set<nat>, d: nat, vp: nat, phys: word, flags: word, f: nat)
    requires Inv(s, dirs) && d in dirs && MayMap(s, d, vp) && DataFrame(s, dirs, f)
    requires NeedsTable(s, d, vp) ==> Room(s.pmm, 1)
    ensures Backed(s, d, vp) && MapPage(s, d, vp, phys, flags).pmm.total == s.pmm.total
    ensures DataFrame(MapPage(s, d, vp, phys, flags), dirs, f)
  {
    MapAllowed(s, dirs, d, vp);
    var r := MapPage(s, d, vp, phys, flags);
    if NeedsTable(s, d, vp) {
      AllocMeaning(s.pmm);
      FreshFrame(s, dirs);
      MapInNewTable(s, dirs, d, vp, phys, flags);
      PdeOfPresent(Alloc(s.pmm).1, flags);
    } else {
      StoreMeaning(s, dirs, d, vp, PteOf(phys, flags));
      assert forall c: nat, k: nat :: OwnSlot(r, dirs, c, k) <==> OwnSlot(s, dirs, c, k);
    }
  }

  /** Growing the heap by a page keeps every page backed by a frame of its own, and disturbs no entry. */
  lemma HeapPageKeepsBacked(s: Phys, dirs: set<nat>, hi: nat)
    requires Inv(s, dirs) && HeapBacked(s, dirs, hi) && FIRST_HEAP_PAGE <= hi < ALL_PAGES
    requires Room(s.pmm, if NeedsTable(s, s.kernelDir, hi) then 2 else 1)
    ensures Backed(s, s.kernelDir, hi)
    ensures var r := HeapPage(s, hi);
      && Inv(r, dirs) && HeapBacked(r, dirs, hi + 1) && Writable(Pte(r.mem, r.kernelDir, hi))
      && r.kernelDir == s.kernelDir && r.pmm.total == s.pmm.total
      && r.pmm.used == s.pmm.used + (if NeedsTable(s, s.kernelDir, hi) then 2 else 1)
      && (forall c: nat, up: nat :: c in dirs && up < ALL_PAGES && (c == s.kernelDir || hi < USER_PAGES) ==>
        Pte(r.mem, c, up) == if c == s.kernelDir && up == hi then PteOf(4096 * Alloc(s.pmm).1, PRESENT + WRITE)
          else Pte(s.mem, c, up))
  {
    HeapFrameTaken(s, dirs, hi);
    TakenFrameInv(s, dirs);
    var (m, f) := Alloc(s.pmm);
    var s1, r, w := s.(pmm := m), HeapPage(s, hi), PteOf(4096 * f, PRESENT + WRITE);
    MapMeaning(s1, dirs, s.kernelDir, hi, 4096 * f, PRESENT + WRITE);
    HeapEntry(f);
    MapPmm(s1, s.kernelDir, hi, 4096 * f, PRESENT + WRITE);
    hide Entry, HeapPage, MapPage, Alloc, Test, Bit, PteOf;
    forall vp: nat | FIRST_HEAP_PAGE <= vp < hi + 1
      ensures Pte(r.mem, r.kernelDir, vp) == if vp == hi then w else Pte(s.mem, s.kernelDir, vp)
      ensures DataFrame(r, dirs, HeapFrame(r, vp))
    {
      assert Pte(r.mem, r.kernelDir, vp) == if vp == hi then w else Pte(s.mem, s.kernelDir, vp);
      MapKeepsDataFrame(s1, dirs, s.kernelDir, hi, 4096 * f, PRESENT + WRITE, HeapFrame(r, vp));
    }
    forall vp: nat, up: nat | FIRST_HEAP_PAGE <= vp < up < hi + 1 ensures HeapFrame(r, vp) != HeapFrame(r, up) {
      if up < hi { assert HeapFrame(s, vp) != HeapFrame(s, up); } else { assert DataFrame(s, dirs, HeapFrame(s, vp)); }
    }
  }

  /**
   Growth keeps tables and heap pages on frames of their own if and only if the frames for it are
   free: `heap_expand` maps the null pointer of a full allocator like any other frame, so that the
   heap goes on with a page, or a page table, in frame 0.
   */
  lemma HeapPageNeedsFrames(s: Phys, dirs: set<nat>, hi: nat)
    requires Inv(s, dirs) && HeapBacked(s, dirs, hi) && FIRST_HEAP_PAGE <= hi < ALL_PAGES
    ensures Backed(s, s.kernelDir, hi) && HeapPage(s, hi).pmm.total <= MAX_FRAMES
    ensures Inv(HeapPage(s, hi), dirs) && HeapBacked(HeapPage(s, hi), dirs, hi + 1) <==>
      Room(s.pmm, if NeedsTable(s, s.kernelDir, hi) then 2 else 1)
  {
    MapAllowed(s, dirs, s.kernelDir, hi);
    if Room(s.pmm, if NeedsTable(s, s.kernelDir, hi) then 2 else 1) {
      HeapPageKeepsBacked(s, dirs, hi);
    } else {
      if Room(s.pmm, 1) { TakenFrameInv(s, dirs); AllocMeaning(s.pmm); } else { AllocFull(s.pmm); }
      var (m, f) := Alloc(s.pmm);
      var s1 := s.(pmm := m);
      MapKeepsInv(s1, dirs, s.kernelDir, hi, 4096 * f, PRESENT + WRITE);
      if NeedsTable(s1, s.kernelDir, hi) {
        if Room(m, 1) { AllocMeaning(m); } else { AllocFull(m); }
      } else {
        StoreMeaning(s1, dirs, s.kernelDir, hi, PteOf(0, PRESENT + WRITE));
        HeapEntry(0);
        assert HeapFrame(HeapPage(s, hi), hi) == 0;
      }
    }
  }

  /** The frame for the page itself. */
  lemma HeapFrameTaken(s: Phys, dirs: set<nat>, hi: nat)
    requires Inv(s, dirs) && Room(s.pmm, if NeedsTable(s, s.kernelDir, hi) then 2 else 1) && hi < ALL_PAGES
    ensures var s1 := s.(pmm := Alloc(s.pmm).0);
      && Backed(s, s.kernelDir, hi) && Counted(s1.pmm) && s1.pmm.total == s.pmm.total && s1.pmm.used == s.pmm.used + 1
      && 0 < Alloc(s.pmm).1 < MAX_FRAMES && HeapPage(s, hi) ==
        MapPage(s1, s.kernelDir, hi, 4096 * Alloc(s.pmm).1, PRESENT + WRITE)
      && (NeedsTable(s1, s.kernelDir, hi) ==>
        Alloc(s1.pmm).0.used == s.pmm.used + 2 && Alloc(s1.pmm).0.total == s.pmm.total && Counted(Alloc(s1.pmm).0))
  {
    MapAllowed(s, dirs, s.kernelDir, hi);
    AllocMeaning(s.pmm);
    FreshFrame(s, dirs);
    if NeedsTable(s, s.kernelDir, hi) { AllocMeaning(Alloc(s.pmm).0); }
  }

  lemma HeapEntry(f: nat)
    requires f < MAX_FRAMES
    ensures FrameOf(PteOf(4096 * f, PRESENT + WRITE)) == f
    ensures Present(PteOf(4096 * f, PRESENT + WRITE)) && Writable(PteOf(4096 * f, PRESENT + WRITE))
  {
    PteOfFrame(4096 * f, PRESENT + WRITE);
    PteOfBits(4096 * f, PRESENT + WRITE, 0);
    PteOfBits(4096 * f, PRESENT + WRITE, 1);
  }

  /** The new page is writable at both levels and closed to user mode; every other page keeps its rights. */
  lemma HeapPageRights(s: Phys, dirs: set<nat>, hi: nat)
    requires Inv(s, dirs) && TablesOpen(s, dirs) && FIRST_HEAP_PAGE <= hi < ALL_PAGES
    requires Room(s.pmm, if NeedsTable(s, s.kernelDir, hi) then 2 else 1)
    ensures Backed(s, s.kernelDir, hi) && TablesOpen(HeapPage(s, hi), dirs)
    ensures var r, k := HeapPage(s, hi), s.kernelDir;
      && MayWrite(r.mem, k, hi) && !MayUse(r.mem, k, hi)
      && (forall up: nat :: up < ALL_PAGES && up != hi ==>
        (MayWrite(r.mem, k, up) <==> MayWrite(s.mem, k, up)) && (MayUse(r.mem, k, up) <==> MayUse(s.mem, k, up)))
  {
    HeapFrameTaken(s, dirs, hi);
    TakenFrameInv(s, dirs);
    UserFlag();
    var (m, f) := Alloc(s.pmm);
    var s1, k := s.(pmm := m), s.kernelDir;
    MapKeepsOpen(s1, dirs, k, hi, 4096 * f, PRESENT + WRITE);
    hide Entry, HeapPage, MapPage, Alloc, Test, Bit, Pte;
    forall up: nat | up < ALL_PAGES
      ensures MayWrite(HeapPage(s, hi).mem, k, up) <==> up == hi || MayWrite(s.mem, k, up)
      ensures MayUse(HeapPage(s, hi).mem, k, up) <==> up != hi && MayUse(s.mem, k, up)
    {
      MapRights(s1, dirs, k, hi, 4096 * f, PRESENT + WRITE, k, up);
    }
  }

  // ---- what keeps the heap backed

  /** Marks may be added and directories cloned: a data frame stays one as long as no new table or directory uses it. */
  lemma CloneKeepsBacked(s: Phys, dirs: set<nat>, src: nat, hi: nat)
    requires Inv(s, dirs) && src in dirs && HeapBacked(s, dirs, hi) && hi <= ALL_PAGES
    requires Room(s.pmm, 1 + PresentSlots(s.mem, src, 0))
    ensures var (r, dst) := Clone(s, src); Inv(r, dirs + {dst}) && HeapBacked(r, dirs + {dst}, hi)
  {
    hide Entry, Pte, Clone, Test;
    CloneResult(s, dirs, src);
    var (r, dst) := Clone(s, src);
    forall vp: nat | FIRST_HEAP_PAGE <= vp < hi
      ensures Present(Pte(r.mem, r.kernelDir, vp)) && HeapFrame(r, vp) == HeapFrame(s, vp)
        && DataFrame(r, dirs + {dst}, HeapFrame(s, vp))
    {
      SharedEntryBits(Pte(s.mem, s.kernelDir, vp));
      CloneKeepsDataFrame(s, dirs, src, HeapFrame(s, vp));
    }
  }

  lemma CloneKeepsDataFrame(s: Phys, dirs: set<nat>, src: nat, f: nat)
    requires Inv(s, dirs) && src in dirs && DataFrame(s, dirs, f) && Room(s.pmm, 1 + PresentSlots(s.mem, src, 0))
    ensures var (r, dst) := Clone(s, src); r.pmm.total <= MAX_FRAMES && DataFrame(r, dirs + {dst}, f)
  {
    hide Entry, Pte, Clone, Test;
    CloneResult(s, dirs, src);
    CloneMarks(s, dirs, src, f);
    var (r, dst) := Clone(s, src);
    forall c: nat, i: nat | OwnSlot(r, dirs + {dst}, c, i) ensures Table(r, c, i) != f {
      if c == dst {
        assert UserTable(r.mem, dst, Table(r, c, i));
      } else {
        assert OwnSlot(s, dirs, c, i) && Table(r, c, i) == Table(s, c, i);
      }
    }
  }

  /** Mapping and unmapping user pages of other directories, or pages outside the heap, keeps it backed. */
  lemma MapKeepsBacked(s: Phys, dirs: set<nat>, d: nat, vp: nat, phys: word, flags: word, hi: nat)
    requires Inv(s, dirs) && d in dirs && HeapBacked(s, dirs, hi) && hi <= USER_PAGES
    requires MayMap(s, d, vp) && (NeedsTable(s, d, vp) ==> Room(s.pmm, 1))
    requires d != s.kernelDir || !(FIRST_HEAP_PAGE <= vp < hi)
    ensures Backed(s, d, vp) && MapPage(s, d, vp, phys, flags).pmm.total == s.pmm.total
    ensures HeapBacked(MapPage(s, d, vp, phys, flags), dirs, hi)
  {
    MapMeaning(s, dirs, d, vp, phys, flags);
    MapPmm(s, d, vp, phys, flags);
    if NeedsTable(s, d, vp) { AllocMeaning(s.pmm); }
    var r := MapPage(s, d, vp, phys, flags);
    hide Entry, Pte, MapPage, Alloc, Test;
    forall up: nat | FIRST_HEAP_PAGE <= up < hi
      ensures Pte(r.mem, r.kernelDir, up) == Pte(s.mem, s.kernelDir, up) && DataFrame(r, dirs, HeapFrame(s, up))
    {
      MapKeepsDataFrame(s, dirs, d, vp, phys, flags, HeapFrame(s, up));
    }
  }

  lemma UnmapKeepsBacked(s: Phys, dirs: set<nat>, d: nat, vp: nat, hi: nat)
    requires Inv(s, dirs) && d in dirs && HeapBacked(s, dirs, hi) && hi <= USER_PAGES && vp < ALL_PAGES
    requires d != s.kernelDir || !(FIRST_HEAP_PAGE <= vp < hi)
    ensures Backed(s, d, vp) && HeapBacked(UnmapPage(s, d, vp), dirs, hi)
  {
    UnmapMeaning(s, dirs, d, vp);
    var r := UnmapPage(s, d, vp);
    assert forall c: nat, i: nat :: c in dirs && i < 1024 ==> Entry(r.mem, c, i) == Entry(s.mem, c, i) by {
      if !NeedsTable(s, d, vp) { StoreMeaning(s, dirs, d, vp, 0); }
    }
    hide Entry, Pte, UnmapPage, Test;
    assert forall c: nat, i: nat :: OwnSlot(r, dirs, c, i) <==> OwnSlot(s, dirs, c, i);
    forall up: nat | FIRST_HEAP_PAGE <= up < hi
      ensures Pte(r.mem, r.kernelDir, up) == Pte(s.mem, s.kernelDir, up) && DataFrame(r, dirs, HeapFrame(s, up))
    {
      assert DataFrame(s, dirs, HeapFrame(s, up));
    }
  }

  /**
   The heap is flat: through the kernel directory two heap addresses reach the same physical byte
   only if they are equal, and no heap byte lies in a directory or a page table.
   */
  lemma HeapIsFlat(s: Phys, dirs: set<nat>, hi: nat, a: word, b: word)
    requires Inv(s, dirs) && HeapBacked(s, dirs, hi)
    requires FIRST_HEAP_PAGE <= a / 4096 < hi && FIRST_HEAP_PAGE <= b / 4096 < hi
    ensures GetPhysical(s.mem, s.kernelDir, a) == GetPhysical(s.mem, s.kernelDir, b) ==> a == b
    ensures DataFrame(s, dirs, GetPhysical(s.mem, s.kernelDir, a) / 4096)
  {
    BitZero(0);
    PhysicalOfMapped(s.mem, s.kernelDir, a);
    PhysicalOfMapped(s.mem, s.kernelDir, b);
    assert a / 4096 / 1024 == a / 0x400000 && b / 4096 / 1024 == b / 0x400000;
    assert Present(Pte(s.mem, s.kernelDir, a / 4096)) && Present(Pte(s.mem, s.kernelDir, b / 4096));
    if a / 4096 < b / 4096 {
      assert HeapFrame(s, a / 4096) != HeapFrame(s, b / 4096);
    } else if b / 4096 < a / 4096 {
      assert HeapFrame(s, b / 4096) != HeapFrame(s, a / 4096);
    }
  }

  /**
   A clone leaves the heap writable if and only if the cloned directory is not the kernel's, or
   the heap is still empty: cloning the kernel directory, as the fork of a process that runs on
   it does, makes every heap page read-only and copy-on-write.
   */
  lemma CloneWriteProtectsHeap(s: Phys, dirs: set<nat>, src: nat, hi: nat)
    requires Inv(s, dirs) && src in dirs && HeapBacked(s, dirs, hi) && PagesWritable(s, FIRST_HEAP_PAGE, hi)
      && hi <= USER_PAGES
    requires Room(s.pmm, 1 + PresentSlots(s.mem, src, 0))
    ensures var (r, dst) := Clone(s, src);
      && (PagesWritable(r, FIRST_HEAP_PAGE, hi) <==> src != s.kernelDir || hi <= FIRST_HEAP_PAGE)
      && (src == s.kernelDir ==> forall vp: nat :: FIRST_HEAP_PAGE <= vp < hi ==>
        !Writable(Pte(r.mem, r.kernelDir, vp)) && Cow(Pte(r.mem, r.kernelDir, vp)))
  {
    hide Entry, Pte, Clone;
    CloneResult(s, dirs, src);
    var (r, dst) := Clone(s, src);
    forall vp: nat | FIRST_HEAP_PAGE <= vp < hi
      ensures src != s.kernelDir ==> MayWrite(r.mem, r.kernelDir, vp)
      ensures src == s.kernelDir ==> !Writable(Pte(r.mem, r.kernelDir, vp)) && Cow(Pte(r.mem, r.kernelDir, vp))
    {
      if src == s.kernelDir { CloneSharesPages(s, dirs, src, vp); } else { CloneRights(s, dirs, src, s.kernelDir, vp); }
    }
    if src == s.kernelDir && FIRST_HEAP_PAGE < hi { assert !MayWrite(r.mem, r.kernelDir, FIRST_HEAP_PAGE); }
  }

  /** A page the heap gains after a directory was cloned from the kernel's is absent from the clone. */
  lemma GrowthInvisibleToClones(s: Phys, dirs: set<nat>, c: nat, hi: nat)
    requires Inv(s, dirs) && HeapBacked(s, dirs, hi) && FIRST_HEAP_PAGE <= hi < USER_PAGES
    requires Room(s.pmm, if NeedsTable(s, s.kernelDir, hi) then 2 else 1)
    requires c in dirs && c != s.kernelDir
    ensures Backed(s, s.kernelDir, hi) && Pte(HeapPage(s, hi).mem, c, hi) == Pte(s.mem, c, hi)
    ensures Present(Pte(HeapPage(s, hi).mem, s.kernelDir, hi))
  {
    HeapPageKeepsBacked(s, dirs, hi);
  }
}
