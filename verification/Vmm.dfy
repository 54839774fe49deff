/**
 mm/pmm.c and mm/vmm.c as they run: a bitmap array, physical memory as an array of words, and
 pointers to directories and tables as physical addresses.  Every method is proved equal to the
 corresponding operation of `Frames` or `Paging`.
 */
module VmmCode {
  import opened Bits
  import opened Frames
  import opened Paging
  import opened PagingLaws
  import opened PagingClone
  import opened PagingDestroy
  import opened PagingAccess
  import opened PagingRights
  import opened PagingLimit

  class Vmm {
    const bitmap: array<word>
    const mem: array<word>
    var totalPages: nat
    var usedPages: int
    var kernelDir: word
    var currentDir: word
    /** Bit 31 of CR0. */
    var paging: bool

    constructor (words: nat)
      ensures fresh(bitmap) && fresh(mem) && bitmap != mem
      ensures bitmap.Length == BITMAP_WORDS && mem.Length == words
      ensures kernelDir == currentDir == 0 && !paging
    {
      bitmap := new word[BITMAP_WORDS];
      mem := new word[words];
      totalPages, usedPages, kernelDir, currentDir, paging := 0, 0, 0, 0, false;
    }

    /** The arrays have their sizes: one bit per frame, 1024 words per frame. */
    ghost predicate Ok()
      reads this
    {
      && bitmap != mem && bitmap.Length == BITMAP_WORDS
      && totalPages <= MAX_FRAMES && mem.Length == 1024 * totalPages
      && kernelDir % 4096 == 0 && currentDir % 4096 == 0
    }

    ghost function Allocator(): Pmm
      requires bitmap.Length == BITMAP_WORDS
      reads this, bitmap
    {
      Pmm(bitmap[..], totalPages, usedPages)
    }

    ghost function State(): Phys
      requires Ok()
      reads this, bitmap, mem
    {
      Phys(mem[..], Allocator(), kernelDir / 4096)
    }

    ghost function Active(): nat
      reads this
    {
      currentDir / 4096
    }

    /** A pointer to frame f reaches frame f: always before paging is on, then by way of the active directory. */
    ghost predicate Reaches(f: nat)
      reads this, mem
    {
      paging ==> Direct(mem[..], Active(), f)
    }

    /** Writing to frame t changes no translation under the active directory. */
    ghost predicate IsAside(t: nat)
      reads this, mem
    {
      paging ==> Aside(mem[..], Active(), t)
    }

    // ---- mm/pmm.c

    method SetBit(page: nat)
      requires bitmap.Length == BITMAP_WORDS && page < MAX_FRAMES
      modifies bitmap
      ensures bitmap[..] == Set(old(bitmap[..]), page)
    {
      WordMask(page % 32);
      OrBound(bitmap[page / 32], Pow2(page % 32), 32);
      bitmap[page / 32] := Or(bitmap[page / 32], Pow2(page % 32));
    }

    method ClearBit(page: nat)
      requires bitmap.Length == BITMAP_WORDS && page < MAX_FRAMES
      modifies bitmap
      ensures bitmap[..] == Clear(old(bitmap[..]), page)
    {
      AndNotBound(bitmap[page / 32], Pow2(page % 32));
      bitmap[page / 32] := AndNot(bitmap[page / 32], Pow2(page % 32));
    }

    method TestBit(page: nat) returns (taken: bool)
      requires bitmap.Length == BITMAP_WORDS && page < MAX_FRAMES
      ensures taken <==> Test(bitmap[..], page)
    {
      taken := Bit(bitmap[page / 32], page % 32);
    }

    /** `for (...) bitmap[i] = 0xFFFFFFFF` */
    method MarkAll()
      requires bitmap.Length == BITMAP_WORDS
      modifies bitmap
      ensures forall p :: 0 <= p < MAX_FRAMES ==> Test(bitmap[..], p)
    {
      var i := 0;
      while i < BITMAP_WORDS
        invariant i <= BITMAP_WORDS && forall k :: 0 <= k < i ==> bitmap[k] == 0xFFFF_FFFF
      {
        bitmap[i] := 0xFFFF_FFFF;
        i := i + 1;
      }
      forall p | 0 <= p < MAX_FRAMES ensures Test(bitmap[..], p) { PowersUsed(); BitLowMask(32, p % 32); }
    }

    /** Frames below the end of the kernel are in use, those up to the end of memory are free. */
    method PmmInit(memSize: nat, kernelEnd: nat)
      requires bitmap != mem && bitmap.Length == BITMAP_WORDS
      requires memSize <= 0x1000_0000 && mem.Length == 1024 * (memSize / 4096)
      requires 0 < kernelEnd && (kernelEnd + 4095) / 4096 <= memSize / 4096
      modifies `totalPages, `usedPages, bitmap
      ensures totalPages == memSize / 4096 && usedPages == (kernelEnd + 4095) / 4096 && Counted(Allocator())
      ensures forall p :: 0 <= p < MAX_FRAMES ==>
        (Test(bitmap[..], p) <==> p < (kernelEnd + 4095) / 4096 || memSize / 4096 <= p)
    {
      totalPages := memSize / 4096;
      usedPages := 0;
      MarkAll();
      var start, end := (kernelEnd + 4095) / 4096, totalPages;
      hide Test, Bit, Clear;
      var page := start;
      while page < end
        invariant start <= page <= end && totalPages == end
        invariant forall p :: 0 <= p < MAX_FRAMES ==> (Test(bitmap[..], p) <==> !(start <= p < page))
      {
        ghost var before: Bitmap := bitmap[..];
        ClearBit(page);
        forall p | 0 <= p < MAX_FRAMES ensures Test(bitmap[..], p) <==> !(start <= p < page + 1) {
          TestClear(before, page, p);
        }
        page := page + 1;
      }
      usedPages := start;
      CountPrefix(bitmap[..], start, totalPages);
    }

    /** First-free allocation; 0 when every frame is taken. */
    method PmmAlloc() returns (addr: word)
      requires Ok()
      modifies `usedPages, bitmap
      ensures Ok() && Alloc(old(Allocator())) == (Allocator(), addr / 4096) && addr % 4096 == 0
    {
      var i := 0;
      while i < totalPages
        invariant i <= totalPages && Allocator() == old(Allocator())
        invariant FirstFree(bitmap[..], totalPages, 0) == FirstFree(bitmap[..], totalPages, i)
      {
        var taken := TestBit(i);
        if !taken {
          SetBit(i);
          usedPages := usedPages + 1;
          return i * PAGE_SIZE;
        }
        i := i + 1;
      }
      return 0;
    }

    method PmmFree(addr: word)
      requires bitmap.Length == BITMAP_WORDS && addr / 4096 < MAX_FRAMES
      modifies `usedPages, bitmap
      ensures Allocator() == Release(old(Allocator()), addr / 4096)
    {
      var page := addr / PAGE_SIZE;
      var taken := TestBit(page);
      if taken {
        ClearBit(page);
        usedPages := usedPages - 1;
      }
    }

    // ---- mm/vmm.c: words of a table or directory

    function Read(table: word, j: nat): (w: word)
      requires Ok() && table % 4096 == 0 && j < 1024 && table / 4096 < totalPages && Reaches(table / 4096)
      reads this, bitmap, mem
      ensures w == Entry(mem[..], table / 4096, j)
    {
      mem[table / 4 + j]
    }

    method Write(table: word, j: nat, w: word)
      requires Ok() && table % 4096 == 0 && j < 1024 && table / 4096 < totalPages && Reaches(table / 4096)
      modifies mem
      ensures Ok() && State() == old(State()).(mem := Put(old(mem[..]), table / 4096, j, w))
    {
      assert table / 4 + j == table / 4096 * 1024 + j;
      mem[table / 4 + j] := w;
    }

    /** `memset32(table, 0, 1024)` */
    method ClearTable(table: word)
      requires Ok() && table % 4096 == 0 && table / 4096 < totalPages && Reaches(table / 4096) && IsAside(table / 4096)
      modifies mem
      ensures Ok() && State() == old(State()).(mem := Zero(old(mem[..]), table / 4096)) && Reaches(table / 4096)
    {
      ghost var before, f := mem[..], table / 4096;
      var i := 0;
      while i < 1024
        invariant i <= 1024 && Ok() && |mem[..]| == |before| && Reaches(f)
        invariant State() == old(State()).(mem := mem[..])
        invariant forall g: nat, k: nat :: k < 1024 ==>
          Entry(mem[..], g, k) == if g == f && k < i then 0 else Entry(before, g, k)
      {
        Write(table, i, 0);
        if paging { AsideKeepsPte(before, mem[..], Active(), f, f); }
        i := i + 1;
      }
      EntriesDetermine(mem[..], Zero(before, f));
    }

    // ---- mm/vmm.c

    /** A fresh, cleared table at slot i of the directory. */
    method NewTable(pd: word, i: nat, flags: word) returns (pt: word)
      requires Ok() && pd % 4096 == 0 && i < 1024 && pd / 4096 < totalPages && 0 < totalPages
      requires NewTableReaches(State(), Active(), paging, pd / 4096)
      modifies `usedPages, bitmap, mem
      ensures Ok() && State() == WithTable(old(State()), pd / 4096, i, PdeOf(Alloc(old(Allocator())).1, flags))
      ensures pt == 4096 * Alloc(old(Allocator())).1
    {
      ghost var s, t := State(), Alloc(Allocator()).1;
      assert t < totalPages;
      hide Alloc, Zero, Put, Direct, Aside, PdeOf, Test;
      pt := PmmAlloc();
      assert pt / 4096 == t && mem[..] == s.mem;
      ClearTable(pt);
      Write(pd, i, PdeOf(pt / 4096, flags));
    }

    /** The table of slot i, a fresh one if there is none. */
    method TableAt(pd: word, i: nat, flags: word) returns (pt: word)
      requires Ok() && pd % 4096 == 0 && i < 1024 && pd / 4096 < totalPages && Reaches(pd / 4096)
      requires !Present(Entry(mem[..], pd / 4096, i)) ==> NewTableReaches(State(), Active(), paging, pd / 4096)
      modifies `usedPages, bitmap, mem
      ensures Ok() && State() == LinkedAt(old(State()), pd / 4096, i, flags)
      ensures pt == 4096 * StoreFrame(old(State()), pd / 4096, i)
    {
      hide Zero, Direct, Aside, PdeOf, Test, Alloc, WithTable, FrameOf, Bit, NewTableReaches;
      var e := Read(pd, i);
      if !Present(e) {
        pt := NewTable(pd, i, flags);
      } else {
        pt := Pointer(e);
      }
    }

    method StoreAt(pd: word, i: nat, j: nat, flags: word, w: word)
      requires Ok() && pd % 4096 == 0 && i < 1024 && j < 1024 && pd / 4096 < totalPages
      requires Reaches(pd / 4096) && StoreReaches(State(), Active(), paging, pd / 4096, i, flags)
      modifies `usedPages, bitmap, mem
      ensures Ok() && State() == StoredAt(old(State()), pd / 4096, i, j, flags, w)
    {
      ghost var s, l, f := State(), LinkedAt(State(), pd / 4096, i, flags), StoreFrame(State(), pd / 4096, i);
      LinkedSize(s, pd / 4096, i, flags);
      LinkedReaches(s, Active(), paging, pd / 4096, i, flags);
      hide LinkedAt, StoreFrame, Direct, Alloc, Put, StoreReaches, NewTableReaches;
      var pt := TableAt(pd, i, flags);
      assert pt / 4096 == f && mem[..] == l.mem;
      Write(pt, j, w);
    }

    /** `e & ~0xFFF` */
    method Pointer(e: word) returns (p: word)
      ensures p == 4096 * FrameOf(e) && p / 4096 == FrameOf(e)
    {
      SplitEntry(e);
      p := AndNot(e, 0xFFF);
    }

    method VmmMap(pd: word, virt: word, phys: word, flags: word)
      requires Ok() && pd % 4096 == 0 && Backed(State(), pd / 4096, virt / 4096)
      requires paging ==> TryMap(State(), Active(), pd / 4096, virt / 4096, phys, flags).Done?
      requires NeedsTable(State(), pd / 4096, virt / 4096) ==> IsAside(Alloc(Allocator()).1)
      modifies `usedPages, bitmap, mem
      ensures Ok() && State() == MapPage(old(State()), pd / 4096, virt / 4096, phys, flags)
    {
      MapSteps(State(), Active(), paging, pd / 4096, virt / 4096, phys, flags);
      SlotOfPage(virt);
      hide TryMap, MapPage, StoredAt, StoreReaches, Direct, Aside, PteOf, Alloc;
      var pdIdx, ptIdx := virt / 0x40_0000, virt / 0x1000 % 0x400;
      StoreAt(pd, pdIdx, ptIdx, flags, PteOf(phys, flags));
    }

    method VmmUnmap(pd: word, virt: word)
      requires Ok() && pd % 4096 == 0 && Backed(State(), pd / 4096, virt / 4096)
      requires paging ==> UnmapReaches(mem[..], Active(), pd / 4096, virt / 4096)
      modifies mem
      ensures Ok() && State() == UnmapPage(old(State()), pd / 4096, virt / 4096)
    {
      var pdIdx, ptIdx := virt / 0x40_0000, virt / 0x1000 % 0x400;
      assert pdIdx == virt / 4096 / 1024;
      var e := Read(pd, pdIdx);
      if !Present(e) { return; }
      SplitEntry(e);
      Write(AndNot(e, 0xFFF), ptIdx, 0);
    }

    method VmmGetPhysical(pd: word, virt: word) returns (phys: nat)
      requires Ok() && pd % 4096 == 0 && Backed(State(), pd / 4096, virt / 4096)
      requires paging ==> UnmapReaches(mem[..], Active(), pd / 4096, virt / 4096)
      ensures phys == GetPhysical(mem[..], pd / 4096, virt)
    {
      var pdIdx, ptIdx := virt / 0x40_0000, virt / 0x1000 % 0x400;
      assert pdIdx == virt / 4096 / 1024;
      var e := Read(pd, pdIdx);
      if !Present(e) { return 0; }
      SplitEntry(e);
      var pte := Read(AndNot(e, 0xFFF), ptIdx);
      phys := AndNot(pte, 0xFFF) + And(virt, 0xFFF);
    }

    method VmmSwitch(pd: word)
      requires pd % 4096 == 0
      modifies `currentDir
      ensures currentDir == pd
    {
      currentDir := pd;
    }

    /** Entries 768.. of the kernel directory, one by one. */
    method CopyKernelSlots(pd: word)
      requires Ok() && pd % 4096 == 0 && pd / 4096 < totalPages && kernelDir / 4096 < totalPages && pd != kernelDir
      requires Reaches(pd / 4096) && Reaches(kernelDir / 4096) && IsAside(pd / 4096)
      modifies mem
      ensures Ok() && State() == old(State()).(mem := CopyUpper(old(mem[..]), pd / 4096, kernelDir / 4096))
    {
      ghost var d, k, before := pd / 4096, kernelDir / 4096, mem[..];
      var i := 768;
      while i < 1024
        invariant 768 <= i <= 1024 && Ok() && |mem[..]| == |before| && Reaches(d) && Reaches(k)
        invariant State() == old(State()).(mem := mem[..])
        invariant forall g: nat, j: nat :: j < 1024 && g * 1024 + j < |before| ==>
          Entry(mem[..], g, j) == if g == d && 768 <= j < i then Entry(before, k, j) else Entry(before, g, j)
      {
        var e := Read(kernelDir, i);
        Write(pd, i, e);
        if paging {
          AsideKeepsPte(before, mem[..], Active(), d, d);
          AsideKeepsPte(before, mem[..], Active(), d, k);
        }
        i := i + 1;
      }
      EntriesDetermine(mem[..], CopyUpper(before, d, k));
    }

    method VmmCreateDirectory() returns (pd: word)
      requires Ok() && 0 < totalPages && kernelDir / 4096 < totalPages && kernelDir / 4096 != Alloc(Allocator()).1
      requires paging ==> TryCreate(State(), Active()).Done?
      requires IsAside(Alloc(Allocator()).1)
      modifies `usedPages, bitmap, mem
      ensures Ok() && CreateDirectory(old(State())) == (State(), pd / 4096) && pd % 4096 == 0
    {
      ghost var s, d := State(), Alloc(Allocator()).1;
      assert d < totalPages;
      CreateSteps(s, Active(), paging);
      hide Alloc, Zero, CopyUpper, Direct, Aside, CreateDirectory, TryCreate, Test;
      pd := PmmAlloc();
      assert pd / 4096 == d && mem[..] == s.mem;
      ClearTable(pd);
      assert mem[..] == Zero(s.mem, d);
      CopyKernelSlots(pd);
    }

    /** Walks one slot's table: `src_pt` is marked entry by entry and copied to `dst_pt`. */
    method ShareEntries(srcPt: word, dstPt: word)
      requires Ok() && srcPt % 4096 == 0 && dstPt % 4096 == 0
      requires srcPt / 4096 < totalPages && dstPt / 4096 < totalPages && srcPt != dstPt
      requires Reaches(srcPt / 4096) && Reaches(dstPt / 4096) && IsAside(dstPt / 4096)
        && (paging ==> Active() != srcPt / 4096)
      modifies mem
      ensures Ok() && State() == old(State()).(mem := ShareTable(old(mem[..]), srcPt / 4096, dstPt / 4096))
    {
      ghost var t, u, before := srcPt / 4096, dstPt / 4096, mem[..];
      var j := 0;
      while j < 1024
        invariant j <= 1024 && Ok() && |mem[..]| == |before| && Reaches(t) && Reaches(u)
        invariant State() == old(State()).(mem := mem[..])
        invariant forall g: nat, k: nat :: k < 1024 ==>
          Entry(mem[..], g, k) == if (g == t || g == u) && k < j && Present(Entry(before, t, k))
            then CowMark(Entry(before, t, k)) else Entry(before, g, k)
      {
        ShareEntry(srcPt, dstPt, j);
        if paging {
          SharingKeepsDirect(before, mem[..], Active(), t, u, j + 1, t);
          SharingKeepsDirect(before, mem[..], Active(), t, u, j + 1, u);
        }
        j := j + 1;
      }
      EntriesDetermine(mem[..], ShareTable(before, t, u));
    }

    /** One turn of the inner loop of `vmm_clone`. */
    method ShareEntry(srcPt: word, dstPt: word, j: nat)
      requires Ok() && srcPt % 4096 == 0 && dstPt % 4096 == 0 && j < 1024
      requires srcPt / 4096 < totalPages && dstPt / 4096 < totalPages && srcPt != dstPt
      requires Reaches(srcPt / 4096) && Reaches(dstPt / 4096) && IsAside(dstPt / 4096)
        && (paging ==> Active() != srcPt / 4096)
      modifies mem
      ensures Ok() && State() == old(State()).(mem := mem[..])
      ensures var t, u := srcPt / 4096, dstPt / 4096;
        forall g: nat, k: nat :: k < 1024 ==>
          Entry(mem[..], g, k) == if (g == t || g == u) && k == j && Present(Entry(old(mem[..]), t, j))
            then CowMark(Entry(old(mem[..]), t, j)) else Entry(old(mem[..]), g, k)
    {
      ghost var before := mem[..];
      var e := Read(srcPt, j);
      if Present(e) {
        Write(srcPt, j, CowMark(e));
        if paging { OneMarkKeepsDirect(before, mem[..], Active(), srcPt / 4096, j, dstPt / 4096); }
        Write(dstPt, j, CowMark(e));
      }
    }

    method VmmClone(src: word, ghost dirs: set<nat>) returns (dst: word)
      requires Ok() && src % 4096 == 0 && Inv(State(), dirs) && src / 4096 in dirs
      requires Room(Allocator(), 1 + PresentSlots(mem[..], src / 4096, 0))
      requires paging ==> Active() in dirs && TryClone(State(), Active(), src / 4096).Done?
      modifies `usedPages, bitmap, mem
      ensures Ok() && Clone(old(State()), src / 4096) == (State(), dst / 4096) && dst % 4096 == 0
    {
      hide PresentSlots, Clone, CreateDirectory, TryCreate, TryCloneSlots, Entry, Test, CloneUnderway, Inv;
      ghost var before, s := State(), src / 4096;
      CloneReady(before, dirs, s, Active(), paging);
      dst := VmmCreateDirectory();
      ghost var s1, d, all := State(), dst / 4096, dirs + {dst / 4096};
      CloneIs(before, s);
      hide CloneSlot, CloneSlots, Alloc;
      var i := 0;
      while i < 768
        invariant i <= 768 && Ok() && CloneUnderway(State(), all, s, d, i)
        invariant totalPages == s1.pmm.total && |s1.mem| == 1024 * totalPages
        invariant CloneSlots(State(), s, d, i) == CloneSlots(s1, s, d, 0)
        invariant paging ==> TryCloneSlots(State(), Active(), s, d, i).Done? && Active() in dirs && d !in dirs
      {
        CloneTurn(State(), all, s, d, i, Active(), paging);
        CloneSlotByHand(src, dst, i, all);
        i := i + 1;
      }
    }

    /** One turn of the loop in `vmm_clone`. */
    method CloneSlotByHand(src: word, dst: word, i: nat, ghost dirs: set<nat>)
      requires Ok() && src % 4096 == 0 && dst % 4096 == 0 && i < 768
      requires CloneUnderway(State(), dirs, src / 4096, dst / 4096, i)
      requires paging ==> Active() in dirs && TryCloneSlot(State(), Active(), src / 4096, dst / 4096, i).Done?
      modifies `usedPages, bitmap, mem
      ensures Ok() && State() == CloneSlot(old(State()), src / 4096, dst / 4096, i)
    {
      UnderwayFrames(State(), dirs, src / 4096, dst / 4096, i);
      hide Entry, Test, CloneUnderway, Inv, TryCloneSlot, CloneSlot;
      var e := Read(src, i);
      if Present(e) {
        SlotFrames(State(), dirs, src / 4096, i);
        if paging { SlotReached(State(), dirs, Active(), src / 4096, dst / 4096, i); }
        SplitEntry(e);
        CloneTable(src, dst, i, AndNot(e, 0xFFF));
      } else {
        SkippedSlot(State(), Active(), src / 4096, dst / 4096, i);
      }
    }

    /** A present slot: a fresh table, the shared entries, and the slot of the copy. */
    method CloneTable(src: word, dst: word, i: nat, srcPt: word)
      requires Ok() && src % 4096 == 0 && dst % 4096 == 0 && i < 768 && src / 4096 < totalPages
        && dst / 4096 < totalPages
      requires Reaches(src / 4096) && Present(Entry(mem[..], src / 4096, i))
        && srcPt == 4096 * Table(State(), src / 4096, i)
      requires var t, u := srcPt / 4096, Alloc(Allocator()).1;
        t < totalPages && u < totalPages && t != u && src / 4096 != t && src / 4096 != u
      requires paging ==> SlotAccess(State(), Active(), src / 4096, dst / 4096, i)
      modifies `usedPages, bitmap, mem
      ensures Ok() && State() == CloneSlot(old(State()), src / 4096, dst / 4096, i)
    {
      ghost var s, c, d, a := State(), src / 4096, dst / 4096, Active();
      CloneSlotIs(s, c, d, i);
      ghost var t, u := Table(s, c, i), Alloc(s.pmm).1;
      ghost var cleared := Zero(s.mem, u);
      ghost var shared := ShareTable(cleared, t, u);
      hide Bit, Entry, Put, ShareTable, Zero, Alloc, Test, CowMark, Redirect, CloneSlot, Direct, Aside;
      var dstPt := PmmAlloc();
      assert dstPt / 4096 == u && srcPt / 4096 == t && mem[..] == s.mem;
      ClearTable(dstPt);
      assert mem[..] == cleared;
      ShareEntries(srcPt, dstPt);
      assert mem[..] == shared;
      LinkTable(src, dst, i, dstPt);
    }

    /** `dst->entries[i] = dst_pt | (src->entries[i] & 0xFFF)` */
    method LinkTable(src: word, dst: word, i: nat, dstPt: word)
      requires Ok() && src % 4096 == 0 && dst % 4096 == 0 && i < 768 && src / 4096 < totalPages
        && dst / 4096 < totalPages
      requires Reaches(src / 4096) && Reaches(dst / 4096) && dstPt / 4096 < totalPages
      modifies mem
      ensures Ok()
      ensures State() == old(State()).(mem := Put(old(mem[..]), dst / 4096, i,
        Redirect(dstPt / 4096, Entry(old(mem[..]), src / 4096, i))))
    {
      var e := Read(src, i);
      Write(dst, i, Redirect(dstPt / 4096, e));
    }

    method VmmDestroyDirectory(pd: word)
      requires Ok() && pd % 4096 == 0 && Managed(State(), pd / 4096)
      requires paging ==> TryDestroy(State(), Active(), pd / 4096).Done?
      modifies `usedPages, bitmap
      ensures Ok() && LeavesInRange(old(mem[..]), pd / 4096) && State() == Destroy(old(State()), pd / 4096)
    {
      ghost var s, d := State(), pd / 4096;
      ManagedLeaves(s, d);
      hide Entry, Release, Managed, Bit, FreePages, TableInRange;
      var i := 0;
      while i < 768
        invariant i <= 768 && Ok() && State() == s.(pmm := Allocator())
        invariant FreeSlots(Allocator(), s.mem, d, i) == FreeSlots(s.pmm, s.mem, d, 0)
      {
        var e := Read(pd, i);
        if Present(e) {
          ManagedEntry(s, d, i, 0);
          FreeTable(e);
        }
        i := i + 1;
      }
      PmmFree(pd);
    }

    /** Frees every page that the table of directory entry e maps, and the table. */
    method FreeTable(e: word)
      requires Ok() && FrameOf(e) < totalPages && TableInRange(mem[..], FrameOf(e)) && Reaches(FrameOf(e))
      modifies `usedPages, bitmap
      ensures Ok() && State() == old(State()).(pmm := Allocator())
      ensures Allocator() == Release(FreePages(old(Allocator()), mem[..], FrameOf(e), 0), FrameOf(e))
    {
      SplitEntry(e);
      hide Entry, Release, Bit, TableInRange;
      var pt := AndNot(e, 0xFFF);
      assert pt / 4096 == FrameOf(e);
      ghost var a, t := Allocator(), FrameOf(e);
      var j := 0;
      while j < 1024
        invariant j <= 1024 && Ok() && State() == old(State()).(pmm := Allocator())
        invariant FreePages(Allocator(), mem[..], t, j) == FreePages(a, mem[..], t, 0)
      {
        FreeEntry(pt, j);
        j := j + 1;
      }
      PmmFree(pt);
    }

    /** Frees the page that entry j of a table maps, if it maps one. */
    method FreeEntry(pt: word, j: nat)
      requires Ok() && pt % 4096 == 0 && pt / 4096 < totalPages && TableInRange(mem[..], pt / 4096)
        && Reaches(pt / 4096) && j < 1024
      modifies `usedPages, bitmap
      ensures Ok() && State() == old(State()).(pmm := Allocator())
      ensures FreePages(Allocator(), mem[..], pt / 4096, j + 1) == FreePages(old(Allocator()), mem[..], pt / 4096, j)
    {
      hide Release, Bit;
      var pte := Read(pt, j);
      if Present(pte) {
        SplitEntry(pte);
        PmmFree(AndNot(pte, 0xFFF));
      }
    }

    /** The kernel directory, mapping the first 4 MB to itself; then paging is on. */
    method VmmInit()
      requires Ok() && !paging && Counted(Allocator()) && Room(Allocator(), 2) && Test(bitmap[..], 0)
      modifies `usedPages, `kernelDir, `currentDir, `paging, bitmap, mem
      ensures Ok() && paging && currentDir == kernelDir && usedPages == old(usedPages) + 2
      ensures Inv(State(), {Active()}) && OnlyLow(mem[..], Active()) && TablesOpen(State(), {Active()})
      ensures forall vp: nat :: vp < ALL_PAGES ==> Pte(mem[..], Active(), vp) == if vp < 1024 then 4096 * vp + 3 else 0
      ensures Packed(old(Allocator())) && LowRoom(old(Allocator()), 2) ==> Booted(State(), Active())
    {
      ghost var p := Allocator();
      AllocMeaning(p);
      kernelDir := PmmAlloc();
      ClearTable(kernelDir);
      ghost var d, s := kernelDir / 4096, State();
      EmptyDirectory(s);
      assert IdentityUpTo(s, s, 0);
      hide MapPage, IdentityUpTo, Backed, Entry, Alloc, Test, Pte;
      var page := 0;
      while page < 1024
        invariant page <= 1024 && Ok() && !paging && kernelDir / 4096 == d && IdentityUpTo(s, State(), page)
      {
        IdentityPage(s, State(), page);
        assert 4096 * page / 4096 == page;
        VmmMap(kernelDir, 4096 * page, 4096 * page, PRESENT + WRITE);
        page := page + 1;
      }
      IdentityDone(s, State());
      BootedFrom(p, s, State());
      VmmSwitch(kernelDir);
      paging := true;
    }
  }

  lemma SlotOfPage(virt: word)
    ensures virt / 0x40_0000 == virt / 4096 / 1024 && virt / 0x40_0000 < 1024
  {
  }

  /** A fresh table for directory d can be cleared and entered. */
  ghost predicate NewTableReaches(s: Phys, a: nat, paging: bool, d: nat)
    requires s.pmm.total <= MAX_FRAMES
  {
    var t := Alloc(s.pmm).1;
    paging ==> Direct(s.mem, a, t) && Aside(s.mem, a, t) && Direct(Zero(s.mem, t), a, d)
  }

  /** What storing into slot i of d reaches. */
  ghost predicate StoreReaches(s: Phys, a: nat, paging: bool, d: nat, i: nat, flags: word)
    requires 0 < s.pmm.total <= MAX_FRAMES && |s.mem| == 1024 * s.pmm.total && i < 1024 && d < s.pmm.total
  {
    if Present(Entry(s.mem, d, i)) then
      Table(s, d, i) < s.pmm.total && (paging ==> Direct(s.mem, a, Table(s, d, i)))
    else
      && NewTableReaches(s, a, paging, d)
      && (paging ==> Direct(WithTable(s, d, i, PdeOf(Alloc(s.pmm).1, flags)).mem, a, Alloc(s.pmm).1))
  }

  /** The frame of the table at slot i of d, once there is one. */
  function StoreFrame(s: Phys, d: nat, i: nat): nat
    requires s.pmm.total <= MAX_FRAMES
  {
    if Present(Entry(s.mem, d, i)) then Table(s, d, i) else Alloc(s.pmm).1
  }

  function LinkedAt(s: Phys, d: nat, i: nat, flags: word): Phys
    requires 0 < s.pmm.total <= MAX_FRAMES && |s.mem| == 1024 * s.pmm.total && i < 1024 && d < s.pmm.total
  {
    if Present(Entry(s.mem, d, i)) then s else WithTable(s, d, i, PdeOf(Alloc(s.pmm).1, flags))
  }

  lemma LinkedReaches(s: Phys, a: nat, paging: bool, d: nat, i: nat, flags: word)
    requires 0 < s.pmm.total <= MAX_FRAMES && |s.mem| == 1024 * s.pmm.total && i < 1024 && d < s.pmm.total
    requires StoreReaches(s, a, paging, d, i, flags)
    ensures StoreFrame(s, d, i) < s.pmm.total
    ensures !Present(Entry(s.mem, d, i)) ==> NewTableReaches(s, a, paging, d)
    ensures paging ==> Direct(LinkedAt(s, d, i, flags).mem, a, StoreFrame(s, d, i))
  {
  }

  lemma LinkedSize(s: Phys, d: nat, i: nat, flags: word)
    requires 0 < s.pmm.total <= MAX_FRAMES && |s.mem| == 1024 * s.pmm.total && i < 1024 && d < s.pmm.total
    requires Present(Entry(s.mem, d, i)) ==> Table(s, d, i) < s.pmm.total
    ensures |LinkedAt(s, d, i, flags).mem| == |s.mem| && StoreFrame(s, d, i) < s.pmm.total
    ensures LinkedAt(s, d, i, flags).pmm.total == s.pmm.total
  {
  }

  function StoredAt(s: Phys, d: nat, i: nat, j: nat, flags: word, w: word): Phys
    requires 0 < s.pmm.total <= MAX_FRAMES && |s.mem| == 1024 * s.pmm.total && i < 1024 && j < 1024 && d < s.pmm.total
    requires Present(Entry(s.mem, d, i)) ==> Table(s, d, i) < s.pmm.total
  {
    var l := LinkedAt(s, d, i, flags);
    LinkedSize(s, d, i, flags);
    l.(mem := Put(l.mem, StoreFrame(s, d, i), j, w))
  }

  /** `vmm_map` and its accesses, step by step. */
  lemma MapSteps(s: Phys, a: nat, paging: bool, d: nat, vp: nat, phys: word, flags: word)
    requires Backed(s, d, vp) && (paging ==> TryMap(s, a, d, vp, phys, flags).Done?)
    requires paging && NeedsTable(s, d, vp) ==> Aside(s.mem, a, Alloc(s.pmm).1)
    ensures paging ==> Direct(s.mem, a, d)
    ensures StoreReaches(s, a, paging, d, vp / 1024, flags)
    ensures MapPage(s, d, vp, phys, flags) == StoredAt(s, d, vp / 1024, vp % 1024, flags, PteOf(phys, flags))
  {
    hide Direct, PdeOf, PteOf, Zero, Aside;
  }

  lemma CreateSteps(s: Phys, a: nat, paging: bool)
    requires s.pmm.total <= MAX_FRAMES && (paging ==> TryCreate(s, a).Done? && Aside(s.mem, a, Alloc(s.pmm).1))
    ensures var (m, d) := Alloc(s.pmm);
      && CreateDirectory(s) == (s.(pmm := m, mem := CopyUpper(Zero(s.mem, d), d, s.kernelDir)), d)
      && (paging ==> Direct(s.mem, a, d) && Direct(Zero(s.mem, d), a, s.kernelDir) && Aside(Zero(s.mem, d), a, d))
  {
    if paging { ClearedIsAside(s.mem, a, Alloc(s.pmm).1); }
    hide Direct, Zero, Aside;
  }

  /** What the loop of `vmm_clone` finds done by `vmm_create_directory`. */
  lemma CloneReady(s: Phys, dirs: set<nat>, src: nat, a: nat, paging: bool)
    requires Inv(s, dirs) && src in dirs && Room(s.pmm, 1 + PresentSlots(s.mem, src, 0))
    requires paging ==> a in dirs && TryClone(s, a, src).Done?
    ensures s.kernelDir < s.pmm.total && s.kernelDir != Alloc(s.pmm).1
    ensures paging ==> TryCreate(s, a).Done? && Aside(s.mem, a, Alloc(s.pmm).1)
    ensures var (s1, dst) := CreateDirectory(s);
      && CloneUnderway(s1, dirs + {dst}, src, dst, 0) && dst !in dirs && s1.pmm.total == s.pmm.total
        && |s1.mem| == |s.mem|
      && (paging ==> TryCloneSlots(s1, a, src, dst, 0).Done?)
  {
    hide Entry, Pte, PresentSlots, TryCreate, TryCloneSlots, CloneUnderway, CreateDirectory, Test;
    FreshFrame(s, dirs);
    KernelInDirs(s, dirs);
    CloneBegins(s, dirs, src);
    CreateEntries(s, dirs);
    if paging {
      FreshIsAside(s, dirs, a);
      CreateGoesThrough(s, dirs, a);
    }
  }

  lemma CloneIs(s: Phys, src: nat)
    requires s.pmm.total <= MAX_FRAMES && |s.mem| == 1024 * s.pmm.total && s.pmm.total > 0
    ensures var (s1, dst) := CreateDirectory(s);
      dst < s.pmm.total && s1.pmm.total == s.pmm.total && |s1.mem| == |s.mem|
        && Clone(s, src) == (CloneSlots(s1, src, dst, 0), dst)
  {
  }

  lemma CloneTurn(now: Phys, all: set<nat>, s: nat, d: nat, i: nat, a: nat, paging: bool)
    requires i < 768 && CloneUnderway(now, all, s, d, i)
    requires paging ==> TryCloneSlots(now, a, s, d, i).Done? && a in all && a != d
    ensures now.pmm.total <= MAX_FRAMES && |now.mem| == 1024 * now.pmm.total && d < now.pmm.total
    ensures CloneSlot(now, s, d, i).pmm.total == now.pmm.total
      && CloneUnderway(CloneSlot(now, s, d, i), all, s, d, i + 1)
    ensures paging ==>
      TryCloneSlot(now, a, s, d, i).Done? && TryCloneSlots(CloneSlot(now, s, d, i), a, s, d, i + 1).Done?
  {
    CloneGoesOn(now, all, s, d, i);
    hide Entry, CloneSlot, TryCloneSlot;
    if paging && Present(Entry(now.mem, s, i)) { TryCloneSlotIs(now, a, s, d, i); }
    if paging && !Present(Entry(now.mem, s, i)) { SkippedSlot(now, a, s, d, i); }
  }

  lemma SkippedSlot(now: Phys, a: nat, s: nat, d: nat, i: nat)
    requires now.pmm.total <= MAX_FRAMES && |now.mem| == 1024 * now.pmm.total && d < now.pmm.total && i < 768
    requires !Present(Entry(now.mem, s, i))
    ensures CloneSlot(now, s, d, i) == now && (TryCloneSlot(now, a, s, d, i).Done? ==>
      TryCloneSlot(now, a, s, d, i) == Done(now))
  {
  }

  lemma UnderwayFrames(s: Phys, dirs: set<nat>, c: nat, d: nat, i: nat)
    requires i < 768 && CloneUnderway(s, dirs, c, d, i)
    ensures c < s.pmm.total && d < s.pmm.total && Inv(s, dirs) && c in dirs
    ensures Present(Entry(s.mem, c, i)) ==> Room(s.pmm, 1)
  {
    assert Taken(s, c);
  }

  /** What cloning a present slot reaches, access by access. */
  ghost predicate SlotAccess(s: Phys, a: nat, c: nat, d: nat, i: nat)
    requires s.pmm.total <= MAX_FRAMES
  {
    var t, u := Table(s, c, i), Alloc(s.pmm).1;
    var cleared := Zero(s.mem, u);
    && a != t && Direct(s.mem, a, u) && Aside(s.mem, a, u)
    && Direct(cleared, a, t) && Direct(cleared, a, u) && Aside(cleared, a, u)
    && Direct(ShareTable(cleared, t, u), a, c) && Direct(ShareTable(cleared, t, u), a, d)
  }

  lemma SlotReached(s: Phys, dirs: set<nat>, a: nat, c: nat, d: nat, i: nat)
    requires Inv(s, dirs) && a in dirs && c in dirs && i < 768 && d < s.pmm.total && Present(Entry(s.mem, c, i))
      && Room(s.pmm, 1)
    requires TryCloneSlot(s, a, c, d, i).Done?
    ensures SlotAccess(s, a, c, d, i)
  {
    TryCloneSlotIs(s, a, c, d, i);
    FreshIsAside(s, dirs, a);
    ClearedIsAside(s.mem, a, Alloc(s.pmm).1);
    SlotFrames(s, dirs, c, i);
  }

  lemma CloneSlotIs(s: Phys, c: nat, d: nat, i: nat)
    requires s.pmm.total <= MAX_FRAMES && |s.mem| == 1024 * s.pmm.total && d < s.pmm.total && i < 768
      && Present(Entry(s.mem, c, i))
    ensures var t, u := Table(s, c, i), Alloc(s.pmm).1;
      && u < MAX_FRAMES
      && CloneSlot(s, c, d, i) ==
        Phys(Put(ShareTable(Zero(s.mem, u), t, u), d, i, Redirect(u, Entry(s.mem, c, i))), Alloc(s.pmm).0, s.kernelDir)
    ensures forall g: nat, k: nat :: k < 1024 && g != Table(s, c, i) && g != Alloc(s.pmm).1 ==>
      Entry(ShareTable(Zero(s.mem, Alloc(s.pmm).1), Table(s, c, i), Alloc(s.pmm).1), g, k) == Entry(s.mem, g, k)
  {
  }

  lemma ClearedIsAside(mem: seq<word>, a: nat, t: nat)
    requires Aside(mem, a, t)
    ensures Aside(Zero(mem, t), a, t)
  {
  }

  /** Marking entries of table t, and copying them to a table aside, moves no page. */
  lemma SharingKeepsDirect(before: seq<word>, now: seq<word>, a: nat, t: nat, u: nat, j: nat, f: nat)
    requires |now| == |before| && Aside(before, a, u) && a != t && f < ALL_PAGES
    requires forall g: nat, k: nat :: k < 1024 ==>
      Entry(now, g, k) == if (g == t || g == u) && k < j && Present(Entry(before, t, k))
        then CowMark(Entry(before, t, k)) else Entry(before, g, k)
    ensures Direct(now, a, f) <==> Direct(before, a, f)
  {
    assert Entry(now, a, f / 1024) == Entry(before, a, f / 1024);
    CowMarkBits(Pte(before, a, f), 0);
  }

  lemma OneMarkKeepsDirect(before: seq<word>, now: seq<word>, a: nat, t: nat, j: nat, f: nat)
    requires j < 1024 && t * 1024 + j < |before| && a != t && f < ALL_PAGES
    requires now == Put(before, t, j, CowMark(Entry(before, t, j)))
    ensures Direct(now, a, f) <==> Direct(before, a, f)
  {
    assert Entry(now, a, f / 1024) == Entry(before, a, f / 1024);
    CowMarkBits(Pte(before, a, f), 0);
  }

  /** The source's table and the next free frame are two frames, and no directories. */
  lemma SlotFrames(s: Phys, dirs: set<nat>, c: nat, i: nat)
    requires Inv(s, dirs) && c in dirs && i < 768 && Present(Entry(s.mem, c, i)) && Room(s.pmm, 1)
    ensures var t, u := Table(s, c, i), Alloc(s.pmm).1;
      t < s.pmm.total && u < s.pmm.total && t != u && t !in dirs && u !in dirs && c != t && c != u
  {
    FreshFrame(s, dirs);
    assert OwnSlot(s, dirs, c, i) && Taken(s, Table(s, c, i));
  }

  /** Memories made of whole frames that agree on every entry are equal. */
  lemma EntriesDetermine(a: seq<word>, b: seq<word>)
    requires |a| == |b| && |a| % 1024 == 0
    requires forall g: nat, k: nat :: k < 1024 && g < |a| / 1024 ==> Entry(a, g, k) == Entry(b, g, k)
    ensures a == b
  {
    forall x | 0 <= x < |a| ensures a[x] == b[x] {
      assert x == x / 1024 * 1024 + x % 1024;
      assert Entry(a, x / 1024, x % 1024) == Entry(b, x / 1024, x % 1024);
    }
  }

  /** A zeroed kernel directory translates nothing. */
  lemma EmptyDirectory(s: Phys)
    requires Shape(s) && Taken(s, s.kernelDir)
    requires forall k: nat :: k < 1024 ==> Entry(s.mem, s.kernelDir, k) == 0
    ensures Inv(s, {s.kernelDir})
    ensures forall vp: nat :: vp < ALL_PAGES ==> Pte(s.mem, s.kernelDir, vp) == 0
  {
    BitZero(0);
  }

  /** Pages below `page` have been mapped to themselves on the way from s to now. */
  ghost predicate IdentityUpTo(s: Phys, now: Phys, page: nat) {
    var d := s.kernelDir;
    && Inv(now, {d}) && now.kernelDir == d && now.pmm.total == s.pmm.total
    && now.pmm == (if page == 0 then s.pmm else Alloc(s.pmm).0)
    && (page == 0 ==> Room(now.pmm, 1))
    && (forall i: nat :: i < 1024 ==> (Present(Entry(now.mem, d, i)) <==> i == 0 && page > 0))
    && (page > 0 ==> Table(now, d, 0) == Alloc(s.pmm).1) && TablesOpen(now, {d})
    && (forall vp: nat :: vp < ALL_PAGES ==> Pte(now.mem, d, vp) == if vp < page then 4096 * vp + 3 else 0)
  }

  /** Mapping the next page of the first 4 MB to itself. */
  lemma IdentityPage(s: Phys, now: Phys, page: nat)
    requires page < 1024 && s.pmm.total <= MAX_FRAMES && IdentityUpTo(s, now, page)
    ensures Backed(now, s.kernelDir, page) && now.kernelDir == s.kernelDir
    ensures IdentityUpTo(s, MapPage(now, s.kernelDir, page, 4096 * page, PRESENT + WRITE), page + 1)
  {
    var d := s.kernelDir;
    MapMeaning(now, {d}, d, page, 4096 * page, PRESENT + WRITE);
    MapPmm(now, d, page, 4096 * page, PRESENT + WRITE);
    MapSlots(now, {d}, d, page, 4096 * page, PRESENT + WRITE);
    MapKeepsOpen(now, {d}, d, page, 4096 * page, PRESENT + WRITE);
    IdentityTable(s, now, page);
    if page == 0 { AllocMeaning(now.pmm); }
    IdentityEntry(page);
  }

  lemma IdentityTable(s: Phys, now: Phys, page: nat)
    requires page < 1024 && s.pmm.total <= MAX_FRAMES && IdentityUpTo(s, now, page)
    ensures Backed(now, s.kernelDir, page)
    ensures Table(MapPage(now, s.kernelDir, page, 4096 * page, PRESENT + WRITE), s.kernelDir, 0) == Alloc(s.pmm).1
  {
    var d := s.kernelDir;
    if page == 0 {
      MapInNewTable(now, {d}, d, page, 0, PRESENT + WRITE);
    } else {
      StoreMeaning(now, {d}, d, page, PteOf(4096 * page, PRESENT + WRITE));
    }
  }

  lemma IdentityDone(s: Phys, now: Phys)
    requires s.pmm.total <= MAX_FRAMES && IdentityUpTo(s, now, 1024) && Counted(s.pmm) && Room(s.pmm, 1)
    ensures Inv(now, {s.kernelDir}) && now.pmm.used == s.pmm.used + 1 && now.kernelDir == s.kernelDir
    ensures forall vp: nat :: vp < ALL_PAGES ==> Pte(now.mem, s.kernelDir, vp) == if vp < 1024 then 4096 * vp + 3 else 0
    ensures OnlyLow(now.mem, s.kernelDir) && TablesOpen(now, {s.kernelDir})
  {
    AllocMeaning(s.pmm);
    BitZero(0);
    forall f: nat | f < MAX_FRAMES ensures Direct(now.mem, s.kernelDir, f) <==> f < 1024 {
      if f < 1024 { IdentityPresent(f); }
    }
  }

  lemma IdentityPresent(f: nat)
    requires f < 1024
    ensures Present(4096 * f + 3) && FrameOf(4096 * f + 3) == f
  {
    FlagsParity(f, 3);
    DivModUnique(4096 * f + 3, 4096, f, 3);
  }

  /** p is the allocator before the kernel directory's frame was taken. */
  lemma BootedFrom(p: Pmm, s: Phys, now: Phys)
    requires Counted(p) && Room(p, 2) && s.pmm == Alloc(p).0 && s.kernelDir == Alloc(p).1
    requires IdentityUpTo(s, now, 1024) && OnlyLow(now.mem, s.kernelDir)
    ensures Packed(p) && LowRoom(p, 2) ==> Booted(now, s.kernelDir)
  {
    AllocMeaning(p);
    AllocLow(p);
    if Packed(p) && LowRoom(p, 2) {
      PackedAlloc(p);
      PackedAlloc(s.pmm);
      AllocLow(s.pmm);
    }
  }

  lemma IdentityEntry(page: nat)
    requires page < 1024
    ensures PteOf(4096 * page, PRESENT + WRITE) == 4096 * page + 3
  {
    var w := PteOf(4096 * page, PRESENT + WRITE);
    SplitEntry(w);
    PteOfFrame(4096 * page, PRESENT + WRITE);
    assert Or(1, 3) == 3;
    assert FrameOf(4096 * page) == page;
  }
}
