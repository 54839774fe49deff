/**
 Whole lives of an address space: created, filled page by page, destroyed; or cloned and
 destroyed.  When is every frame given back, and only those?
 */
module PagingLife {
  import opened Bits
  import opened Frames
  import opened Paging
  import opened PagingLaws
  import opened PagingClone
  import opened PagingDestroy
  import opened PagingAccess

  // ---- clone, then destroy the clone

  /** The clone maps exactly the user frames of the source. */
  lemma CloneLeaves(s: Phys, dirs: set<nat>, src: nat, r: Phys, dst: nat, p: nat)
    requires src in dirs && ClonedTo(s, dirs, src, r, dst)
    ensures UserLeaf(r.mem, dst, p) <==> UserLeaf(s.mem, src, p)
  {
    hide Pte;
    BitZero(0);
    forall vp: nat | vp < USER_PAGES ensures MapsAt(r.mem, dst, vp, p) <==> MapsAt(s.mem, src, vp, p) {
      CowMarkBits(Pte(s.mem, src, vp), 0);
    }
  }

  /** p is the table of a user slot of d, at slot i or later. */
  ghost predicate TableFrom(mem: seq<word>, d: nat, i: nat, p: nat) {
    exists k: nat :: i <= k < 768 && Present(Entry(mem, d, k)) && FrameOf(Entry(mem, d, k)) == p
  }

  lemma TableFromStep(mem: seq<word>, d: nat, i: nat, p: nat)
    requires i < 768
    ensures TableFrom(mem, d, i, p) <==>
      (Present(Entry(mem, d, i)) && FrameOf(Entry(mem, d, i)) == p) || TableFrom(mem, d, i + 1, p)
  {
  }

  /** What cloning one slot marks. */
  lemma CloneSlotMarks(s: Phys, dirs: set<nat>, src: nat, dst: nat, i: nat, p: nat)
    requires Inv(s, dirs) && src in dirs && dst in dirs && src != dst && dst != s.kernelDir && i < 768 && p < MAX_FRAMES
    requires !Present(Entry(s.mem, dst, i))
    requires Present(Entry(s.mem, src, i)) ==> Room(s.pmm, 1)
    ensures dst < s.pmm.total
    ensures var n := CloneSlot(s, src, dst, i);
      var added := Present(Entry(n.mem, dst, i)) && FrameOf(Entry(n.mem, dst, i)) == p;
      (Test(n.pmm.bitmap, p) <==> Test(s.pmm.bitmap, p) || added) && (added ==> !Test(s.pmm.bitmap, p))
  {
    CloneSlotMeaning(s, dirs, src, dst, i);
    if Present(Entry(s.mem, src, i)) {
      CloneSlotEntries(s, dirs, src, dst, i);
      AllocMeaning(s.pmm);
    }
  }

  /** The frames cloning marks are exactly the new tables, and they were unmarked before. */
  lemma {:induction false} CloneSlotsMarks(s: Phys, dirs: set<nat>, src: nat, dst: nat, i: nat, p: nat)
    requires Inv(s, dirs) && src in dirs && dst in dirs && src != dst && dst != s.kernelDir && i <= 768
      && p < MAX_FRAMES
    requires forall k :: i <= k < 768 ==> !Present(Entry(s.mem, dst, k))
    requires Room(s.pmm, PresentSlots(s.mem, src, i))
    ensures dst < s.pmm.total
    ensures var r := CloneSlots(s, src, dst, i);
      && (Test(r.pmm.bitmap, p) <==> (Test(s.pmm.bitmap, p) || TableFrom(r.mem, dst, i, p)))
      && (TableFrom(r.mem, dst, i, p) ==> !Test(s.pmm.bitmap, p))
    decreases 768 - i
  {
    hide Entry, Pte, CloneSlot, TableFrom, Test;
    assert dst < s.pmm.total by { assert Taken(s, dst); }
    if i < 768 {
      var n := CloneSlot(s, src, dst, i);
      CloneSlotMeaning(s, dirs, src, dst, i);
      CloneSlotMarks(s, dirs, src, dst, i, p);
      PresentSlotsSame(s.mem, n.mem, src, i + 1);
      CloneSlotsMarks(n, dirs, src, dst, i + 1, p);
      CloneSlotsMeaning(n, dirs, src, dst, i + 1);
      var r := CloneSlots(n, src, dst, i + 1);
      assert Entry(r.mem, dst, i) == Entry(n.mem, dst, i);
      TableFromStep(r.mem, dst, i, p);
    } else {
      assert !TableFrom(s.mem, dst, 768, p) by { NoTableFrom768(s.mem, dst, p); }
    }
  }

  lemma NoTableFrom768(mem: seq<word>, d: nat, p: nat)
    ensures !TableFrom(mem, d, 768, p)
  {
  }

  /** `vmm_clone` marks exactly the new directory and its tables, all unmarked before. */
  ghost predicate NewlyMarked(s: Phys, r: Phys, dst: nat, p: nat)
    requires p < MAX_FRAMES
  {
    var added := p == dst || UserTable(r.mem, dst, p);
    (Test(r.pmm.bitmap, p) <==> Test(s.pmm.bitmap, p) || added) && (added ==> !Test(s.pmm.bitmap, p))
  }

  lemma CloneMarks(s: Phys, dirs: set<nat>, src: nat, p: nat)
    requires Inv(s, dirs) && src in dirs && Room(s.pmm, 1 + PresentSlots(s.mem, src, 0)) && p < MAX_FRAMES
    ensures var (r, dst) := Clone(s, src); NewlyMarked(s, r, dst, p)
  {
    hide Entry, Pte, CloneSlots, Test;
    var (s1, dst) := CreateDirectory(s);
    AllocMeaning(s.pmm);
    CreateMeaning(s, dirs);
    PresentSlotsSame(s.mem, s1.mem, src, 0);
    CloneSlotsMarks(s1, dirs + {dst}, src, dst, 0, p);
    var r := CloneSlots(s1, src, dst, 0);
    assert TableFrom(r.mem, dst, 0, p) <==> UserTable(r.mem, dst, p);
  }

  /** Every user page of d is a managed frame. */
  ghost predicate LeavesManaged(s: Phys, d: nat) {
    forall vp: nat :: vp < USER_PAGES && Present(Pte(s.mem, d, vp)) ==> FrameOf(Pte(s.mem, d, vp)) < s.pmm.total
  }

  lemma CloneManaged(s: Phys, dirs: set<nat>, src: nat, r: Phys, dst: nat)
    requires src in dirs && ClonedTo(s, dirs, src, r, dst) && LeavesManaged(s, src)
    ensures Managed(r, dst) && LeavesInRange(r.mem, dst)
  {
    assert Taken(r, dst) && r.pmm.total <= MAX_FRAMES;
    forall p: nat | Owns(r.mem, dst, p) ensures p < r.pmm.total {
      CloneLeaves(s, dirs, src, r, dst, p);
      if UserTable(r.mem, dst, p) {
        var k: nat :| k < 768 && Present(Entry(r.mem, dst, k)) && FrameOf(Entry(r.mem, dst, k)) == p;
        assert OwnSlot(r, dirs + {dst}, dst, k) && Taken(r, p);
      } else if UserLeaf(s.mem, src, p) {
        var vp: nat :| vp < USER_PAGES && MapsAt(s.mem, src, vp, p);
      }
    }
    ManagedLeaves(r, dst);
  }

  /** The allocator after the clone r, dst of src has been destroyed, frame by frame. */
  lemma DestroyedCloneMarks(s: Phys, dirs: set<nat>, src: nat, r: Phys, dst: nat, p: nat)
    requires src in dirs && ClonedTo(s, dirs, src, r, dst) && LeavesManaged(s, src)
    requires p < MAX_FRAMES && NewlyMarked(s, r, dst, p)
    ensures dst < MAX_FRAMES && LeavesInRange(r.mem, dst)
    ensures Test(Destroy(r, dst).pmm.bitmap, p) <==> Test(s.pmm.bitmap, p) && !UserLeaf(s.mem, src, p)
  {
    CloneManaged(s, dirs, src, r, dst);
    DestroyMeaning(r, dst, p);
    CloneLeaves(s, dirs, src, r, dst, p);
  }

  /** There are frames for a clone of src, and src maps only frames the allocator manages. */
  ghost predicate Clonable(s: Phys, dirs: set<nat>, src: nat) {
    Inv(s, dirs) && src in dirs && Room(s.pmm, 1 + PresentSlots(s.mem, src, 0)) && LeavesManaged(s, src)
  }

  /** Cloning src and destroying the clone at once, as a fork that exits does. */
  ghost function CloneAndDestroy(s: Phys, dirs: set<nat>, src: nat): Pmm
    requires Clonable(s, dirs, src)
  {
    CloneDestroyable(s, dirs, src);
    var (r, dst) := Clone(s, src);
    Destroy(r, dst).pmm
  }

  lemma CloneDestroyable(s: Phys, dirs: set<nat>, src: nat)
    requires Clonable(s, dirs, src)
    ensures var (r, dst) := Clone(s, src); dst < MAX_FRAMES && LeavesInRange(r.mem, dst)
  {
    hide Clone;
    CloneResult(s, dirs, src);
    var (r, dst) := Clone(s, src);
    CloneManaged(s, dirs, src, r, dst);
  }

  /**
   Destroying a clone unmarks every user page of the source, which still maps them: frames
   carry no count of their users.
   */
  lemma DestroyedCloneTakesSourcePages(s: Phys, dirs: set<nat>, src: nat, p: nat)
    requires Clonable(s, dirs, src)
    requires p < MAX_FRAMES
    ensures Test(CloneAndDestroy(s, dirs, src).bitmap, p) <==> Test(s.pmm.bitmap, p) && !UserLeaf(s.mem, src, p)
  {
    hide Clone, Test, UserLeaf, Destroy;
    var (r, dst) := Clone(s, src);
    CloneResult(s, dirs, src);
    CloneMarks(s, dirs, src, p);
    DestroyedCloneMarks(s, dirs, src, r, dst, p);
  }

  lemma CloneAndDestroyCounted(s: Phys, dirs: set<nat>, src: nat)
    requires Clonable(s, dirs, src)
    ensures Counted(CloneAndDestroy(s, dirs, src)) && CloneAndDestroy(s, dirs, src).total == s.pmm.total
  {
    hide Clone, Destroy;
    var (r, dst) := Clone(s, src);
    CloneResult(s, dirs, src);
    CloneManaged(s, dirs, src, r, dst);
    DestroyCounted(r, dst);
  }

  /**
   Cloning and destroying the clone gives the allocator back as it was if and only if the
   source maps no marked frame at any user page.
   */
  lemma CloneDestroyRestores(s: Phys, dirs: set<nat>, src: nat)
    requires Clonable(s, dirs, src)
    ensures CloneAndDestroy(s, dirs, src) == s.pmm <==>
      forall vp: nat :: vp < USER_PAGES && Present(Pte(s.mem, src, vp)) ==>
        !Test(s.pmm.bitmap, FrameOf(Pte(s.mem, src, vp)))
  {
    hide CloneAndDestroy, Entry, Pte, Count;
    var after := CloneAndDestroy(s, dirs, src);
    CloneAndDestroyCounted(s, dirs, src);
    forall p | 0 <= p < MAX_FRAMES
      ensures Test(after.bitmap, p) <==> Test(s.pmm.bitmap, p) && !UserLeaf(s.mem, src, p)
    {
      DestroyedCloneTakesSourcePages(s, dirs, src, p);
    }
    if forall vp: nat :: vp < USER_PAGES && Present(Pte(s.mem, src, vp)) ==>
      !Test(s.pmm.bitmap, FrameOf(Pte(s.mem, src, vp))) {
      MarksDetermine(after, s.pmm);
    } else {
      var vp: nat :| vp < USER_PAGES && Present(Pte(s.mem, src, vp))
        && Test(s.pmm.bitmap, FrameOf(Pte(s.mem, src, vp)));
      var p := FrameOf(Pte(s.mem, src, vp));
      assert MapsAt(s.mem, src, vp, p);
    }
  }

  /** One page on a marked frame is enough for the allocator not to come back as it was. */
  lemma CloneDestroyLoses(s: Phys, dirs: set<nat>, src: nat, vp: nat)
    requires Clonable(s, dirs, src) && vp < USER_PAGES
    requires Present(Pte(s.mem, src, vp)) && Test(s.pmm.bitmap, FrameOf(Pte(s.mem, src, vp)))
    ensures CloneAndDestroy(s, dirs, src) != s.pmm
  {
    hide CloneAndDestroy, Entry, Pte, Clonable, Test;
    CloneDestroyRestores(s, dirs, src);
  }

  /**
   Once the kernel has booted the condition fails for the kernel directory itself, whose first
   pages are the low frames mapped to themselves: after its clone is destroyed, as on the exit of
   the first forked process, its own frame and every other low frame count as free.
   */
  lemma KernelCloneFreesKernel(s: Phys, dirs: set<nat>, f: nat)
    requires Clonable(s, dirs, s.kernelDir)
    requires f < MAX_FRAMES && Direct(s.mem, s.kernelDir, f) && Direct(s.mem, s.kernelDir, s.kernelDir)
    ensures var after := CloneAndDestroy(s, dirs, s.kernelDir); !Test(after.bitmap, f) && after != s.pmm
  {
    hide CloneAndDestroy, Entry, Pte, Count;
    assert MapsAt(s.mem, s.kernelDir, f, f) && MapsAt(s.mem, s.kernelDir, s.kernelDir, s.kernelDir);
    DestroyedCloneTakesSourcePages(s, dirs, s.kernelDir, f);
    DestroyedCloneTakesSourcePages(s, dirs, s.kernelDir, s.kernelDir);
    KernelInDirs(s, dirs);
  }
}
