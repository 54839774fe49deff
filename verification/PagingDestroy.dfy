/**
 `vmm_destroy_directory`: which frames it gives back, when that restores the bitmap, and what
 happens when the pages it frees are not the directory's alone.
 */
module PagingDestroy {
  import opened Bits
  import opened Frames
  import opened Paging
  import opened PagingLaws

  /** p backs a present entry of table t at index j or later. */
  ghost predicate BacksEntry(mem: seq<word>, t: nat, j: nat, p: nat) {
    exists k: nat :: j <= k < 1024 && Present(Entry(mem, t, k)) && FrameOf(Entry(mem, t, k)) == p
  }

  ghost predicate SlotGives(mem: seq<word>, d: nat, i: nat, p: nat) {
    Present(Entry(mem, d, i)) && (FrameOf(Entry(mem, d, i)) == p || BacksEntry(mem, FrameOf(Entry(mem, d, i)), 0, p))
  }

  /** p is the table of a user slot of d. */
  ghost predicate UserTable(mem: seq<word>, d: nat, p: nat) {
    exists i: nat :: i < 768 && Present(Entry(mem, d, i)) && FrameOf(Entry(mem, d, i)) == p
  }

  /** p is mapped at user page vp of d. */
  predicate MapsAt(mem: seq<word>, d: nat, vp: nat, p: nat) {
    Present(Pte(mem, d, vp)) && FrameOf(Pte(mem, d, vp)) == p
  }

  /** p backs some user page of d. */
  ghost predicate UserLeaf(mem: seq<word>, d: nat, p: nat) {
    exists vp: nat :: vp < USER_PAGES && MapsAt(mem, d, vp, p)
  }

  /** The frames a directory would give back. */
  ghost predicate Owns(mem: seq<word>, d: nat, p: nat) {
    p == d || UserTable(mem, d, p) || UserLeaf(mem, d, p)
  }

  lemma {:induction false} FreePagesMeaning(m: Pmm, mem: seq<word>, t: nat, j: nat, p: nat)
    requires j <= 1024 && p < MAX_FRAMES && TableInRange(mem, t)
    ensures Test(FreePages(m, mem, t, j).bitmap, p) <==> Test(m.bitmap, p) && !BacksEntry(mem, t, j, p)
    decreases 1024 - j
  {
    if j < 1024 {
      var f := FrameOf(Entry(mem, t, j));
      if Present(Entry(mem, t, j)) {
        ReleaseMeaning(m, f);
        FreePagesMeaning(Release(m, f), mem, t, j + 1, p);
      } else {
        FreePagesMeaning(m, mem, t, j + 1, p);
      }
      assert BacksEntry(mem, t, j, p) <==> (Present(Entry(mem, t, j)) && f == p) || BacksEntry(mem, t, j + 1, p);
    }
  }

  lemma {:induction false} FreeSlotsMeaning(m: Pmm, mem: seq<word>, d: nat, i: nat, p: nat)
    requires i <= 768 && p < MAX_FRAMES && LeavesInRange(mem, d)
    ensures Test(FreeSlots(m, mem, d, i).bitmap, p) <==>
      Test(m.bitmap, p) && !(exists k: nat :: i <= k < 768 && SlotGives(mem, d, k, p))
    decreases 768 - i
  {
    if i < 768 {
      if Present(Entry(mem, d, i)) {
        var t := FrameOf(Entry(mem, d, i));
        FreePagesMeaning(m, mem, t, 0, p);
        ReleaseMeaning(FreePages(m, mem, t, 0), t);
        FreeSlotsMeaning(Release(FreePages(m, mem, t, 0), t), mem, d, i + 1, p);
      } else {
        FreeSlotsMeaning(m, mem, d, i + 1, p);
      }
      assert (exists k: nat :: i <= k < 768 && SlotGives(mem, d, k, p)) <==>
        SlotGives(mem, d, i, p) || (exists k: nat :: i + 1 <= k < 768 && SlotGives(mem, d, k, p));
    }
  }

  lemma SlotsGiveOwned(mem: seq<word>, d: nat, p: nat)
    ensures (exists k: nat :: k < 768 && SlotGives(mem, d, k, p)) <==> UserTable(mem, d, p) || UserLeaf(mem, d, p)
  {
    if k: nat :| k < 768 && SlotGives(mem, d, k, p) {
      var t := FrameOf(Entry(mem, d, k));
      if t != p {
        var j: nat :| j < 1024 && Present(Entry(mem, t, j)) && FrameOf(Entry(mem, t, j)) == p;
        var vp := 1024 * k + j;
        assert vp / 1024 == k && vp % 1024 == j;
        assert MapsAt(mem, d, vp, p);
      }
    }
    if vp: nat :| vp < USER_PAGES && MapsAt(mem, d, vp, p) {
      BitZero(0);
      var k, j := vp / 1024, vp % 1024;
      assert BacksEntry(mem, FrameOf(Entry(mem, d, k)), 0, p);
      assert SlotGives(mem, d, k, p);
    }
    if k: nat :| k < 768 && Present(Entry(mem, d, k)) && FrameOf(Entry(mem, d, k)) == p {
      assert SlotGives(mem, d, k, p);
    }
  }

  /** `vmm_destroy_directory` unmarks exactly the directory, its user tables and its user pages. */
  lemma DestroyMeaning(s: Phys, d: nat, p: nat)
    requires d < MAX_FRAMES && p < MAX_FRAMES && LeavesInRange(s.mem, d)
    ensures Destroy(s, d).mem == s.mem
    ensures Test(Destroy(s, d).pmm.bitmap, p) <==> Test(s.pmm.bitmap, p) && !Owns(s.mem, d, p)
  {
    FreeSlotsMeaning(s.pmm, s.mem, d, 0, p);
    ReleaseMeaning(FreeSlots(s.pmm, s.mem, d, 0), d);
    SlotsGiveOwned(s.mem, d, p);
  }

  // ---- the count of used frames

  /** Every table and user page of d is a frame the allocator manages. */
  ghost predicate Managed(s: Phys, d: nat) {
    && s.pmm.total <= MAX_FRAMES && d < s.pmm.total
    && (forall p: nat :: Owns(s.mem, d, p) ==> p < s.pmm.total)
  }

  lemma ManagedLeaves(s: Phys, d: nat)
    requires Managed(s, d)
    ensures LeavesInRange(s.mem, d)
  {
    forall i: nat | i < 768 && Present(Entry(s.mem, d, i)) ensures TableInRange(s.mem, Table(s, d, i)) {
      ManagedEntry(s, d, i, 0);
      var t := Table(s, d, i);
      forall j: nat | j < 1024 && Present(Entry(s.mem, t, j)) ensures FrameOf(Entry(s.mem, t, j)) < MAX_FRAMES {
        ManagedEntry(s, d, i, j);
      }
    }
  }

  lemma ManagedEntry(s: Phys, d: nat, i: nat, j: nat)
    requires Managed(s, d) && i < 768 && j < 1024 && Present(Entry(s.mem, d, i))
    ensures FrameOf(Entry(s.mem, d, i)) < s.pmm.total
    ensures Present(Entry(s.mem, FrameOf(Entry(s.mem, d, i)), j)) ==>
      FrameOf(Entry(s.mem, FrameOf(Entry(s.mem, d, i)), j)) < s.pmm.total
  {
    var t := FrameOf(Entry(s.mem, d, i));
    assert UserTable(s.mem, d, t) && Owns(s.mem, d, t);
    if Present(Entry(s.mem, t, j)) {
      var vp, p := 1024 * i + j, FrameOf(Entry(s.mem, t, j));
      assert vp / 1024 == i && vp % 1024 == j;
      assert MapsAt(s.mem, d, vp, p);
      assert Owns(s.mem, d, p);
    }
  }

  lemma {:induction false} FreePagesCounted(s: Phys, m: Pmm, d: nat, i: nat, j: nat)
    requires Managed(s, d) && m.total == s.pmm.total && Counted(m)
    requires i < 768 && j <= 1024 && Present(Entry(s.mem, d, i))
    ensures TableInRange(s.mem, Table(s, d, i))
    ensures Counted(FreePages(m, s.mem, Table(s, d, i), j)) && FreePages(m, s.mem, Table(s, d, i), j).total == m.total
    decreases 1024 - j
  {
    var t := Table(s, d, i);
    ManagedLeaves(s, d);
    if j < 1024 {
      if Present(Entry(s.mem, t, j)) {
        ManagedEntry(s, d, i, j);
        var f := FrameOf(Entry(s.mem, t, j));
        ReleaseMeaning(m, f);
        FreePagesCounted(s, Release(m, f), d, i, j + 1);
      } else {
        FreePagesCounted(s, m, d, i, j + 1);
      }
    }
  }

  lemma {:induction false} FreeSlotsCounted(s: Phys, m: Pmm, d: nat, i: nat)
    requires Managed(s, d) && LeavesInRange(s.mem, d) && m.total == s.pmm.total && Counted(m) && i <= 768
    ensures Counted(FreeSlots(m, s.mem, d, i)) && FreeSlots(m, s.mem, d, i).total == m.total
    decreases 768 - i
  {
    if i < 768 {
      if Present(Entry(s.mem, d, i)) {
        var t := Table(s, d, i);
        ManagedEntry(s, d, i, 0);
        FreePagesCounted(s, m, d, i, 0);
        var n := FreePages(m, s.mem, t, 0);
        ReleaseMeaning(n, t);
        FreeSlotsCounted(s, Release(n, t), d, i + 1);
      } else {
        FreeSlotsCounted(s, m, d, i + 1);
      }
    }
  }

  lemma DestroyCounted(s: Phys, d: nat)
    requires Managed(s, d) && Counted(s.pmm)
    ensures LeavesInRange(s.mem, d) && Counted(Destroy(s, d).pmm) && Destroy(s, d).pmm.total == s.pmm.total
  {
    ManagedLeaves(s, d);
    FreeSlotsCounted(s, s.pmm, d, 0);
    ReleaseMeaning(FreeSlots(s.pmm, s.mem, d, 0), d);
  }

  // ---- the other directories

  /** No page of d is a directory or a table, or frame 0: what d maps is d's alone. */
  ghost predicate MapsNoTables(s: Phys, dirs: set<nat>, d: nat) {
    forall vp: nat :: vp < USER_PAGES && Present(Pte(s.mem, d, vp)) ==>
      var p := FrameOf(Pte(s.mem, d, vp));
      p != 0 && p !in dirs && (forall c: nat, i: nat :: OwnSlot(s, dirs, c, i) ==> Table(s, c, i) != p)
  }

  /** Destroying a directory leaves the others intact, and the non-aliasing invariant with them. */
  lemma DestroyKeepsInv(s: Phys, dirs: set<nat>, d: nat)
    requires Inv(s, dirs) && d in dirs && d != s.kernelDir && Managed(s, d) && MapsNoTables(s, dirs, d)
    ensures LeavesInRange(s.mem, d) && Inv(Destroy(s, d), dirs - {d})
    ensures SameTranslations(s, Destroy(s, d), dirs - {d})
  {
    DestroyCounted(s, d);
    var r, rest := Destroy(s, d), dirs - {d};
    forall c: nat | c in rest ensures Taken(r, c) {
      assert Taken(s, c);
      assert forall i: nat :: i < 768 && Present(Entry(s.mem, d, i)) ==> OwnSlot(s, dirs, d, i) && Table(s, d, i) != c;
      DestroyMeaning(s, d, c);
    }
    forall c: nat, i: nat | OwnSlot(r, rest, c, i) ensures Taken(r, Table(r, c, i)) && Table(r, c, i) !in rest {
      var t := Table(s, c, i);
      assert OwnSlot(s, dirs, c, i) && Taken(s, t);
      assert forall k: nat :: k < 768 && Present(Entry(s.mem, d, k)) ==> OwnSlot(s, dirs, d, k) && Table(s, d, k) != t;
      DestroyMeaning(s, d, t);
    }
    assert Test(r.pmm.bitmap, 0) by {
      assert forall k: nat :: k < 768 && Present(Entry(s.mem, d, k)) ==> OwnSlot(s, dirs, d, k) && Table(s, d, k) != 0;
      assert Taken(s, d);
      DestroyMeaning(s, d, 0);
    }
    assert forall c: nat, i: nat :: OwnSlot(r, rest, c, i) ==> OwnSlot(s, dirs, c, i);
  }
}
