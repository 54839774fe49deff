/**
 What a page may be used for.  The processor takes the rights of a page from both levels: the
 entry of its table in the directory and its own entry in that table.
 */
module PagingRights {
  import opened Bits
  import opened Frames
  import opened Paging
  import opened PagingLaws
  import opened PagingClone
  import opened PagingDestroy

  predicate UserBit(e: nat) { Bit(e, 2) }

  /** Page vp of directory d is mapped, and writable at both levels. */
  predicate MayWrite(mem: seq<word>, d: nat, vp: nat) {
    Present(Pte(mem, d, vp)) && Writable(Entry(mem, d, vp / 1024)) && Writable(Pte(mem, d, vp))
  }

  /** Page vp of directory d is mapped, and open to user mode at both levels. */
  predicate MayUse(mem: seq<word>, d: nat, vp: nat) {
    Present(Pte(mem, d, vp)) && UserBit(Entry(mem, d, vp / 1024)) && UserBit(Pte(mem, d, vp))
  }

  /** No table is entered read-only: whether a page is writable is its own entry's affair. */
  ghost predicate TablesOpen(s: Phys, dirs: set<nat>) {
    forall d: nat, i: nat :: d in dirs && i < 1024 && Present(Entry(s.mem, d, i)) ==> Writable(Entry(s.mem, d, i))
  }

  // ---- vmm_map

  lemma MapEntries(s: Phys, dirs: set<nat>, d: nat, vp: nat, phys: word, flags: word)
    requires Inv(s, dirs) && d in dirs && vp < ALL_PAGES
    ensures Backed(s, d, vp)
    ensures forall c: nat, k: nat :: c in dirs && k < 1024 && !(NeedsTable(s, d, vp) && c == d && k == vp / 1024) ==>
      Entry(MapPage(s, d, vp, phys, flags).mem, c, k) == Entry(s.mem, c, k)
    ensures NeedsTable(s, d, vp) ==>
      Alloc(s.pmm).1 < MAX_FRAMES
      && Entry(MapPage(s, d, vp, phys, flags).mem, d, vp / 1024) == PdeOf(Alloc(s.pmm).1, flags)
  {
    MapAllowed(s, dirs, d, vp);
    if NeedsTable(s, d, vp) {
      if Room(s.pmm, 1) { FreshFrame(s, dirs); } else { AllocFull(s.pmm); }
      assert forall c <- dirs :: Taken(s, c);
    } else {
      StoreMeaning(s, dirs, d, vp, PteOf(phys, flags));
    }
  }

  /**
   A page whose slot is empty gets a table that is entered present, writable, open to user mode if
   and only if the page is, and with no other flag.
   */
  lemma NewTableEntry(s: Phys, dirs: set<nat>, d: nat, vp: nat, phys: word, flags: word)
    requires Inv(s, dirs) && d in dirs && vp < ALL_PAGES && NeedsTable(s, d, vp)
    ensures Backed(s, d, vp)
    ensures var e := Entry(MapPage(s, d, vp, phys, flags).mem, d, vp / 1024);
      && FrameOf(e) == Alloc(s.pmm).1 && Present(e) && Writable(e) && (UserBit(e) <==> Bit(flags, 2))
      && (forall k: nat :: 2 < k < 12 ==> !Bit(e, k))
  {
    MapEntries(s, dirs, d, vp, phys, flags);
    var t := Alloc(s.pmm).1;
    forall k: nat | k < 12 ensures Bit(PdeOf(t, flags), k) <==> k == 0 || k == 1 || (k == 2 && Bit(flags, 2)) {
      PdeOfBits(t, flags, k);
    }
  }

  /**
   Who may write and who may use each page of each directory after `vmm_map`: the mapped page as its
   flags say, provided a table that was there already admits it; all others as before.
   */
  lemma MapRights(s: Phys, dirs: set<nat>, d: nat, vp: nat, phys: word, flags: word, c: nat, up: nat)
    requires Inv(s, dirs) && d in dirs && vp < ALL_PAGES && (NeedsTable(s, d, vp) ==> Room(s.pmm, 1))
    requires c in dirs && up < ALL_PAGES
    ensures Backed(s, d, vp)
    ensures MayWrite(MapPage(s, d, vp, phys, flags).mem, c, up) <==>
      if up == vp && SeesTable(s, c, d, vp / 1024)
      then Bit(flags, 1) && (NeedsTable(s, d, vp) || Writable(Entry(s.mem, c, vp / 1024)))
      else MayWrite(s.mem, c, up)
    ensures MayUse(MapPage(s, d, vp, phys, flags).mem, c, up) <==>
      if up == vp && SeesTable(s, c, d, vp / 1024)
      then Bit(flags, 2) && (NeedsTable(s, d, vp) || UserBit(Entry(s.mem, c, vp / 1024)))
      else MayUse(s.mem, c, up)
  {
    hide Entry, Pte, MapPage, Alloc, PteOf, Bit;
    MapMeaning(s, dirs, d, vp, phys, flags);
    MapEntries(s, dirs, d, vp, phys, flags);
    if NeedsTable(s, d, vp) { NewTableEntry(s, dirs, d, vp, phys, flags); }
    PteOfBits(phys, flags, 0);
    PteOfBits(phys, flags, 1);
    PteOfBits(phys, flags, 2);
    if up / 1024 == vp / 1024 { EmptySlot(s, c, up); }
  }

  /** Without a table no page of the slot is mapped. */
  lemma EmptySlot(s: Phys, c: nat, up: nat)
    ensures !Present(Entry(s.mem, c, up / 1024)) ==> !Present(Pte(s.mem, c, up))
  {
    BitZero(0);
  }

  lemma MapKeepsOpen(s: Phys, dirs: set<nat>, d: nat, vp: nat, phys: word, flags: word)
    requires Inv(s, dirs) && d in dirs && vp < ALL_PAGES && TablesOpen(s, dirs)
    ensures Backed(s, d, vp) && TablesOpen(MapPage(s, d, vp, phys, flags), dirs)
  {
    hide Entry, MapPage, Alloc, Bit;
    MapEntries(s, dirs, d, vp, phys, flags);
    if NeedsTable(s, d, vp) { NewTableEntry(s, dirs, d, vp, phys, flags); }
  }

  /**
   Two pages of one empty slot, the first mapped without the user flag: user mode never reaches the
   second one, whatever its flags.  The other way round it does.
   */
  lemma UserPageBehindKernelTable(s: Phys, dirs: set<nat>, d: nat, vp: nat, up: nat, phys: word)
    requires Inv(s, dirs) && d in dirs && MayMap(s, d, vp) && NeedsTable(s, d, vp) && Room(s.pmm, 1)
    requires vp != up && vp / 1024 == up / 1024
    ensures Backed(s, d, vp) && Backed(s, d, up)
    ensures var k, u := MapPage(s, d, vp, phys, PRESENT + WRITE), MapPage(s, d, up, phys, PRESENT + WRITE + USER);
      && Inv(k, dirs) && Backed(k, d, up) && !MayUse(MapPage(k, d, up, phys, PRESENT + WRITE + USER).mem, d, up)
      && Inv(u, dirs) && Backed(u, d, vp) && MayUse(MapPage(u, d, vp, phys, PRESENT + WRITE).mem, d, up)
  {
    UserFlag();
    hide Entry, Pte, MapPage, Alloc, PteOf, Bit;
    MapMeaning(s, dirs, d, vp, phys, PRESENT + WRITE);
    MapMeaning(s, dirs, d, up, phys, PRESENT + WRITE + USER);
    NewTableEntry(s, dirs, d, vp, phys, PRESENT + WRITE);
    MapRights(s, dirs, d, up, phys, PRESENT + WRITE + USER, d, up);
    NewTableEntry(s, dirs, d, up, phys, PRESENT + WRITE + USER);
    var k, u := MapPage(s, d, vp, phys, PRESENT + WRITE), MapPage(s, d, up, phys, PRESENT + WRITE + USER);
    MapRights(k, dirs, d, up, phys, PRESENT + WRITE + USER, d, up);
    MapRights(u, dirs, d, vp, phys, PRESENT + WRITE, d, up);
  }

  lemma UserFlag()
    ensures Bit(PRESENT + WRITE, 1) && !Bit(PRESENT + WRITE, 2) && Bit(PRESENT + WRITE + USER, 2)
  {
    assert Bit(3, 2) <==> Bit(1, 1);
  }

  // ---- the other operations

  lemma UnmapKeepsOpen(s: Phys, dirs: set<nat>, d: nat, vp: nat)
    requires Inv(s, dirs) && d in dirs && vp < ALL_PAGES && TablesOpen(s, dirs)
    ensures Backed(s, d, vp) && TablesOpen(UnmapPage(s, d, vp), dirs)
  {
    MapAllowed(s, dirs, d, vp);
    if !NeedsTable(s, d, vp) { StoreMeaning(s, dirs, d, vp, 0); }
  }

  lemma CreateKeepsOpen(s: Phys, dirs: set<nat>)
    requires Inv(s, dirs) && Room(s.pmm, 1) && TablesOpen(s, dirs)
    ensures var (r, d) := CreateDirectory(s); TablesOpen(r, dirs + {d})
  {
    hide Entry, CreateDirectory, Alloc, Bit;
    BitZero(0);
    CreateMeaning(s, dirs);
  }

  lemma DestroyKeepsOpen(s: Phys, dirs: set<nat>, d: nat)
    requires TablesOpen(s, dirs) && d < MAX_FRAMES && LeavesInRange(s.mem, d)
    ensures TablesOpen(Destroy(s, d), dirs - {d})
  {
  }

  /** The copy's tables are entered with the flags of the source's. */
  lemma {:induction false} CloneSlotsFlags(s: Phys, dirs: set<nat>, src: nat, dst: nat, i: nat, k: nat)
    requires Inv(s, dirs) && src in dirs && dst in dirs && src != dst && dst != s.kernelDir && i <= k < 768
    requires forall k :: i <= k < 768 ==> !Present(Entry(s.mem, dst, k))
    requires Room(s.pmm, PresentSlots(s.mem, src, i))
    ensures dst < s.pmm.total
    ensures var e := Entry(CloneSlots(s, src, dst, i).mem, dst, k);
      if Present(Entry(s.mem, src, k)) then e % 4096 == Entry(s.mem, src, k) % 4096 else !Present(e)
    decreases 768 - i
  {
    assert dst < s.pmm.total by { assert Taken(s, dst); }
    hide Entry, Pte, CloneSlot, Put, Redirect, Bit;
    var n := CloneSlot(s, src, dst, i);
    CloneSlotMeaning(s, dirs, src, dst, i);
    PresentSlotsSame(s.mem, n.mem, src, i + 1);
    if i < k {
      CloneSlotsFlags(n, dirs, src, dst, i + 1, k);
    } else {
      CloneSlotsMeaning(n, dirs, src, dst, i + 1);
      if Present(Entry(s.mem, src, i)) { CloneSlotEntries(s, dirs, src, dst, i); }
    }
  }

  lemma CloneFlags(s: Phys, dirs: set<nat>, src: nat, k: nat)
    requires Inv(s, dirs) && src in dirs && Room(s.pmm, 1 + PresentSlots(s.mem, src, 0)) && k < 768
    ensures var (r, dst) := Clone(s, src);
      && (Present(Entry(r.mem, dst, k)) <==> Present(Entry(s.mem, src, k)))
      && (Present(Entry(s.mem, src, k)) ==> Entry(r.mem, dst, k) % 4096 == Entry(s.mem, src, k) % 4096)
  {
    hide Entry, Pte, CreateDirectory, CloneSlots;
    var (s1, dst) := CreateDirectory(s);
    CreateMeaning(s, dirs);
    PresentSlotsSame(s.mem, s1.mem, src, 0);
    CloneSlotsFlags(s1, dirs + {dst}, src, dst, 0, k);
    FlagBit(Entry(s.mem, src, k), 0);
    FlagBit(Entry(Clone(s, src).0.mem, dst, k), 0);
  }

  /**
   `vmm_clone` and the rights: user pages are open to user mode on both sides exactly if they were
   on the source's, and nobody may write them; every other page is as before.
   */
  lemma CloneRights(s: Phys, dirs: set<nat>, src: nat, c: nat, up: nat)
    requires Inv(s, dirs) && src in dirs && Room(s.pmm, 1 + PresentSlots(s.mem, src, 0)) && up < ALL_PAGES
    ensures var (r, dst) := Clone(s, src);
      && (up < USER_PAGES ==>
        && (MayUse(r.mem, src, up) <==> MayUse(s.mem, src, up)) && (MayUse(r.mem, dst, up) <==> MayUse(s.mem, src, up))
        && !MayWrite(r.mem, src, up) && !MayWrite(r.mem, dst, up))
      && (c in dirs && (c != src || up >= USER_PAGES) ==>
        (MayUse(r.mem, c, up) <==> MayUse(s.mem, c, up)) && (MayWrite(r.mem, c, up) <==> MayWrite(s.mem, c, up)))
  {
    hide Entry, Pte, Clone, Bit;
    CloneResult(s, dirs, src);
    if up < USER_PAGES {
      CloneSharesPages(s, dirs, src, up);
      var (r, dst) := Clone(s, src);
      SharedRights(Pte(s.mem, src, up), Pte(r.mem, src, up), Pte(r.mem, dst, up));
      CloneFlags(s, dirs, src, up / 1024);
      EmptySlot(s, src, up);
      FlagBit(Entry(s.mem, src, up / 1024), 2);
      FlagBit(Entry(r.mem, dst, up / 1024), 2);
    }
  }

  lemma SharedRights(before: word, there: word, here: word)
    requires SharedFrom(before, there, here)
    ensures Present(there) <==> Present(before)
    ensures Present(here) <==> Present(before)
    ensures Present(before) ==> !Writable(there) && !Writable(here)
    ensures Present(before) ==> (UserBit(there) <==> UserBit(before)) && (UserBit(here) <==> UserBit(before))
  {
    BitZero(0);
  }

  lemma CloneKeepsOpen(s: Phys, dirs: set<nat>, src: nat)
    requires Inv(s, dirs) && src in dirs && Room(s.pmm, 1 + PresentSlots(s.mem, src, 0)) && TablesOpen(s, dirs)
    ensures var (r, dst) := Clone(s, src); TablesOpen(r, dirs + {dst})
  {
    hide Entry, Pte, Clone, Bit;
    CloneResult(s, dirs, src);
    var (r, dst) := Clone(s, src);
    forall i: nat | i < 1024 && Present(Entry(r.mem, dst, i)) ensures Writable(Entry(r.mem, dst, i)) {
      if i < 768 {
        CloneFlags(s, dirs, src, i);
        FlagBit(Entry(s.mem, src, i), 1);
        FlagBit(Entry(r.mem, dst, i), 1);
      } else {
        assert Entry(r.mem, dst, i) == Entry(s.mem, s.kernelDir, i);
      }
    }
  }
}
