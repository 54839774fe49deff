/**
 Directories and tables as the code reaches them once paging is on: through pointers that are
 physical addresses, so that an access hits the frame it means only if the active directory
 translates the frame's own page to the frame.  `vmm_init` arranges that for the first 4 MB.
 Which calls go through, and which fault?
 */
module PagingAccess {
  import opened Bits
  import opened Frames
  import opened Paging
  import opened PagingLaws
  import opened PagingClone
  import opened PagingDestroy

  /** Under active directory a, a pointer to frame f reaches frame f. */
  predicate Direct(mem: seq<word>, a: nat, f: nat) {
    Present(Pte(mem, a, f)) && FrameOf(Pte(mem, a, f)) == f
  }

  datatype Outcome = Done(state: Phys) | Fault

  // ---- the calls, access by access

  /** `vmm_map` under active directory a. */
  function TryMap(s: Phys, a: nat, d: nat, vp: nat, phys: word, flags: word): Outcome
    requires Backed(s, d, vp)
  {
    var i, j, w := vp / 1024, vp % 1024, PteOf(phys, flags);
    if !Direct(s.mem, a, d) then Fault
    else if Present(Entry(s.mem, d, i)) then
      var t := FrameOf(Entry(s.mem, d, i));
      if Direct(s.mem, a, t) then Done(s.(mem := Put(s.mem, t, j, w))) else Fault
    else
      var (m, t) := Alloc(s.pmm);
      var cleared := Zero(s.mem, t);
      if !Direct(s.mem, a, t) || !Direct(cleared, a, d) then Fault
      else
        var linked := Put(cleared, d, i, PdeOf(t, flags));
        if Direct(linked, a, t) then Done(s.(pmm := m, mem := Put(linked, t, j, w))) else Fault
  }

  /** `vmm_create_directory` under active directory a. */
  function TryCreate(s: Phys, a: nat): Outcome
    requires s.pmm.total <= MAX_FRAMES
  {
    var (m, d) := Alloc(s.pmm);
    if !Direct(s.mem, a, d) then Fault
    else if !Direct(Zero(s.mem, d), a, s.kernelDir) then Fault
    else Done(s.(pmm := m, mem := CopyUpper(Zero(s.mem, d), d, s.kernelDir)))
  }

  /** One slot of `vmm_clone` under active directory a. */
  function TryCloneSlot(s: Phys, a: nat, src: nat, dst: nat, i: nat): Outcome
    requires s.pmm.total <= MAX_FRAMES && |s.mem| == 1024 * s.pmm.total && dst < s.pmm.total && i < 768
  {
    var e := Entry(s.mem, src, i);
    if !Direct(s.mem, a, src) then Fault
    else if !Present(e) then Done(s)
    else
      var (m, u) := Alloc(s.pmm);
      var cleared := Zero(s.mem, u);
      if !Direct(s.mem, a, u) || !Direct(cleared, a, FrameOf(e)) || !Direct(cleared, a, u) then Fault
      else
        var shared := ShareTable(cleared, FrameOf(e), u);
        if !Direct(shared, a, src) || !Direct(shared, a, dst) then Fault
        else Done(s.(pmm := m, mem := Put(shared, dst, i, Redirect(u, e))))
  }

  function TryCloneSlots(s: Phys, a: nat, src: nat, dst: nat, i: nat): Outcome
    requires s.pmm.total <= MAX_FRAMES && |s.mem| == 1024 * s.pmm.total && dst < s.pmm.total && i <= 768
    decreases 768 - i
  {
    if i == 768 then Done(s)
    else
      match TryCloneSlot(s, a, src, dst, i)
      case Fault => Fault
      case Done(n) => TryCloneSlots(n, a, src, dst, i + 1)
  }

  /** `vmm_clone` under active directory a. */
  function TryClone(s: Phys, a: nat, src: nat): Outcome
    requires s.pmm.total <= MAX_FRAMES && |s.mem| == 1024 * s.pmm.total && s.pmm.total > 0
  {
    match TryCreate(s, a)
    case Fault => Fault
    case Done(s1) => TryCloneSlots(s1, a, src, Alloc(s.pmm).1, 0)
  }

  /** `vmm_destroy_directory` reads the directory and its tables. */
  ghost function TryDestroy(s: Phys, a: nat, d: nat): Outcome {
    if d < MAX_FRAMES && LeavesInRange(s.mem, d) && Direct(s.mem, a, d)
      && (forall i: nat :: i < 768 && Present(Entry(s.mem, d, i)) ==> Direct(s.mem, a, Table(s, d, i)))
    then Done(Destroy(s, d)) else Fault
  }

  // ---- what disturbs a translation

  /** Clearing a frame that is no directory and no table disturbs no translation. */
  lemma ClearKeepsPte(s: Phys, dirs: set<nat>, a: nat, t: nat, up: nat)
    requires Inv(s, dirs) && a in dirs && t !in dirs && up < ALL_PAGES
    requires forall i: nat :: i < 1024 && Present(Entry(s.mem, a, i)) ==> Table(s, a, i) != t
    ensures Pte(Zero(s.mem, t), a, up) == Pte(s.mem, a, up)
  {
  }

  /** The frame of the table that mapping page vp of d stores into. */
  function TableFor(s: Phys, d: nat, vp: nat): nat
    requires s.pmm.total <= MAX_FRAMES
  {
    if NeedsTable(s, d, vp) then Alloc(s.pmm).1 else Table(s, d, vp / 1024)
  }

  /**
   `vmm_map` does what `MapPage` says if and only if the active directory reaches the directory
   and the page's table, or the frame that becomes its table; otherwise it faults.
   */
  lemma MapGoesThrough(s: Phys, dirs: set<nat>, a: nat, d: nat, vp: nat, phys: word, flags: word)
    requires Inv(s, dirs) && a in dirs && d in dirs && vp < ALL_PAGES && (NeedsTable(s, d, vp) ==> Room(s.pmm, 1))
    ensures Backed(s, d, vp)
    ensures TryMap(s, a, d, vp, phys, flags) ==
      if Direct(s.mem, a, d) && Direct(s.mem, a, TableFor(s, d, vp)) then Done(MapPage(s, d, vp, phys, flags))
        else Fault
  {
    MapAllowed(s, dirs, d, vp);
    if NeedsTable(s, d, vp) {
      var t := Alloc(s.pmm).1;
      FreshFrame(s, dirs);
      PdeOfPresent(t, flags);
      ClearKeepsPte(s, dirs, a, t, d);
      WithTablePte(s, dirs, d, vp / 1024, PdeOf(t, flags), a, t);
    }
  }

  /** A new directory is written if and only if its frame, the lowest free one, and the kernel directory are reached. */
  lemma CreateGoesThrough(s: Phys, dirs: set<nat>, a: nat)
    requires Inv(s, dirs) && a in dirs && Room(s.pmm, 1)
    ensures TryCreate(s, a) ==
      if Direct(s.mem, a, Alloc(s.pmm).1) && Direct(s.mem, a, s.kernelDir) then Done(CreateDirectory(s).0) else Fault
  {
    FreshFrame(s, dirs);
    assert Taken(s, s.kernelDir);
    ClearKeepsPte(s, dirs, a, Alloc(s.pmm).1, s.kernelDir);
  }

  /** `vmm_unmap` reaches the directory and the page's table, if there is one. */
  predicate UnmapReaches(mem: seq<word>, a: nat, d: nat, vp: nat) {
    Direct(mem, a, d) && (Present(Entry(mem, d, vp / 1024)) ==> Direct(mem, a, FrameOf(Entry(mem, d, vp / 1024))))
  }

  /** Frame t is neither directory a nor a table of a: writing to it changes no translation under a. */
  ghost predicate Aside(mem: seq<word>, a: nat, t: nat) {
    t != a && forall i: nat :: i < 1024 && Present(Entry(mem, a, i)) ==> FrameOf(Entry(mem, a, i)) != t
  }

  lemma AsideKeepsPte(mem: seq<word>, now: seq<word>, a: nat, t: nat, up: nat)
    requires Aside(mem, a, t) && up < ALL_PAGES
    requires forall g: nat, k: nat :: k < 1024 && g != t && g * 1024 + k < |mem| ==>
      Entry(now, g, k) == Entry(mem, g, k)
    requires |now| == |mem|
    ensures Pte(now, a, up) == Pte(mem, a, up)
  {
  }

  lemma FreshIsAside(s: Phys, dirs: set<nat>, a: nat)
    requires Inv(s, dirs) && a in dirs && Room(s.pmm, 1)
    ensures Aside(s.mem, a, Alloc(s.pmm).1)
  {
    FreshFrame(s, dirs);
  }

  // ---- the first 4 MB

  /** Active directory a maps the first 4 MB to themselves. */
  ghost predicate LowMapped(mem: seq<word>, a: nat) { forall f: nat :: f < 1024 ==> Direct(mem, a, f) }

  /** ... and reaches no frame beyond. */
  ghost predicate OnlyLow(mem: seq<word>, a: nat) {
    forall f: nat :: f < MAX_FRAMES ==> (Direct(mem, a, f) <==> f < 1024)
  }

  /** No frame from 4 MB up that is still to be allocated is within reach. */
  ghost predicate FreeIsFar(s: Phys, a: nat)
    requires s.pmm.total <= MAX_FRAMES
  {
    forall f: nat :: 1024 <= f < s.pmm.total && !Test(s.pmm.bitmap, f) ==> !Direct(s.mem, a, f)
  }

  /** Every directory and every table lies below 4 MB. */
  ghost predicate AllLow(s: Phys, dirs: set<nat>) {
    && (forall d <- dirs :: d < 1024)
    && (forall d: nat, i: nat :: d in dirs && i < 1024 && Present(Entry(s.mem, d, i)) ==> Table(s, d, i) < 1024)
  }

  /** From active directory a the kernel reaches everything it keeps in directories and tables. */
  ghost predicate Reachable(s: Phys, dirs: set<nat>, a: nat) {
    a in dirs && LowMapped(s.mem, a) && AllLow(s, dirs)
  }

  /** The kernel reaches what it keeps, and can reach of what it will allocate only what is low. */
  ghost predicate Bounded(s: Phys, dirs: set<nat>, a: nat)
    requires s.pmm.total <= MAX_FRAMES
  {
    Reachable(s, dirs, a) && FreeIsFar(s, a)
  }

  /** Mapping keeps everything reachable if a new table is low and no page below 4 MB is remapped. */
  lemma MapKeepsReachable(s: Phys, dirs: set<nat>, a: nat, d: nat, vp: nat, phys: word, flags: word)
    requires Inv(s, dirs) && Reachable(s, dirs, a) && d in dirs && MayMap(s, d, vp) && 1024 <= vp
    requires NeedsTable(s, d, vp) ==> LowRoom(s.pmm, 1)
    ensures Backed(s, d, vp) && Reachable(MapPage(s, d, vp, phys, flags), dirs, a)
    ensures TryMap(s, a, d, vp, phys, flags) == Done(MapPage(s, d, vp, phys, flags))
  {
    AllocLow(s.pmm);
    MapAllowed(s, dirs, d, vp);
    MapGoesThrough(s, dirs, a, d, vp, phys, flags);
    MapMeaning(s, dirs, d, vp, phys, flags);
    var r := MapPage(s, d, vp, phys, flags);
    assert LowMapped(r.mem, a) by {
      forall f: nat | f < 1024 ensures Direct(r.mem, a, f) { assert Direct(s.mem, a, f); }
    }
    MapKeepsLow(s, dirs, d, vp, phys, flags);
  }

  lemma MapKeepsLow(s: Phys, dirs: set<nat>, d: nat, vp: nat, phys: word, flags: word)
    requires Inv(s, dirs) && AllLow(s, dirs) && d in dirs && MayMap(s, d, vp)
    requires NeedsTable(s, d, vp) ==> LowRoom(s.pmm, 1)
    ensures Backed(s, d, vp) && AllLow(MapPage(s, d, vp, phys, flags), dirs)
  {
    AllocLow(s.pmm);
    MapAllowed(s, dirs, d, vp);
    if NeedsTable(s, d, vp) {
      MapInNewTable(s, dirs, d, vp, phys, flags);
    } else {
      StoreMeaning(s, dirs, d, vp, PteOf(phys, flags));
    }
  }

  /** Page vp is mapped to its own frame, which lies above 4 MB and is free, where a sees it. */
  predicate MapsFreeFrame(s: Phys, a: nat, d: nat, vp: nat, phys: word, flags: word)
    requires Backed(s, d, vp)
  {
    && SeesTable(s, a, d, vp / 1024) && 1024 <= vp < s.pmm.total && FrameOf(PteOf(phys, flags)) == vp
    && !Test(MapPage(s, d, vp, phys, flags).pmm.bitmap, vp)
  }

  /**
   A mapping keeps free frames out of reach if and only if it does not map a page from 4 MB up to
   its own frame while that frame is free, in a table the active directory sees.
   */
  lemma MapKeepsFar(s: Phys, dirs: set<nat>, a: nat, d: nat, vp: nat, phys: word, flags: word)
    requires Inv(s, dirs) && a in dirs && d in dirs && vp < ALL_PAGES && (NeedsTable(s, d, vp) ==> Room(s.pmm, 1))
    requires FreeIsFar(s, a)
    ensures Backed(s, d, vp) && MapPage(s, d, vp, phys, flags).pmm.total == s.pmm.total
    ensures FreeIsFar(MapPage(s, d, vp, phys, flags), a) <==> !MapsFreeFrame(s, a, d, vp, phys, flags)
  {
    MapAllowed(s, dirs, d, vp);
    MapMeaning(s, dirs, d, vp, phys, flags);
    MapPmm(s, d, vp, phys, flags);
    if NeedsTable(s, d, vp) { AllocMeaning(s.pmm); }
    PteOfBits(phys, flags, 0);
    var r := MapPage(s, d, vp, phys, flags);
    hide Entry, Pte, MapPage, PteOf, Alloc, Inv, SeesTable;
    forall f: nat | 1024 <= f < s.pmm.total && f != vp ensures Direct(r.mem, a, f) <==> Direct(s.mem, a, f) {
      assert Pte(r.mem, a, f) == Pte(s.mem, a, f);
    }
  }

  /** Erasing a page brings nothing into reach. */
  lemma UnmapKeepsFar(s: Phys, dirs: set<nat>, a: nat, d: nat, vp: nat)
    requires Inv(s, dirs) && a in dirs && d in dirs && vp < ALL_PAGES && FreeIsFar(s, a)
    ensures Backed(s, d, vp) && UnmapPage(s, d, vp).pmm == s.pmm && FreeIsFar(UnmapPage(s, d, vp), a)
  {
    UnmapMeaning(s, dirs, d, vp);
    BitZero(0);
    hide Entry, Pte, UnmapPage, Inv;
  }

  /**
   Giving back the frames of a directory keeps free frames out of reach if and only if none of
   those frames, from 4 MB up, is within reach.
   */
  lemma DestroyKeepsFar(s: Phys, a: nat, d: nat)
    requires s.pmm.total <= MAX_FRAMES && d < MAX_FRAMES && LeavesInRange(s.mem, d) && FreeIsFar(s, a)
    ensures FreeIsFar(Destroy(s, d), a) <==>
      forall f: nat :: 1024 <= f < s.pmm.total && Owns(s.mem, d, f) ==> !Direct(s.mem, a, f)
  {
    forall f: nat | f < MAX_FRAMES
      ensures Test(Destroy(s, d).pmm.bitmap, f) <==> Test(s.pmm.bitmap, f) && !Owns(s.mem, d, f)
    {
      DestroyMeaning(s, d, f);
    }
    DestroyMeaning(s, d, 0);
  }

  // ---- cloning

  lemma SharedEntryBits(e: word)
    ensures FrameOf(SharedEntry(e)) == FrameOf(e) && (Present(SharedEntry(e)) <==> Present(e))
  {
    if Present(e) { CowMarkBits(e, 0); }
  }

  /** Cloning a slot write-protects pages but moves none, so the reach of every other directory stays. */
  lemma CloneSlotKeepsDirect(s: Phys, dirs: set<nat>, a: nat, src: nat, dst: nat, i: nat, f: nat)
    requires Inv(s, dirs) && src in dirs && dst in dirs && src != dst && dst != s.kernelDir && i < 768
    requires !Present(Entry(s.mem, dst, i)) && Present(Entry(s.mem, src, i)) && Room(s.pmm, 1)
    requires a in dirs && a != dst && f < ALL_PAGES
    ensures dst < s.pmm.total
    ensures var u := Alloc(s.pmm).1;
      && (Direct(Zero(s.mem, u), a, f) <==> Direct(s.mem, a, f))
      && (Direct(ShareTable(Zero(s.mem, u), Table(s, src, i), u), a, f) <==> Direct(s.mem, a, f))
      && (Direct(CloneSlot(s, src, dst, i).mem, a, f) <==> Direct(s.mem, a, f))
  {
    var u, t, r := Alloc(s.pmm).1, Table(s, src, i), CloneSlot(s, src, dst, i);
    FreshFrame(s, dirs);
    CloneSlotEntries(s, dirs, src, dst, i);
    ClearKeepsPte(s, dirs, a, u, f);
    ClonedPte(s, dirs, src, dst, i, a, f);
    SharedEntryBits(Pte(s.mem, src, f));
    assert Pte(ShareTable(Zero(s.mem, u), t, u), a, f) == Pte(r.mem, a, f) by {
      assert Taken(s, a);
      if Present(Entry(s.mem, a, f / 1024)) { TableIsOwned(s, dirs, a, f / 1024); }
    }
  }

  /** One slot of a clone goes through if and only if a low frame is left for its table. */
  lemma CloneSlotGoesThrough(s: Phys, dirs: set<nat>, a: nat, src: nat, dst: nat, i: nat)
    requires Inv(s, dirs) && src in dirs && dst in dirs && src != dst && dst != s.kernelDir && i < 768
    requires !Present(Entry(s.mem, dst, i)) && (Present(Entry(s.mem, src, i)) ==> Room(s.pmm, 1))
    requires a != dst && Bounded(s, dirs, a)
    ensures dst < s.pmm.total
    ensures TryCloneSlot(s, a, src, dst, i) ==
      if Present(Entry(s.mem, src, i)) && !LowRoom(s.pmm, 1) then Fault else Done(CloneSlot(s, src, dst, i))
    ensures CloneSlot(s, src, dst, i).pmm.total == s.pmm.total
    ensures (Present(Entry(s.mem, src, i)) ==> LowRoom(s.pmm, 1)) ==> Bounded(CloneSlot(s, src, dst, i), dirs, a)
  {
    assert Taken(s, dst) && Taken(s, src);
    if Present(Entry(s.mem, src, i)) {
      CloneSlotReaches(s, dirs, a, src, dst, i);
      CloneSlotBounded(s, dirs, a, src, dst, i);
    }
  }

  lemma CloneSlotReaches(s: Phys, dirs: set<nat>, a: nat, src: nat, dst: nat, i: nat)
    requires Inv(s, dirs) && src in dirs && dst in dirs && src != dst && dst != s.kernelDir && i < 768
    requires !Present(Entry(s.mem, dst, i)) && Present(Entry(s.mem, src, i)) && Room(s.pmm, 1)
    requires a != dst && Bounded(s, dirs, a)
    ensures dst < s.pmm.total
    ensures TryCloneSlot(s, a, src, dst, i) == if LowRoom(s.pmm, 1) then Done(CloneSlot(s, src, dst, i)) else Fault
  {
    hide Direct, Entry, ShareTable, Zero, Put, CloneSlot, TryCloneSlot;
    assert Taken(s, dst) && Taken(s, src);
    var u, t := Alloc(s.pmm).1, Table(s, src, i);
    AllocLow(s.pmm);
    AllocMeaning(s.pmm);
    hide Inv, Test, Alloc;
    CloneSlotKeepsDirect(s, dirs, a, src, dst, i, t);
    CloneSlotKeepsDirect(s, dirs, a, src, dst, i, u);
    CloneSlotKeepsDirect(s, dirs, a, src, dst, i, src);
    CloneSlotKeepsDirect(s, dirs, a, src, dst, i, dst);
    TryCloneSlotIs(s, a, src, dst, i);
  }

  lemma CloneSlotBounded(s: Phys, dirs: set<nat>, a: nat, src: nat, dst: nat, i: nat)
    requires Inv(s, dirs) && src in dirs && dst in dirs && src != dst && dst != s.kernelDir && i < 768
    requires !Present(Entry(s.mem, dst, i)) && Present(Entry(s.mem, src, i)) && Room(s.pmm, 1)
    requires a != dst && Bounded(s, dirs, a)
    ensures dst < s.pmm.total && CloneSlot(s, src, dst, i).pmm.total == s.pmm.total
    ensures LowRoom(s.pmm, 1) ==> Bounded(CloneSlot(s, src, dst, i), dirs, a)
  {
    hide Direct, Entry, CloneSlot, Alloc, Test, AllLow;
    ClonedSlotLow(s, dirs, src, dst, i);
    AllocMeaning(s.pmm);
    CloneSlotPmm(s, src, dst, i);
    var r := CloneSlot(s, src, dst, i);
    hide Inv;
    forall f: nat | f < MAX_FRAMES ensures Direct(r.mem, a, f) <==> Direct(s.mem, a, f) {
      CloneSlotKeepsDirect(s, dirs, a, src, dst, i, f);
    }
  }

  lemma TryCloneSlotIs(s: Phys, a: nat, src: nat, dst: nat, i: nat)
    requires s.pmm.total <= MAX_FRAMES && |s.mem| == 1024 * s.pmm.total && dst < s.pmm.total && i < 768
    requires Present(Entry(s.mem, src, i))
    ensures var u, t := Alloc(s.pmm).1, Table(s, src, i);
      var cleared := Zero(s.mem, u);
      var shared := ShareTable(cleared, t, u);
      TryCloneSlot(s, a, src, dst, i) ==
        if Direct(s.mem, a, src) && Direct(s.mem, a, u) && Direct(cleared, a, t) && Direct(cleared, a, u)
          && Direct(shared, a, src) && Direct(shared, a, dst)
        then Done(CloneSlot(s, src, dst, i)) else Fault
  {
    hide Direct, Entry, ShareTable, Zero;
  }

  lemma ClonedSlotLow(s: Phys, dirs: set<nat>, src: nat, dst: nat, i: nat)
    requires Inv(s, dirs) && src in dirs && dst in dirs && src != dst && dst != s.kernelDir && i < 768
    requires !Present(Entry(s.mem, dst, i)) && Present(Entry(s.mem, src, i)) && Room(s.pmm, 1) && AllLow(s, dirs)
    ensures dst < s.pmm.total && (LowRoom(s.pmm, 1) ==> AllLow(CloneSlot(s, src, dst, i), dirs))
  {
    AllocLow(s.pmm);
    CloneSlotMeaning(s, dirs, src, dst, i);
    CloneSlotEntries(s, dirs, src, dst, i);
  }

  /** Cloning is under way: slots from i on are still to come. */
  ghost predicate CloneUnderway(s: Phys, dirs: set<nat>, src: nat, dst: nat, i: nat)
    requires i <= 768
  {
    && Inv(s, dirs) && src in dirs && dst in dirs && src != dst && dst != s.kernelDir && dst < s.pmm.total
    && (forall k :: i <= k < 768 ==> !Present(Entry(s.mem, dst, k)))
    && Room(s.pmm, PresentSlots(s.mem, src, i))
  }

  lemma CloneGoesOn(s: Phys, dirs: set<nat>, src: nat, dst: nat, i: nat)
    requires i < 768 && CloneUnderway(s, dirs, src, dst, i)
    ensures var n, e := CloneSlot(s, src, dst, i), Entry(s.mem, src, i);
      && CloneUnderway(n, dirs, src, dst, i + 1)
      && n.pmm == (if Present(e) then Alloc(s.pmm).0 else s.pmm)
      && PresentSlots(n.mem, src, i + 1) == PresentSlots(s.mem, src, i + 1)
  {
    hide Entry, CloneSlot;
    CloneSlotMeaning(s, dirs, src, dst, i);
    PresentSlotsSame(s.mem, CloneSlot(s, src, dst, i).mem, src, i + 1);
    CloneSlotPmm(s, src, dst, i);
  }

  /** All slots go through if and only if the low frames suffice for the tables. */
  lemma {:induction false} CloneSlotsGoThrough(s: Phys, dirs: set<nat>, a: nat, src: nat, dst: nat, i: nat)
    requires i <= 768 && CloneUnderway(s, dirs, src, dst, i)
    requires a != dst && Bounded(s, dirs, a)
    ensures TryCloneSlots(s, a, src, dst, i) ==
      if LowRoom(s.pmm, PresentSlots(s.mem, src, i)) then Done(CloneSlots(s, src, dst, i)) else Fault
    ensures LowRoom(s.pmm, PresentSlots(s.mem, src, i)) ==>
      var r := CloneSlots(s, src, dst, i); r.pmm.total == s.pmm.total && Bounded(r, dirs, a)
    decreases 768 - i
  {
    if i < 768 {
      AllocLow(s.pmm);
      CloneSlotGoesThrough(s, dirs, a, src, dst, i);
      CloneGoesOn(s, dirs, src, dst, i);
      hide Entry, Pte, CloneSlot, Bounded, TryCloneSlot, CloneUnderway, Alloc;
      if Present(Entry(s.mem, src, i)) ==> LowRoom(s.pmm, 1) {
        CloneSlotsGoThrough(CloneSlot(s, src, dst, i), dirs, a, src, dst, i + 1);
      }
    }
  }

  lemma CloneSlotPmm(s: Phys, src: nat, dst: nat, i: nat)
    requires s.pmm.total <= MAX_FRAMES && |s.mem| == 1024 * s.pmm.total && dst < s.pmm.total && i < 768
    ensures CloneSlot(s, src, dst, i).pmm == if Present(Entry(s.mem, src, i)) then Alloc(s.pmm).0 else s.pmm
  {
  }

  /** A new directory, if it is low, leaves the kernel's reach as it was. */
  lemma CreatedBounded(s: Phys, dirs: set<nat>, a: nat)
    requires Inv(s, dirs) && Bounded(s, dirs, a) && LowRoom(s.pmm, 1)
    ensures Room(s.pmm, 1)
    ensures var (r, d) := CreateDirectory(s); r.pmm.total == s.pmm.total && Bounded(r, dirs + {d}, a)
  {
    AllocLow(s.pmm);
    AllocMeaning(s.pmm);
    CreatePmm(s);
    CreateMeaning(s, dirs);
    CreatedReachable(s, dirs, a);
    hide Entry, Pte, CreateDirectory, Inv, Alloc, TryCreate, Reachable;
    var (r, d) := CreateDirectory(s);
    forall f: nat | 1024 <= f < s.pmm.total && !Test(r.pmm.bitmap, f) ensures !Direct(r.mem, a, f) {
      assert Pte(r.mem, a, f) == Pte(s.mem, a, f);
    }
  }

  lemma KernelInDirs(s: Phys, dirs: set<nat>)
    requires Inv(s, dirs)
    ensures s.kernelDir in dirs && Taken(s, s.kernelDir)
  {
  }

  /** The state in which `vmm_clone` starts its loop. */
  lemma CloneBegins(s: Phys, dirs: set<nat>, src: nat)
    requires Inv(s, dirs) && src in dirs && Room(s.pmm, 1 + PresentSlots(s.mem, src, 0))
    ensures var (s1, dst) := CreateDirectory(s);
      && CloneUnderway(s1, dirs + {dst}, src, dst, 0) && (s1.pmm, dst) == Alloc(s.pmm)
      && PresentSlots(s1.mem, src, 0) == PresentSlots(s.mem, src, 0) && dst !in dirs
  {
    hide Entry, Pte, Test, Counted, Alloc, CreateDirectory, PresentSlots, NewDirectory, CloneUnderway;
    CreateMeaning(s, dirs);
    CreatePmm(s);
    var (s1, dst) := CreateDirectory(s);
    NewDirectoryBegins(s, dirs, src, s1, dst);
  }

  lemma CreatePmm(s: Phys)
    requires s.pmm.total <= MAX_FRAMES
    ensures var (s1, dst) := CreateDirectory(s); (s1.pmm, dst) == Alloc(s.pmm)
  {
  }

  lemma NewDirectoryBegins(s: Phys, dirs: set<nat>, src: nat, s1: Phys, dst: nat)
    requires NewDirectory(s, dirs, s1, dst) && src in dirs && Room(s.pmm, 1 + PresentSlots(s.mem, src, 0))
      && s.kernelDir in dirs
    ensures CloneUnderway(s1, dirs + {dst}, src, dst, 0)
    ensures PresentSlots(s1.mem, src, 0) == PresentSlots(s.mem, src, 0) && dst !in dirs
  {
    hide Entry, Pte, Test, Counted;
    PresentSlotsSame(s.mem, s1.mem, src, 0);
    assert Taken(s1, dst);
  }

  /** Creating a directory goes through if and only if a low frame is free. */
  lemma CreateNeedsLow(s: Phys, dirs: set<nat>, a: nat)
    requires Inv(s, dirs) && Bounded(s, dirs, a) && Room(s.pmm, 1)
    ensures TryCreate(s, a) == if LowRoom(s.pmm, 1) then Done(CreateDirectory(s).0) else Fault
    ensures a in dirs && (LowRoom(s.pmm, 1) <==> Alloc(s.pmm).1 < 1024)
  {
    KernelInDirs(s, dirs);
    AllocLow(s.pmm);
    FreshFrame(s, dirs);
    CreateGoesThrough(s, dirs, a);
    hide Entry, Pte, CreateDirectory, Direct;
    assert s.kernelDir < 1024 && Direct(s.mem, a, s.kernelDir);
  }

  /**
   `vmm_clone` does what `Clone` says if and only if 1 + (present user slots of src) frames are
   free below 4 MB; otherwise it faults on the first directory or table that lies above.
   */
  lemma CloneGoesThrough(s: Phys, dirs: set<nat>, a: nat, src: nat)
    requires Inv(s, dirs) && src in dirs && Bounded(s, dirs, a)
    requires Room(s.pmm, 1 + PresentSlots(s.mem, src, 0))
    ensures TryClone(s, a, src) ==
      if LowRoom(s.pmm, 1 + PresentSlots(s.mem, src, 0)) then Done(Clone(s, src).0) else Fault
    ensures LowRoom(s.pmm, 1 + PresentSlots(s.mem, src, 0)) ==>
      var (r, dst) := Clone(s, src); r.pmm.total == s.pmm.total && Bounded(r, dirs + {dst}, a)
  {
    hide Entry, Pte, CreateDirectory, Bounded, CloneUnderway, Alloc, TryCreate, TryClone, Clone,
      PresentSlots, Direct, Test, Count, Low;
    CloneBegins(s, dirs, src);
    LowRoomStep(s.pmm, PresentSlots(s.mem, src, 0));
    CreateNeedsLow(s, dirs, a);
    if LowRoom(s.pmm, 1) { CreatedBounded(s, dirs, a); }
    CloneFollows(s, dirs, a, src);
  }

  lemma LowRoomStep(m: Pmm, n: nat)
    requires Counted(m) && Room(m, 1)
    ensures LowRoom(m, 1) ==> (LowRoom(Alloc(m).0, n) <==> LowRoom(m, n + 1))
  {
    AllocLow(m);
  }

  /** The rest of `vmm_clone`, given what its first step leaves. */
  lemma CloneFollows(s: Phys, dirs: set<nat>, a: nat, src: nat)
    requires s.pmm.total <= MAX_FRAMES && |s.mem| == 1024 * s.pmm.total && s.pmm.total > 0 && a in dirs
    requires var n, (s1, dst) := PresentSlots(s.mem, src, 0), CreateDirectory(s);
      && CloneUnderway(s1, dirs + {dst}, src, dst, 0) && dst == Alloc(s.pmm).1 && dst !in dirs
        && PresentSlots(s1.mem, src, 0) == n
      && (LowRoom(s.pmm, 1) ==> (LowRoom(s1.pmm, n) <==> LowRoom(s.pmm, n + 1)))
      && TryCreate(s, a) == (if LowRoom(s.pmm, 1) then Done(s1) else Fault)
      && (LowRoom(s.pmm, 1) ==> s1.pmm.total == s.pmm.total && Bounded(s1, dirs + {dst}, a))
    ensures TryClone(s, a, src) ==
      if LowRoom(s.pmm, 1 + PresentSlots(s.mem, src, 0)) then Done(Clone(s, src).0) else Fault
    ensures LowRoom(s.pmm, 1 + PresentSlots(s.mem, src, 0)) ==>
      var (r, dst) := Clone(s, src); r.pmm.total == s.pmm.total && Bounded(r, dirs + {dst}, a)
  {
    hide Inv, Entry, Pte, CreateDirectory, CloneSlots, PresentSlots, Bounded, CloneUnderway, Alloc,
      TryCreate, TryCloneSlots;
    var (s1, dst) := CreateDirectory(s);
    if LowRoom(s.pmm, 1) { CloneSlotsGoThrough(s1, dirs + {dst}, a, src, dst, 0); }
  }

  /** A new low directory leaves everything reachable. */
  lemma CreatedReachable(s: Phys, dirs: set<nat>, a: nat)
    requires Inv(s, dirs) && Reachable(s, dirs, a) && LowRoom(s.pmm, 1)
    ensures Room(s.pmm, 1)
    ensures var (r, d) := CreateDirectory(s); a != d && Reachable(r, dirs + {d}, a) && TryCreate(s, a) == Done(r)
  {
    AllocLow(s.pmm);
    CreatePmm(s);
    FreshFrame(s, dirs);
    KernelInDirs(s, dirs);
    CreateGoesThrough(s, dirs, a);
    CreateMeaning(s, dirs);
    hide Entry, Pte, CreateDirectory, Inv, Alloc, TryCreate;
    var (r, d) := CreateDirectory(s);
    NewDirectoryReachable(s, dirs, a, r, d);
  }

  lemma NewDirectoryReachable(s: Phys, dirs: set<nat>, a: nat, r: Phys, d: nat)
    requires NewDirectory(s, dirs, r, d) && Reachable(s, dirs, a) && d < 1024 && s.kernelDir in dirs
    ensures Reachable(r, dirs + {d}, a)
  {
    hide Entry, Pte, Inv;
    forall f: nat | f < 1024 ensures Direct(r.mem, a, f) { assert Direct(s.mem, a, f); }
    forall c: nat, i: nat | c in dirs + {d} && i < 1024 && Present(Entry(r.mem, c, i)) ensures Table(r, c, i) < 1024 {
      var o := if c == d then s.kernelDir else c;
      assert Entry(r.mem, c, i) == Entry(s.mem, o, i) && o in dirs;
    }
  }
}
