/**
 Non-aliasing of page tables, and what follows from it: the tables of every directory refine
 a plain map from page to entry, and each operation changes exactly the entries it names.
 */
module PagingLaws {
  import opened Bits
  import opened Frames
  import opened Paging

  /** A frame the allocator has handed out, other than frame 0. */
  predicate Taken(s: Phys, f: nat)
    requires s.pmm.total <= MAX_FRAMES
  {
    0 < f < s.pmm.total && Test(s.pmm.bitmap, f)
  }

  /** Slot i of d holds a table that d owns: user slots, and all slots of the kernel directory. */
  predicate OwnSlot(s: Phys, dirs: set<nat>, d: nat, i: nat) {
    d in dirs && i < 1024 && (i < 768 || d == s.kernelDir) && Present(Entry(s.mem, d, i))
  }

  function Table(s: Phys, d: nat, i: nat): nat { FrameOf(Entry(s.mem, d, i)) }

  ghost predicate Shape(s: Phys) {
    && 0 < s.pmm.total <= MAX_FRAMES && |s.mem| == 1024 * s.pmm.total
    && Counted(s.pmm) && Test(s.pmm.bitmap, 0)
  }

  ghost predicate TablesTaken(s: Phys, dirs: set<nat>)
    requires Shape(s)
  {
    && (forall d <- dirs :: Taken(s, d))
    && (forall d: nat, i: nat :: OwnSlot(s, dirs, d, i) ==> Taken(s, Table(s, d, i)) && Table(s, d, i) !in dirs)
  }

  ghost predicate TablesDistinct(s: Phys, dirs: set<nat>) {
    forall d: nat, i: nat, c: nat, k: nat ::
      OwnSlot(s, dirs, d, i) && OwnSlot(s, dirs, c, k) && Table(s, d, i) == Table(s, c, k) ==> d == c && i == k
  }

  /** The upper quarter of a user directory holds only entries of the kernel directory. */
  ghost predicate UpperShared(s: Phys, dirs: set<nat>) {
    forall d: nat, i: nat :: d in dirs && 768 <= i < 1024 && Present(Entry(s.mem, d, i)) ==>
      Entry(s.mem, d, i) == Entry(s.mem, s.kernelDir, i)
  }

  /** dirs are the live directories; their frames and tables are all different and all allocated. */
  ghost predicate Inv(s: Phys, dirs: set<nat>) {
    Shape(s) && s.kernelDir in dirs && TablesTaken(s, dirs) && TablesDistinct(s, dirs) && UpperShared(s, dirs)
  }

  /** A page that directory d may be asked to map: user pages, or any page of the kernel directory. */
  predicate MayMap(s: Phys, d: nat, vp: nat) {
    vp < USER_PAGES || (d == s.kernelDir && vp < ALL_PAGES)
  }

  /** Every translation of s. */
  ghost predicate SameTranslations(s: Phys, r: Phys, dirs: set<nat>) {
    forall d: nat, vp: nat :: d in dirs && vp < ALL_PAGES ==> Pte(r.mem, d, vp) == Pte(s.mem, d, vp)
  }

  // ---- storing into an existing table

  /** Whether d translates slot i through the table in slot i of directory c. */
  predicate SeesTable(s: Phys, d: nat, c: nat, i: nat) {
    d == c || (i >= 768 && Present(Entry(s.mem, d, i)) && Present(Entry(s.mem, c, i)))
  }

  /** The table in slot i of d is d's own, or the kernel directory's. */
  lemma TableIsOwned(s: Phys, dirs: set<nat>, d: nat, i: nat)
    requires Inv(s, dirs) && d in dirs && i < 1024 && Present(Entry(s.mem, d, i))
    ensures Taken(s, Table(s, d, i)) && Table(s, d, i) !in dirs
    ensures OwnSlot(s, dirs, d, i) || (i >= 768 && OwnSlot(s, dirs, s.kernelDir, i)
      && Entry(s.mem, d, i) == Entry(s.mem, s.kernelDir, i))
  {
    if !OwnSlot(s, dirs, d, i) { assert OwnSlot(s, dirs, s.kernelDir, i); }
  }

  /** Two slots hold the same table only if they are the same slot, or one upper slot of two directories. */
  lemma SameTable(s: Phys, dirs: set<nat>, d: nat, i: nat, c: nat, k: nat)
    requires Inv(s, dirs) && d in dirs && c in dirs && i < 1024 && k < 1024
    requires Present(Entry(s.mem, d, i)) && Present(Entry(s.mem, c, k))
    ensures Table(s, d, i) == Table(s, c, k) <==> i == k && (d == c || i >= 768)
  {
    TableIsOwned(s, dirs, d, i);
    TableIsOwned(s, dirs, c, k);
    if i >= 768 && i == k {
      assert Entry(s.mem, d, i) == Entry(s.mem, s.kernelDir, i) == Entry(s.mem, c, i);
    }
  }

  lemma StoreMeaning(s: Phys, dirs: set<nat>, d: nat, vp: nat, w: word)
    requires Inv(s, dirs) && vp < ALL_PAGES && d in dirs && Present(Entry(s.mem, d, vp / 1024))
    ensures Table(s, d, vp / 1024) < s.pmm.total
    ensures var r := s.(mem := Put(s.mem, Table(s, d, vp / 1024), vp % 1024, w));
      && Inv(r, dirs)
      && (forall c: nat, k: nat :: c in dirs && k < 1024 ==> Entry(r.mem, c, k) == Entry(s.mem, c, k))
      && (forall c: nat, up: nat :: c in dirs && up < ALL_PAGES ==>
        Pte(r.mem, c, up) == if up == vp && SeesTable(s, c, d, vp / 1024) then w else Pte(s.mem, c, up))
  {
    var i, t := vp / 1024, Table(s, d, vp / 1024);
    TableIsOwned(s, dirs, d, i);
    var r := s.(mem := Put(s.mem, t, vp % 1024, w));
    assert forall c: nat, k: nat :: c in dirs && k < 1024 ==> Entry(r.mem, c, k) == Entry(s.mem, c, k);
    assert forall c: nat, k: nat :: OwnSlot(r, dirs, c, k) <==> OwnSlot(s, dirs, c, k);
    forall c: nat, up: nat | c in dirs && up < ALL_PAGES
      ensures Pte(r.mem, c, up) == if up == vp && SeesTable(s, c, d, i) then w else Pte(s.mem, c, up)
    {
      if Present(Entry(s.mem, c, up / 1024)) { SameTable(s, dirs, d, i, c, up / 1024); }
    }
  }

  // ---- linking a fresh, empty table

  /** The state after a fresh zeroed frame is entered as e in slot i of d. */
  function WithTable(s: Phys, d: nat, i: nat, e: word): Phys
    requires s.pmm.total <= MAX_FRAMES && i < 1024 && d * 1024 + i < |s.mem|
  {
    var (m, t) := Alloc(s.pmm);
    s.(pmm := m, mem := Put(Zero(s.mem, t), d, i, e))
  }

  /** The fresh frame is neither a directory nor a table of any directory. */
  lemma FreshFrame(s: Phys, dirs: set<nat>)
    requires Inv(s, dirs) && Room(s.pmm, 1)
    ensures var t := Alloc(s.pmm).1;
      && 0 < t < s.pmm.total && !Test(s.pmm.bitmap, t) && t !in dirs
      && (forall d: nat, i: nat :: d in dirs && i < 1024 && Present(Entry(s.mem, d, i)) ==> Table(s, d, i) != t)
  {
    AllocMeaning(s.pmm);
    var t := Alloc(s.pmm).1;
    forall d: nat, i: nat | d in dirs && i < 1024 && Present(Entry(s.mem, d, i)) ensures Table(s, d, i) != t {
      TableIsOwned(s, dirs, d, i);
    }
  }

  /** A fresh table at an empty slot: nothing translates through it yet. */
  lemma WithTablePte(s: Phys, dirs: set<nat>, d: nat, i: nat, e: word, c: nat, up: nat)
    requires Inv(s, dirs) && Room(s.pmm, 1) && d in dirs && i < 1024 && !Present(Entry(s.mem, d, i))
    requires Present(e) && FrameOf(e) == Alloc(s.pmm).1 && c in dirs && up < ALL_PAGES
    ensures Taken(s, d) && Pte(WithTable(s, d, i, e).mem, c, up) == Pte(s.mem, c, up)
  {
    assert Taken(s, d) && Taken(s, c);
    FreshFrame(s, dirs);
    if Present(Entry(s.mem, c, up / 1024)) { TableIsOwned(s, dirs, c, up / 1024); }
  }

  lemma WithTableKeepsInv(s: Phys, dirs: set<nat>, d: nat, i: nat, e: word)
    requires Inv(s, dirs) && Room(s.pmm, 1)
    requires d in dirs && i < 1024 && (i < 768 || d == s.kernelDir) && !Present(Entry(s.mem, d, i))
    requires Present(e) && FrameOf(e) == Alloc(s.pmm).1
    ensures Taken(s, d) && Inv(WithTable(s, d, i, e), dirs)
    ensures SameTranslations(s, WithTable(s, d, i, e), dirs)
    ensures forall c: nat, k: nat :: c in dirs && k < 1024 && !(c == d && k == i) ==>
      Entry(WithTable(s, d, i, e).mem, c, k) == Entry(s.mem, c, k)
    ensures Entry(WithTable(s, d, i, e).mem, d, i) == e
  {
    hide Entry, Put, WithTable, Test;
    WithTableEntries(s, dirs, d, i, e);
    var r, t := WithTable(s, d, i, e), Alloc(s.pmm).1;
    AllocMeaning(s.pmm);
    FreshFrame(s, dirs);
    assert forall c: nat, k: nat :: OwnSlot(r, dirs, c, k) <==> OwnSlot(s, dirs, c, k) || (c == d && k == i);
    assert UpperShared(r, dirs);
    forall c: nat, up: nat | c in dirs && up < ALL_PAGES ensures Pte(r.mem, c, up) == Pte(s.mem, c, up) {
      WithTablePte(s, dirs, d, i, e, c, up);
    }
  }

  lemma WithTableEntries(s: Phys, dirs: set<nat>, d: nat, i: nat, e: word)
    requires Inv(s, dirs) && Room(s.pmm, 1) && d in dirs && i < 1024
    ensures Taken(s, d)
    ensures var r, t := WithTable(s, d, i, e), Alloc(s.pmm).1;
      && r.pmm == Alloc(s.pmm).0 && r.kernelDir == s.kernelDir && |r.mem| == |s.mem|
      && Entry(r.mem, d, i) == e
      && (forall c: nat, k: nat :: c in dirs && k < 1024 && !(c == d && k == i) ==>
        Entry(r.mem, c, k) == Entry(s.mem, c, k))
  {
    assert Taken(s, d);
    FreshFrame(s, dirs);
  }

  // ---- vmm_map and vmm_unmap

  /** What every directory translates once the word w is stored at page vp of d. */
  ghost predicate MapsOnly(s: Phys, r: Phys, dirs: set<nat>, d: nat, vp: nat, w: word) {
    forall c: nat, up: nat :: c in dirs && up < ALL_PAGES ==>
      Pte(r.mem, c, up) == if up == vp && SeesTable(s, c, d, vp / 1024) then w else Pte(s.mem, c, up)
  }

  /** Whether the page still lacks a table, so that mapping it costs a frame. */
  predicate NeedsTable(s: Phys, d: nat, vp: nat) { !Present(Entry(s.mem, d, vp / 1024)) }

  lemma MapPmm(s: Phys, d: nat, vp: nat, phys: word, flags: word)
    requires Backed(s, d, vp)
    ensures MapPage(s, d, vp, phys, flags).pmm == if NeedsTable(s, d, vp) then Alloc(s.pmm).0 else s.pmm
    ensures MapPage(s, d, vp, phys, flags).kernelDir == s.kernelDir
  {
  }

  /** Taking a frame for a page leaves the tables alone. */
  lemma TakeFrameKeepsInv(s: Phys, dirs: set<nat>)
    requires Inv(s, dirs) && Room(s.pmm, 1)
    ensures Inv(s.(pmm := Alloc(s.pmm).0), dirs)
  {
    AllocMeaning(s.pmm);
    var r := s.(pmm := Alloc(s.pmm).0);
    assert forall d: nat, i: nat :: OwnSlot(r, dirs, d, i) <==> OwnSlot(s, dirs, d, i);
  }

  lemma MapAllowed(s: Phys, dirs: set<nat>, d: nat, vp: nat)
    requires Inv(s, dirs) && d in dirs && vp < ALL_PAGES
    ensures Backed(s, d, vp) && vp / 1024 < 1024 && Taken(s, d)
    ensures !NeedsTable(s, d, vp) ==> Taken(s, Table(s, d, vp / 1024)) && Table(s, d, vp / 1024) !in dirs
  {
    assert Taken(s, d);
    if !NeedsTable(s, d, vp) { TableIsOwned(s, dirs, d, vp / 1024); }
  }

  /**
   `vmm_map` enters exactly the named page: every other page of every directory, this one
   included, translates as before.  A page of the upper quarter also changes in the directories
   that share its table.  The sharing itself survives unless a user directory gets an upper
   page for which it holds no table: that page gets a private one.
   */
  lemma MapMeaning(s: Phys, dirs: set<nat>, d: nat, vp: nat, phys: word, flags: word)
    requires Inv(s, dirs) && d in dirs && vp < ALL_PAGES && (NeedsTable(s, d, vp) ==> Room(s.pmm, 1))
    ensures Backed(s, d, vp)
    ensures MapsOnly(s, MapPage(s, d, vp, phys, flags), dirs, d, vp, PteOf(phys, flags))
    ensures Inv(MapPage(s, d, vp, phys, flags), dirs) <==> MayMap(s, d, vp) || !NeedsTable(s, d, vp)
  {
    MapAllowed(s, dirs, d, vp);
    if !NeedsTable(s, d, vp) {
      StoreMeaning(s, dirs, d, vp, PteOf(phys, flags));
    } else if MayMap(s, d, vp) {
      MapInNewTable(s, dirs, d, vp, phys, flags);
    } else {
      MapPrivately(s, dirs, d, vp, phys, flags);
    }
  }

  lemma MapInNewTable(s: Phys, dirs: set<nat>, d: nat, vp: nat, phys: word, flags: word)
    requires Inv(s, dirs) && d in dirs && MayMap(s, d, vp) && NeedsTable(s, d, vp) && Room(s.pmm, 1)
    ensures Backed(s, d, vp) && Inv(MapPage(s, d, vp, phys, flags), dirs)
    ensures MapsOnly(s, MapPage(s, d, vp, phys, flags), dirs, d, vp, PteOf(phys, flags))
    ensures forall c: nat, k: nat :: c in dirs && k < 1024 ==>
      Entry(MapPage(s, d, vp, phys, flags).mem, c, k) ==
        if c == d && k == vp / 1024 then PdeOf(Alloc(s.pmm).1, flags) else Entry(s.mem, c, k)
  {
    MapAllowed(s, dirs, d, vp);
    var i, t, w := vp / 1024, Alloc(s.pmm).1, PteOf(phys, flags);
    AllocMeaning(s.pmm);
    var e := PdeOf(t, flags);
    PdeOfPresent(t, flags);
    WithTableKeepsInv(s, dirs, d, i, e);
    var l := WithTable(s, d, i, e);
    StoreMeaning(l, dirs, d, vp, w);
    assert MapPage(s, d, vp, phys, flags) == l.(mem := Put(l.mem, Table(l, d, i), vp % 1024, w));
    forall c: nat | c in dirs ensures SeesTable(l, c, d, i) <==> SeesTable(s, c, d, i) {
      assert c != d ==> Entry(l.mem, c, i) == Entry(s.mem, c, i);
      assert i >= 768 ==> !Present(Entry(s.mem, c, i));
    }
  }

  /** Which slots of d hold tables after a page was mapped. */
  lemma MapSlots(s: Phys, dirs: set<nat>, d: nat, vp: nat, phys: word, flags: word)
    requires Inv(s, dirs) && d in dirs && MayMap(s, d, vp) && (NeedsTable(s, d, vp) ==> Room(s.pmm, 1))
    ensures Backed(s, d, vp)
    ensures forall i: nat :: i < 1024 ==>
      (Present(Entry(MapPage(s, d, vp, phys, flags).mem, d, i)) <==> i == vp / 1024 || Present(Entry(s.mem, d, i)))
  {
    MapAllowed(s, dirs, d, vp);
    if NeedsTable(s, d, vp) {
      MapInNewTable(s, dirs, d, vp, phys, flags);
      PdeOfPresent(Alloc(s.pmm).1, flags);
    } else {
      StoreMeaning(s, dirs, d, vp, PteOf(phys, flags));
    }
  }

  /**
   The tables stay unaliased if and only if the page has a table, or it may be given one and a frame
   is free for it: `vmm_map` takes the null pointer of a full allocator for a table in frame 0.
   */
  lemma MapKeepsInv(s: Phys, dirs: set<nat>, d: nat, vp: nat, phys: word, flags: word)
    requires Inv(s, dirs) && d in dirs && vp < ALL_PAGES
    ensures Backed(s, d, vp)
    ensures Inv(MapPage(s, d, vp, phys, flags), dirs) <==>
      !NeedsTable(s, d, vp) || (MayMap(s, d, vp) && Room(s.pmm, 1))
  {
    MapAllowed(s, dirs, d, vp);
    if NeedsTable(s, d, vp) && !Room(s.pmm, 1) {
      AllocFull(s.pmm);
      MapIntoFrameZero(s, dirs, d, vp, phys, flags);
    } else {
      MapMeaning(s, dirs, d, vp, phys, flags);
    }
  }

  lemma MapIntoFrameZero(s: Phys, dirs: set<nat>, d: nat, vp: nat, phys: word, flags: word)
    requires Inv(s, dirs) && d in dirs && vp < ALL_PAGES && NeedsTable(s, d, vp) && Alloc(s.pmm) == (s.pmm, 0)
    ensures Backed(s, d, vp) && !Inv(MapPage(s, d, vp, phys, flags), dirs)
  {
    MapAllowed(s, dirs, d, vp);
    assert Taken(s, s.kernelDir) && Taken(s, d);
    var r, i, k := MapPage(s, d, vp, phys, flags), vp / 1024, s.kernelDir;
    PdeOfPresent(0, flags);
    assert Entry(r.mem, d, i) == PdeOf(0, flags);
    if d != k { assert Entry(r.mem, k, i) == Entry(s.mem, k, i); }
    if i < 768 || d == k { assert OwnSlot(r, dirs, d, i) && Table(r, d, i) == 0; } else {
      assert Present(Entry(s.mem, k, i)) ==> OwnSlot(s, dirs, k, i) && Taken(s, Table(s, k, i));
    }
  }

  /** A user directory mapping an upper page it has no table for: a private table, out of step with the kernel's. */
  lemma MapPrivately(s: Phys, dirs: set<nat>, d: nat, vp: nat, phys: word, flags: word)
    requires Inv(s, dirs) && d in dirs && vp < ALL_PAGES && !MayMap(s, d, vp) && NeedsTable(s, d, vp) && Room(s.pmm, 1)
    ensures Backed(s, d, vp) && !Inv(MapPage(s, d, vp, phys, flags), dirs)
    ensures MapsOnly(s, MapPage(s, d, vp, phys, flags), dirs, d, vp, PteOf(phys, flags))
  {
    MapAllowed(s, dirs, d, vp);
    var i, t, w := vp / 1024, Alloc(s.pmm).1, PteOf(phys, flags);
    FreshFrame(s, dirs);
    var e := PdeOf(t, flags);
    PdeOfPresent(t, flags);
    WithTableEntries(s, dirs, d, i, e);
    var l, r := WithTable(s, d, i, e), MapPage(s, d, vp, phys, flags);
    assert r == l.(mem := Put(l.mem, t, vp % 1024, w));
    assert forall c: nat, k: nat :: c in dirs && k < 1024 ==> Entry(r.mem, c, k) == Entry(l.mem, c, k);
    assert Entry(r.mem, d, i) == e && Entry(r.mem, s.kernelDir, i) != e;
    assert !UpperShared(r, dirs);
    forall c: nat, up: nat | c in dirs && up < ALL_PAGES
      ensures Pte(r.mem, c, up) == if up == vp && c == d then w else Pte(s.mem, c, up)
    {
      WithTablePte(s, dirs, d, i, e, c, up);
    }
  }

  /** `vmm_unmap` erases exactly the named page. */
  lemma UnmapMeaning(s: Phys, dirs: set<nat>, d: nat, vp: nat)
    requires Inv(s, dirs) && d in dirs && vp < ALL_PAGES
    ensures Backed(s, d, vp) && Inv(UnmapPage(s, d, vp), dirs)
    ensures MapsOnly(s, UnmapPage(s, d, vp), dirs, d, vp, 0)
    ensures UnmapPage(s, d, vp).pmm == s.pmm
  {
    MapAllowed(s, dirs, d, vp);
    if !NeedsTable(s, d, vp) { StoreMeaning(s, dirs, d, vp, 0); }
  }

  // ---- vmm_get_physical

  /**
   Where the page has a table, mapped pages among them, `vmm_get_physical` gives the frame of
   the map's entry and the offset in the page; without a table it gives 0.
   */
  lemma PhysicalOfMapped(mem: seq<word>, d: nat, virt: word)
    ensures Present(Entry(mem, d, virt / 0x400000)) ==>
      GetPhysical(mem, d, virt) == 4096 * FrameOf(Pte(mem, d, virt / 4096)) + virt % 4096
    ensures !Present(Entry(mem, d, virt / 0x400000)) ==> Pte(mem, d, virt / 4096) == 0 && GetPhysical(mem, d, virt) == 0
  {
    SplitEntry(Pte(mem, d, virt / 4096));
    SplitEntry(virt);
    assert virt / 4096 / 1024 == virt / 0x400000;
  }

  /**
   On an unmapped page the answer still depends on whether a table happens to exist: it is the
   map's answer, 0, if and only if the page has no table or the address is page-aligned.
   */
  lemma PhysicalOfUnmapped(mem: seq<word>, d: nat, virt: word)
    requires Pte(mem, d, virt / 4096) == 0
    ensures GetPhysical(mem, d, virt) == 0 <==> !Present(Entry(mem, d, virt / 0x400000)) || virt % 4096 == 0
  {
    PhysicalOfMapped(mem, d, virt);
  }

  /** Such an address in a reachable state: page 1 of the directory unmapped beside a page 0 just mapped. */
  lemma PhysicalOfUnmappedExample(s: Phys, dirs: set<nat>, d: nat, phys: word)
    requires Inv(s, dirs) && d in dirs && Room(s.pmm, 1) && Pte(s.mem, d, 1) == 0
    ensures Backed(s, d, 0)
    ensures var r := MapPage(s, d, 0, phys, 0);
      Inv(r, dirs) && Pte(r.mem, d, 1) == 0 && GetPhysical(r.mem, d, 4096 + 5) == 5
  {
    MapMeaning(s, dirs, d, 0, phys, 0);
    var r := MapPage(s, d, 0, phys, 0);
    BitZero(0);
    PteOfBits(phys, 0, 0);
    assert Present(Pte(r.mem, d, 0));
    PhysicalOfMapped(r.mem, d, 4096 + 5);
  }
}
