/**
 Any series of vmm_map, vmm_unmap, vmm_create_directory, vmm_clone and vmm_destroy_directory on page
 tables in physical memory behaves like plain maps from page to entry, one for each directory.
 */
module PagingRuns {
  import opened Bits
  import opened Frames
  import opened Paging
  import opened PagingLaws
  import opened PagingClone
  import opened PagingDestroy

  datatype Op =
    | Map(dir: nat, page: nat, phys: word, flags: word)
    | Unmap(dir: nat, page: nat)
    | Create
    | Copy(src: nat)
    | Remove(dir: nat)

  // ---- plain maps

  /** An address space: the entry of every page, and the upper slots whose tables it shares with the kernel's. */
  datatype Space = Space(pages: Pages, upper: set<nat>)
  datatype World = World(spaces: map<nat, Space>, kernel: nat)

  /** A table in an upper slot is one table for every space that holds it. */
  ghost predicate Sees(w: World, c: nat, d: nat, slot: nat)
    requires c in w.spaces && d in w.spaces
  {
    c == d || (slot in w.spaces[c].upper && slot in w.spaces[d].upper)
  }

  type Pages = nat -> word

  function WithPage(pages: Pages, page: nat, e: word): Pages { (vp: nat) => if vp == page then e else pages(vp) }

  /** User pages from one map, upper pages from another. */
  function Joined(user: Pages, upper: Pages): Pages { (vp: nat) => if vp < USER_PAGES then user(vp) else upper(vp) }

  function Empty(): Pages { (vp: nat) => 0 }

  function Shared(pages: Pages): Pages { (vp: nat) => SharedEntry(pages(vp)) }

  function Copies(pages: Pages): Pages { (vp: nat) => CopiedEntry(pages(vp)) }

  /** Entry e at the page in d and in every space that shares its table. */
  ghost function Stored(w: World, d: nat, page: nat, e: word): map<nat, Space>
    requires d in w.spaces
  {
    map c | c in w.spaces :: if Sees(w, c, d, page / 1024)
      then w.spaces[c].(pages := WithPage(w.spaces[c].pages, page, e)) else w.spaces[c]
  }

  ghost predicate Known(w: World, op: Op) {
    && w.kernel in w.spaces && (op.Map? || op.Unmap? ==> op.dir in w.spaces) && (op.Copy? ==> op.src in w.spaces)
  }

  function Marked(a: Space): Space { a.(pages := Joined(Shared(a.pages), a.pages)) }

  function CopyOf(a: Space, kernel: Space): Space { Space(Joined(Copies(a.pages), kernel.pages), kernel.upper) }

  /** The effect of an operation; `made` is the directory it returns. */
  ghost function Effect(w: World, op: Op, made: nat): World
    requires Known(w, op)
  {
    var kernel := w.spaces[w.kernel];
    match op
    case Map(d, page, phys, flags) =>
      var spaces := Stored(w, d, page, PteOf(phys, flags));
      var upper := if page >= USER_PAGES then w.spaces[d].upper + {page / 1024} else w.spaces[d].upper;
      w.(spaces := spaces[d := spaces[d].(upper := upper)])
    case Unmap(d, page) => w.(spaces := Stored(w, d, page, 0))
    case Create => w.(spaces := w.spaces[made := Space(Joined(Empty(), kernel.pages), kernel.upper)])
    case Copy(src) =>
      w.(spaces := w.spaces[src := Marked(w.spaces[src])][made := CopyOf(w.spaces[src], kernel)])
    case Remove(d) => w.(spaces := w.spaces - {d})
  }

  // ---- page tables

  /** What the callers must see to: directories in use, room for tables, and sole ownership of what is destroyed. */
  ghost predicate Legal(s: Phys, dirs: set<nat>, op: Op) {
    match op
    case Map(d, page, _, _) => d in dirs && MayMap(s, d, page) && (NeedsTable(s, d, page) ==> Room(s.pmm, 1))
    case Unmap(d, page) => d in dirs && page < ALL_PAGES
    case Create => Room(s.pmm, 1)
    case Copy(src) => src in dirs && Room(s.pmm, 1 + PresentSlots(s.mem, src, 0))
    case Remove(d) => d in dirs && d != s.kernelDir && Managed(s, d) && MapsNoTables(s, dirs, d)
  }

  /** Memory, directories, and the directory returned (0 where none is). */
  ghost function Done(s: Phys, dirs: set<nat>, op: Op): (Phys, set<nat>, nat)
    requires Inv(s, dirs) && Legal(s, dirs, op)
  {
    match op
    case Map(d, page, phys, flags) => MapAllowed(s, dirs, d, page); (MapPage(s, d, page, phys, flags), dirs, 0)
    case Unmap(d, page) => MapAllowed(s, dirs, d, page); (UnmapPage(s, d, page), dirs, 0)
    case Create => var (r, d) := CreateDirectory(s); (r, dirs + {d}, d)
    case Copy(src) => var (r, d) := Clone(s, src); (r, dirs + {d}, d)
    case Remove(d) => DestroyKeepsInv(s, dirs, d); (Destroy(s, d), dirs - {d}, 0)
  }

  ghost predicate SamePages(s: Phys, d: nat, a: Space) {
    && (forall vp: nat :: vp < ALL_PAGES ==> Pte(s.mem, d, vp) == a.pages(vp))
    && (forall i: nat :: 768 <= i < 1024 ==> (Present(Entry(s.mem, d, i)) <==> i in a.upper))
    && (forall i <- a.upper :: 768 <= i < 1024)
  }

  /** The page tables of the live directories mean the maps of w. */
  ghost predicate Means(s: Phys, dirs: set<nat>, w: World) {
    && Inv(s, dirs) && w.kernel == s.kernelDir && w.spaces.Keys == dirs
    && (forall d <- dirs :: SamePages(s, d, w.spaces[d]))
  }

  // ---- one operation

  /** Which slots of all directories hold tables after a page was mapped. */
  lemma MapAllSlots(s: Phys, dirs: set<nat>, d: nat, vp: nat, phys: word, flags: word, c: nat, i: nat)
    requires Inv(s, dirs) && d in dirs && MayMap(s, d, vp) && (NeedsTable(s, d, vp) ==> Room(s.pmm, 1))
    requires c in dirs && i < 1024
    ensures Backed(s, d, vp)
    ensures Present(Entry(MapPage(s, d, vp, phys, flags).mem, c, i)) <==>
      (c == d && i == vp / 1024) || Present(Entry(s.mem, c, i))
  {
    MapAllowed(s, dirs, d, vp);
    if NeedsTable(s, d, vp) {
      MapInNewTable(s, dirs, d, vp, phys, flags);
      PdeOfPresent(Alloc(s.pmm).1, flags);
    } else {
      StoreMeaning(s, dirs, d, vp, PteOf(phys, flags));
    }
  }

  lemma SeesAgrees(s: Phys, dirs: set<nat>, w: World, c: nat, d: nat, page: nat)
    requires Means(s, dirs, w) && c in dirs && d in dirs && page < ALL_PAGES
    ensures Sees(w, c, d, page / 1024) <==> SeesTable(s, c, d, page / 1024)
  {
    assert SamePages(s, c, w.spaces[c]) && SamePages(s, d, w.spaces[d]);
  }

  /** What a store at one page makes of one space. */
  lemma StoredSpace(s: Phys, dirs: set<nat>, w: World, r: Phys, d: nat, page: nat, e: word, c: nat)
    requires Means(s, dirs, w) && c in dirs && d in dirs && page < ALL_PAGES && MapsOnly(s, r, dirs, d, page, e)
    ensures forall vp: nat :: vp < ALL_PAGES ==> Pte(r.mem, c, vp) == Stored(w, d, page, e)[c].pages(vp)
    ensures Stored(w, d, page, e)[c].upper == w.spaces[c].upper && SamePages(s, c, w.spaces[c])
  {
    SeesAgrees(s, dirs, w, c, d, page);
    hide Inv, Entry, Pte, SeesTable, Sees;
    assert SamePages(s, c, w.spaces[c]);
  }

  lemma MapMeans(s: Phys, dirs: set<nat>, w: World, d: nat, page: nat, phys: word, flags: word)
    requires Means(s, dirs, w) && Legal(s, dirs, Map(d, page, phys, flags))
    ensures Backed(s, d, page)
    ensures Means(MapPage(s, d, page, phys, flags), dirs, Effect(w, Map(d, page, phys, flags), 0))
  {
    hide MapPage, PteOf, Inv, Entry, Pte, SeesTable, Sees, WithPage, Stored, MapsOnly, SamePages;
    MeansInv(s, dirs, w);
    MapMeaning(s, dirs, d, page, phys, flags);
    MapPmm(s, d, page, phys, flags);
    var r, x, e := MapPage(s, d, page, phys, flags), Effect(w, Map(d, page, phys, flags), 0), PteOf(phys, flags);
    StoredKeys(w, d, page, e);
    forall c | c in dirs ensures SamePages(r, c, x.spaces[c]) {
      MappedSpace(s, dirs, w, d, page, phys, flags, c);
    }
  }

  lemma MappedSpace(s: Phys, dirs: set<nat>, w: World, d: nat, page: nat, phys: word, flags: word, c: nat)
    requires Means(s, dirs, w) && Legal(s, dirs, Map(d, page, phys, flags)) && c in dirs && Backed(s, d, page)
    requires MapsOnly(s, MapPage(s, d, page, phys, flags), dirs, d, page, PteOf(phys, flags))
    ensures SamePages(MapPage(s, d, page, phys, flags), c, Effect(w, Map(d, page, phys, flags), 0).spaces[c])
  {
    hide MapPage, PteOf, Inv, Entry, Pte, SeesTable, Sees, WithPage, Stored, MapsOnly;
    var r := MapPage(s, d, page, phys, flags);
    StoredSpace(s, dirs, w, r, d, page, PteOf(phys, flags), c);
    forall i: nat | i < 1024
      ensures Present(Entry(r.mem, c, i)) <==> (c == d && i == page / 1024) || Present(Entry(s.mem, c, i))
    {
      MapAllSlots(s, dirs, d, page, phys, flags, c, i);
    }
  }

  lemma StoredKeys(w: World, d: nat, page: nat, e: word)
    requires d in w.spaces
    ensures Stored(w, d, page, e).Keys == w.spaces.Keys
  {
  }

  lemma UnmapMeans(s: Phys, dirs: set<nat>, w: World, d: nat, page: nat)
    requires Means(s, dirs, w) && Legal(s, dirs, Unmap(d, page))
    ensures Backed(s, d, page) && Means(UnmapPage(s, d, page), dirs, Effect(w, Unmap(d, page), 0))
  {
    UnmapMeaning(s, dirs, d, page);
    var r, x := UnmapPage(s, d, page), Effect(w, Unmap(d, page), 0);
    forall c: nat, i: nat | c in dirs && i < 1024 ensures Entry(r.mem, c, i) == Entry(s.mem, c, i) {
      UnmapKeepsEntries(s, dirs, d, page, c, i);
    }
    hide UnmapPage, Inv, Entry, Pte, SeesTable, Sees, WithPage, Stored, MapsOnly;
    forall c | c in dirs ensures SamePages(r, c, x.spaces[c]) {
      StoredSpace(s, dirs, w, r, d, page, 0, c);
    }
    StoredKeys(w, d, page, 0);
  }

  lemma UnmapKeepsEntries(s: Phys, dirs: set<nat>, d: nat, page: nat, c: nat, i: nat)
    requires Inv(s, dirs) && d in dirs && page < ALL_PAGES && c in dirs && i < 1024
    ensures Backed(s, d, page) && Entry(UnmapPage(s, d, page).mem, c, i) == Entry(s.mem, c, i)
  {
    MapAllowed(s, dirs, d, page);
    if !NeedsTable(s, d, page) { StoreMeaning(s, dirs, d, page, 0); }
  }

  /** A directory that shares the kernel's upper slots translates upper pages as the kernel does. */
  lemma UpperPages(s: Phys, d: nat, vp: nat)
    requires forall i :: 768 <= i < 1024 ==> Entry(s.mem, d, i) == Entry(s.mem, s.kernelDir, i)
    requires USER_PAGES <= vp < ALL_PAGES
    ensures Pte(s.mem, d, vp) == Pte(s.mem, s.kernelDir, vp)
  {
  }

  lemma LowerPages(s: Phys, d: nat, vp: nat)
    requires (forall i :: 0 <= i < 768 ==> !Present(Entry(s.mem, d, i))) && vp < USER_PAGES
    ensures Pte(s.mem, d, vp) == 0
  {
  }

  lemma CreateMeans(s: Phys, dirs: set<nat>, w: World)
    requires Means(s, dirs, w) && Legal(s, dirs, Create)
    ensures var (r, d) := CreateDirectory(s); Means(r, dirs + {d}, Effect(w, Create, d))
  {
    CreateMeaning(s, dirs);
    var (r, d) := CreateDirectory(s);
    assert s.kernelDir in dirs;
    var x := Effect(w, Create, d);
    hide CreateDirectory, Inv, Entry, Pte;
    forall c | c in dirs ensures SamePages(r, c, x.spaces[c]) { assert SamePages(s, c, w.spaces[c]); }
    assert SamePages(r, d, x.spaces[d]) by {
      assert SamePages(s, s.kernelDir, w.spaces[s.kernelDir]);
      forall vp: nat | vp < ALL_PAGES ensures Pte(r.mem, d, vp) == x.spaces[d].pages(vp) {
        if vp < USER_PAGES { LowerPages(r, d, vp); } else { UpperPages(r, d, vp); }
      }
    }
  }

  lemma CopyKeepsSpace(s: Phys, dirs: set<nat>, src: nat, r: Phys, d: nat, c: nat, a: Space)
    requires ClonedTo(s, dirs, src, r, d) && c in dirs && SamePages(s, c, a)
    ensures SamePages(r, c, if c == src then Marked(a) else a)
  {
    hide Inv, Entry, Pte, SharedEntry, CopiedEntry, PresentSlots;
  }

  lemma ClonedDirs(s: Phys, dirs: set<nat>, src: nat, r: Phys, d: nat)
    requires ClonedTo(s, dirs, src, r, d)
    ensures d !in dirs && Inv(r, dirs + {d}) && r.kernelDir == s.kernelDir
  {
  }

  lemma CopyMakesSpace(s: Phys, dirs: set<nat>, src: nat, r: Phys, d: nat, a: Space, kernel: Space)
    requires ClonedTo(s, dirs, src, r, d) && src in dirs && s.kernelDir in dirs
    requires SamePages(s, src, a) && SamePages(s, s.kernelDir, kernel)
    ensures SamePages(r, d, CopyOf(a, kernel))
  {
    hide Inv, Entry, Pte, SharedEntry, CopiedEntry, PresentSlots;
    forall vp: nat | USER_PAGES <= vp < ALL_PAGES ensures Pte(r.mem, d, vp) == kernel.pages(vp) {
      UpperPages(r, d, vp);
    }
  }

  lemma CopyMeans(s: Phys, dirs: set<nat>, w: World, src: nat)
    requires Means(s, dirs, w) && Legal(s, dirs, Copy(src))
    ensures var (r, d) := Clone(s, src); Means(r, dirs + {d}, Effect(w, Copy(src), d))
  {
    hide Clone, Inv, SamePages, Marked, CopyOf, PresentSlots, ClonedTo;
    MeansInv(s, dirs, w);
    CloneResult(s, dirs, src);
    var (r, d) := Clone(s, src);
    ClonedDirs(s, dirs, src, r, d);
    CopyMakesSpace(s, dirs, src, r, d, w.spaces[src], w.spaces[w.kernel]);
    forall c | c in dirs ensures SamePages(r, c, if c == src then Marked(w.spaces[c]) else w.spaces[c]) {
      CopyKeepsSpace(s, dirs, src, r, d, c, w.spaces[c]);
    }
  }

  lemma RemoveMeans(s: Phys, dirs: set<nat>, w: World, d: nat)
    requires Means(s, dirs, w) && Legal(s, dirs, Remove(d))
    ensures LeavesInRange(s.mem, d) && Means(Destroy(s, d), dirs - {d}, Effect(w, Remove(d), 0))
  {
    DestroyKeepsInv(s, dirs, d);
    var r, x := Destroy(s, d), Effect(w, Remove(d), 0);
    DestroyMeaning(s, d, 0);
    hide Destroy, Inv, Entry, Pte;
    forall c | c in dirs - {d} ensures SamePages(r, c, x.spaces[c]) { assert SamePages(s, c, w.spaces[c]); }
  }

  /** Every operation does to the page tables what it does to the maps. */
  lemma StepMeans(s: Phys, dirs: set<nat>, w: World, op: Op)
    requires Means(s, dirs, w) && Legal(s, dirs, op)
    ensures Known(w, op)
    ensures var (r, now, made) := Done(s, dirs, op); Means(r, now, Effect(w, op, made))
  {
    assert s.kernelDir in dirs;
    hide Effect, Clone, CreateDirectory, Destroy, MapPage, UnmapPage;
    match op
    case Map(d, page, phys, flags) => MapMeans(s, dirs, w, d, page, phys, flags);
    case Unmap(d, page) => UnmapMeans(s, dirs, w, d, page);
    case Create => CreateMeans(s, dirs, w);
    case Copy(src) => CopyMeans(s, dirs, w, src);
    case Remove(d) => RemoveMeans(s, dirs, w, d);
  }

  // ---- whole runs

  ghost predicate LegalRun(s: Phys, dirs: set<nat>, ops: seq<Op>)
    requires Inv(s, dirs)
    decreases |ops|
  {
    ops != [] ==>
      && Legal(s, dirs, ops[0])
      && var (r, now, _) := Done(s, dirs, ops[0]);
        Inv(r, now) && LegalRun(r, now, ops[1..])
  }

  ghost function Run(s: Phys, dirs: set<nat>, ops: seq<Op>): (Phys, set<nat>)
    requires Inv(s, dirs) && LegalRun(s, dirs, ops)
    decreases |ops|
  {
    if ops == [] then (s, dirs)
    else
      var (r, now, _) := Done(s, dirs, ops[0]);
      Run(r, now, ops[1..])
  }

  /** The same run on plain maps; directories are named by what the allocator returned. */
  ghost function RunOf(s: Phys, dirs: set<nat>, w: World, ops: seq<Op>): World
    requires Means(s, dirs, w) && LegalRun(s, dirs, ops)
    decreases |ops|
  {
    if ops == [] then w
    else
      var (r, now, made) := Done(s, dirs, ops[0]);
      StepMeans(s, dirs, w, ops[0]);
      RunOf(r, now, Effect(w, ops[0], made), ops[1..])
  }

  /** Over every run the page tables mean what the plain maps say. */
  lemma {:induction false} RunMeans(s: Phys, dirs: set<nat>, w: World, ops: seq<Op>)
    requires Means(s, dirs, w) && LegalRun(s, dirs, ops)
    ensures var (r, now) := Run(s, dirs, ops); Means(r, now, RunOf(s, dirs, w, ops))
    decreases |ops|
  {
    hide Means, Legal, Done, Effect, Known;
    if ops != [] {
      MeansInv(s, dirs, w);
      StepMeans(s, dirs, w, ops[0]);
      var (r, now, made) := Done(s, dirs, ops[0]);
      RunMeans(r, now, Effect(w, ops[0], made), ops[1..]);
    }
  }

  lemma MeansInv(s: Phys, dirs: set<nat>, w: World)
    requires Means(s, dirs, w)
    ensures Inv(s, dirs) && s.kernelDir in dirs
    ensures 0 < s.pmm.total <= MAX_FRAMES && |s.mem| == 1024 * s.pmm.total
  {
  }

  /** ... and `vmm_get_physical` answers from them, on every mapped page of every directory. */
  lemma AnswersFromMaps(s: Phys, dirs: set<nat>, w: World, ops: seq<Op>, d: nat, virt: word)
    requires Means(s, dirs, w) && LegalRun(s, dirs, ops) && d in RunOf(s, dirs, w, ops).spaces
    requires Present(RunOf(s, dirs, w, ops).spaces[d].pages(virt / 4096))
    ensures GetPhysical(Run(s, dirs, ops).0.mem, d, virt) ==
      4096 * FrameOf(RunOf(s, dirs, w, ops).spaces[d].pages(virt / 4096)) + virt % 4096
  {
    RunMeans(s, dirs, w, ops);
    var r, x := Run(s, dirs, ops).0, RunOf(s, dirs, w, ops);
    assert SamePages(r, d, x.spaces[d]);
    PhysicalOfMapped(r.mem, d, virt);
    BitZero(0);
  }
}
