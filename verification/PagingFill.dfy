/**
 A directory created, filled with freshly allocated pages and destroyed: everything comes back
 exactly when no page was mapped twice.
 */
module PagingFill {
  import opened Bits
  import opened Frames
  import opened Paging
  import opened PagingLaws
  import opened PagingClone
  import opened PagingAccess
  import opened PagingDestroy
  import opened PagingLife

  datatype Request = Request(page: nat, flags: word)

  ghost predicate GoodRequests(rs: seq<Request>) {
    forall i :: 0 <= i < |rs| ==> rs[i].page < USER_PAGES && rs[i].flags < 4096
  }

  ghost predicate DistinctPages(rs: seq<Request>) {
    forall i, j :: 0 <= i < j < |rs| ==> rs[i].page != rs[j].page
  }

  /** `vmm_map(d, page, pmm_alloc(), flags)` */
  function MapFresh(s: Phys, d: nat, q: Request): Phys
    requires Backed(s, d, q.page)
  {
    var (m, f) := Alloc(s.pmm);
    MapPage(s.(pmm := m), d, q.page, 4096 * f, q.flags)
  }

  /** Bookkeeping along the way: what was marked before, what d owns, and what nobody maps any more. */
  ghost predicate Tracks(before: Phys, s: Phys, dirs: set<nat>, d: nat, done: set<nat>, lost: set<nat>) {
    && Inv(s, dirs) && d in dirs && d != s.kernelDir && before.pmm.total == s.pmm.total
    && (forall p: nat :: p < MAX_FRAMES ==>
      (Test(s.pmm.bitmap, p) <==> Test(before.pmm.bitmap, p) || Owns(s.mem, d, p) || p in lost))
    && (forall p: nat :: Owns(s.mem, d, p) ==> p < s.pmm.total && !Test(before.pmm.bitmap, p) && p !in lost)
    && (forall p: nat :: p in lost ==> p < s.pmm.total && !Test(before.pmm.bitmap, p))
    && (forall vp: nat :: vp < USER_PAGES ==> (Present(Pte(s.mem, d, vp)) <==> vp in done))
    && LeavesDistinct(s.mem, d)
  }

  /** No frame backs two user pages of d, or a page and a table. */
  ghost predicate LeavesDistinct(mem: seq<word>, d: nat) {
    && (forall vp: nat, up: nat, p: nat ::
      vp < USER_PAGES && up < USER_PAGES && MapsAt(mem, d, vp, p) && MapsAt(mem, d, up, p) ==> vp == up)
    && (forall vp: nat, p: nat :: vp < USER_PAGES && MapsAt(mem, d, vp, p) ==> p != d && !UserTable(mem, d, p))
  }

  /** Tables after a page was mapped: those before, and a new one if the page had none. */
  lemma MapTables(s: Phys, dirs: set<nat>, d: nat, vp: nat, phys: word, flags: word, p: nat)
    requires Inv(s, dirs) && d in dirs && vp < USER_PAGES
    requires NeedsTable(s, d, vp) ==> Room(s.pmm, 1)
    ensures Backed(s, d, vp)
    ensures var r := MapPage(s, d, vp, phys, flags);
      && (UserTable(r.mem, d, p) <==> UserTable(s.mem, d, p) || (NeedsTable(s, d, vp) && p == Alloc(s.pmm).1))
      && r.pmm == (if NeedsTable(s, d, vp) then Alloc(s.pmm).0 else s.pmm)
  {
    MapAllowed(s, dirs, d, vp);
    var r, i := MapPage(s, d, vp, phys, flags), vp / 1024;
    MapPmm(s, d, vp, phys, flags);
    if NeedsTable(s, d, vp) {
      MapInNewTable(s, dirs, d, vp, phys, flags);
      PdeOfPresent(Alloc(s.pmm).1, flags);
      assert Entry(r.mem, d, i) == PdeOf(Alloc(s.pmm).1, flags);
      if UserTable(s.mem, d, p) {
        var k: nat :| k < 768 && Present(Entry(s.mem, d, k)) && FrameOf(Entry(s.mem, d, k)) == p;
        assert Entry(r.mem, d, k) == Entry(s.mem, d, k);
      }
    } else {
      StoreMeaning(s, dirs, d, vp, PteOf(phys, flags));
      assert forall k: nat :: k < 1024 ==> Entry(r.mem, d, k) == Entry(s.mem, d, k);
    }
  }

  /** The frame that page vp loses when it is mapped again. */
  function Overwritten(s: Phys, d: nat, vp: nat): set<nat> {
    if Present(Pte(s.mem, d, vp)) then {FrameOf(Pte(s.mem, d, vp))} else {}
  }

  /** What d owns after one fresh mapping. */
  lemma MapFreshOwns(s: Phys, dirs: set<nat>, d: nat, q: Request)
    requires Inv(s, dirs) && d in dirs && d != s.kernelDir && Room(s.pmm, if NeedsTable(s, d, q.page) then 2 else 1)
    requires q.page < USER_PAGES && q.flags < 4096 && LeavesDistinct(s.mem, d)
    ensures Backed(s, d, q.page)
    ensures var r, f := MapFresh(s, d, q), Alloc(s.pmm).1;
      && Inv(r, dirs) && r.kernelDir == s.kernelDir && r.pmm.total == s.pmm.total
      && r.pmm.used == s.pmm.used + (if NeedsTable(s, d, q.page) then 2 else 1)
      && 0 < f < s.pmm.total && !Test(s.pmm.bitmap, f)
      && (forall vp: nat, p: nat :: vp < USER_PAGES ==>
        (MapsAt(r.mem, d, vp, p) <==> if vp == q.page then p == f else MapsAt(s.mem, d, vp, p)))
      && (forall vp: nat :: vp < USER_PAGES ==> (Present(Pte(r.mem, d, vp)) <==>
        vp == q.page || Present(Pte(s.mem, d, vp))))
      && (forall p: nat :: UserTable(r.mem, d, p) <==> UserTable(s.mem, d, p) || NewTable(s, d, q.page, p))
      && (forall p: nat :: p < MAX_FRAMES ==>
        (Test(r.pmm.bitmap, p) <==> Test(s.pmm.bitmap, p) || p == f || NewTable(s, d, q.page, p)))
      && (forall p: nat :: NewTable(s, d, q.page, p) ==> p != f && p < s.pmm.total && !Test(s.pmm.bitmap, p))
  {
    hide PteOf, Bit;
    MapAllowed(s, dirs, d, q.page);
    AllocMeaning(s.pmm);
    TakeFrameKeepsInv(s, dirs);
    var (m, f) := Alloc(s.pmm);
    var s1 := s.(pmm := m);
    if NeedsTable(s, d, q.page) { AllocMeaning(m); }
    MapMeaning(s1, dirs, d, q.page, 4096 * f, q.flags);
    var r := MapPage(s1, d, q.page, 4096 * f, q.flags);
    PteOfBits(4096 * f, q.flags, 0);
    PteOfFrame(4096 * f, q.flags);
    assert forall vp: nat :: vp < USER_PAGES ==>
      Pte(r.mem, d, vp) == if vp == q.page then PteOf(4096 * f, q.flags) else Pte(s.mem, d, vp);
    MapTables(s1, dirs, d, q.page, 4096 * f, q.flags, 0);
    forall p: nat ensures UserTable(r.mem, d, p) <==> UserTable(s.mem, d, p) || NewTable(s, d, q.page, p) {
      MapTables(s1, dirs, d, q.page, 4096 * f, q.flags, p);
    }
  }

  /** p becomes a table when page vp of d, which has none, is mapped. */
  predicate NewTable(s: Phys, d: nat, vp: nat, p: nat)
    requires s.pmm.total <= MAX_FRAMES
  {
    NeedsTable(s, d, vp) && p == Alloc(Alloc(s.pmm).0).1
  }

  lemma MapFreshTracks(before: Phys, s: Phys, dirs: set<nat>, d: nat, q: Request, done: set<nat>, lost: set<nat>)
    requires Tracks(before, s, dirs, d, done, lost)
    requires q.page < USER_PAGES && q.flags < 4096 && Room(s.pmm, if NeedsTable(s, d, q.page) then 2 else 1)
    ensures Backed(s, d, q.page)
    ensures Tracks(before, MapFresh(s, d, q), dirs, d, done + {q.page}, lost + Overwritten(s, d, q.page))
    ensures MapFresh(s, d, q).pmm.used == s.pmm.used + (if NeedsTable(s, d, q.page) then 2 else 1)
  {
    hide Entry, MapPage, Alloc, Test, FrameOf, Bit;
    MapFreshOwns(s, dirs, d, q);
    var r, f, lost' := MapFresh(s, d, q), Alloc(s.pmm).1, lost + Overwritten(s, d, q.page);
    assert !Owns(s.mem, d, f) by { assert Test(s.pmm.bitmap, f) || !Owns(s.mem, d, f); }
    forall p: nat
      ensures Owns(r.mem, d, p) <==>
        p == f || NewTable(s, d, q.page, p) || (Owns(s.mem, d, p) && p !in Overwritten(s, d, q.page))
    {
      OwnsAfter(s, r, d, q.page, f, p);
    }
    assert forall p: nat :: Owns(s.mem, d, p) ==> Test(s.pmm.bitmap, p);
    assert forall p: nat :: p in Overwritten(s, d, q.page) ==> Owns(s.mem, d, p) by {
      forall p: nat | p in Overwritten(s, d, q.page) ensures Owns(s.mem, d, p) { assert MapsAt(s.mem, d, q.page, p); }
    }
    forall vp: nat, p: nat | vp < USER_PAGES && MapsAt(r.mem, d, vp, p) ensures p != d && !UserTable(r.mem, d, p) {
      assert vp != q.page ==> Owns(s.mem, d, p);
    }
    forall vp: nat, up: nat, p: nat | vp < USER_PAGES && up < USER_PAGES && MapsAt(r.mem, d, vp, p)
      && MapsAt(r.mem, d, up, p)
      ensures vp == up
    {
      assert vp != q.page ==> Owns(s.mem, d, p);
      assert up != q.page ==> Owns(s.mem, d, p);
    }
  }

  lemma OwnsAfter(s: Phys, r: Phys, d: nat, page: nat, f: nat, p: nat)
    requires s.pmm.total <= MAX_FRAMES && page < USER_PAGES && LeavesDistinct(s.mem, d)
    requires !Owns(s.mem, d, f)
    requires forall vp: nat :: vp < USER_PAGES ==>
      (MapsAt(r.mem, d, vp, p) <==> if vp == page then p == f else MapsAt(s.mem, d, vp, p))
    requires UserTable(r.mem, d, p) <==> UserTable(s.mem, d, p) || NewTable(s, d, page, p)
    ensures Owns(r.mem, d, p) <==>
      p == f || NewTable(s, d, page, p) || (Owns(s.mem, d, p) && p !in Overwritten(s, d, page))
  {
    if p == f { assert MapsAt(r.mem, d, page, p); }
    if UserLeaf(s.mem, d, p) {
      var vp: nat :| vp < USER_PAGES && MapsAt(s.mem, d, vp, p);
      assert vp != page ==> MapsAt(r.mem, d, vp, p);
    }
    if UserLeaf(r.mem, d, p) && p != f {
      var vp: nat :| vp < USER_PAGES && MapsAt(r.mem, d, vp, p);
      assert MapsAt(s.mem, d, vp, p);
    }
    if p in Overwritten(s, d, page) { assert MapsAt(s.mem, d, page, p); }
  }

  // ---- the whole series

  /** Every mapping of the series finds its directory and table in memory. */
  ghost predicate Fillable(s: Phys, d: nat, rs: seq<Request>)
    decreases |rs|
  {
    rs != [] ==> Backed(s, d, rs[0].page) && rs[0].flags < 4096 && Fillable(MapFresh(s, d, rs[0]), d, rs[1..])
  }

  ghost function Fill(s: Phys, d: nat, rs: seq<Request>): Phys
    requires Fillable(s, d, rs)
    decreases |rs|
  {
    if rs == [] then s else Fill(MapFresh(s, d, rs[0]), d, rs[1..])
  }

  ghost function Pages(rs: seq<Request>): set<nat> { set i | 0 <= i < |rs| :: rs[i].page }

  /** The slots of d that rs begins: each costs a table. */
  ghost function NewSlots(mem: seq<word>, d: nat, rs: seq<Request>): set<nat> {
    set i | 0 <= i < |rs| && !Present(Entry(mem, d, rs[i].page / 1024)) :: rs[i].page / 1024
  }

  /** Frames the series costs: one for each page and one for each table. */
  ghost function Cost(mem: seq<word>, d: nat, rs: seq<Request>): nat { |rs| + |NewSlots(mem, d, rs)| }

  lemma CostStep(s: Phys, dirs: set<nat>, d: nat, rs: seq<Request>)
    requires Inv(s, dirs) && d in dirs && rs != [] && rs[0].page < USER_PAGES
    requires Room(s.pmm, if NeedsTable(s, d, rs[0].page) then 2 else 1)
    ensures Backed(s, d, rs[0].page)
    ensures Cost(s.mem, d, rs) >= Cost(MapFresh(s, d, rs[0]).mem, d, rs[1..]) +
      (if NeedsTable(s, d, rs[0].page) then 2 else 1)
  {
    MapAllowed(s, dirs, d, rs[0].page);
    TakeFrameKeepsInv(s, dirs);
    AllocMeaning(s.pmm);
    MapSlots(s.(pmm := Alloc(s.pmm).0), dirs, d, rs[0].page, 4096 * Alloc(s.pmm).1, rs[0].flags);
    hide Entry, MapFresh, MapPage, Alloc;
    SlotsLeft(s.mem, MapFresh(s, d, rs[0]).mem, d, rs);
  }

  lemma SlotsLeft(mem: seq<word>, after: seq<word>, d: nat, rs: seq<Request>)
    requires rs != [] && rs[0].page < USER_PAGES
    requires forall i: nat :: i < 1024 ==> (Present(Entry(after, d, i)) <==>
      i == rs[0].page / 1024 || Present(Entry(mem, d, i)))
    ensures |NewSlots(mem, d, rs)| >=
      |NewSlots(after, d, rs[1..])| + (if Present(Entry(mem, d, rs[0].page / 1024)) then 0 else 1)
  {
    hide Bit;
    var t, all, i := rs[1..], NewSlots(mem, d, rs), rs[0].page / 1024;
    forall k | k in NewSlots(after, d, t) ensures k in all - {i} {
      var j :| 0 <= j < |t| && t[j].page / 1024 == k && !Present(Entry(after, d, k));
      assert rs[j + 1] == t[j];
    }
    Fewer(NewSlots(after, d, t), all - {i});
    assert i in all <==> !Present(Entry(mem, d, i));
  }

  lemma {:induction false} Fewer(a: set<nat>, b: set<nat>)
    requires a <= b
    ensures |a| <= |b|
  {
    if a != {} {
      var x :| x in a;
      Fewer(a - {x}, b - {x});
    }
  }

  lemma {:induction false} FillTracks(before: Phys, s: Phys, dirs: set<nat>, d: nat, rs: seq<Request>,
      done: set<nat>, lost: set<nat>)
    returns (lost': set<nat>)
    requires Tracks(before, s, dirs, d, done, lost) && GoodRequests(rs) && Room(s.pmm, Cost(s.mem, d, rs))
    ensures Fillable(s, d, rs) && Tracks(before, Fill(s, d, rs), dirs, d, done + Pages(rs), lost')
    ensures lost' == {} <==> lost == {} && DistinctPages(rs) && done !! Pages(rs)
    decreases |rs|
  {
    hide Tracks, Test, NewSlots, Cost, MapFresh, DistinctPages, Overwritten, Pages;
    if rs == [] {
      lost' := lost;
      NoPages(rs, done);
    } else {
      FillStep(before, s, dirs, d, rs, done, lost);
      var q := rs[0];
      lost' := FillTracks(before, MapFresh(s, d, q), dirs, d, rs[1..], done + {q.page},
        lost + Overwritten(s, d, q.page));
      PagesCons(rs);
      assert done + {q.page} + Pages(rs[1..]) == done + Pages(rs);
    }
  }

  lemma NoPages(rs: seq<Request>, done: set<nat>)
    requires rs == []
    ensures done + Pages(rs) == done && done !! Pages(rs) && DistinctPages(rs)
  {
    assert Pages(rs) == {};
  }

  /** One mapping of the series. */
  lemma FillStep(before: Phys, s: Phys, dirs: set<nat>, d: nat, rs: seq<Request>, done: set<nat>, lost: set<nat>)
    requires rs != [] && Tracks(before, s, dirs, d, done, lost) && GoodRequests(rs) && Room(s.pmm, Cost(s.mem, d, rs))
    ensures Backed(s, d, rs[0].page)
    ensures var n := MapFresh(s, d, rs[0]);
      && Tracks(before, n, dirs, d, done + {rs[0].page}, lost + Overwritten(s, d, rs[0].page))
      && Room(n.pmm, Cost(n.mem, d, rs[1..]))
    ensures Overwritten(s, d, rs[0].page) == {} <==> rs[0].page !in done
  {
    FirstAffordable(s, d, rs);
    CostStep(s, dirs, d, rs);
    MapFreshTracks(before, s, dirs, d, rs[0], done, lost);
    hide Entry, Pte, Cost, Test;
    assert rs[0].page < USER_PAGES;
  }

  lemma FirstAffordable(s: Phys, d: nat, rs: seq<Request>)
    requires rs != []
    ensures Cost(s.mem, d, rs) >= if NeedsTable(s, d, rs[0].page) then 2 else 1
  {
    if NeedsTable(s, d, rs[0].page) { assert rs[0].page / 1024 in NewSlots(s.mem, d, rs); }
  }

  lemma PagesCons(rs: seq<Request>)
    requires rs != []
    ensures Pages(rs) == {rs[0].page} + Pages(rs[1..])
    ensures DistinctPages(rs) <==> DistinctPages(rs[1..]) && rs[0].page !in Pages(rs[1..])
  {
    var t := rs[1..];
    assert forall i :: 0 <= i < |t| ==> t[i] == rs[i + 1];
    forall p | p in Pages(rs) ensures p in {rs[0].page} + Pages(t) {
      var i :| 0 <= i < |rs| && rs[i].page == p;
      if i > 0 { assert t[i - 1].page == p; }
    }
    forall p | p in Pages(t) ensures p in Pages(rs) {
      var i :| 0 <= i < |t| && t[i].page == p;
      assert rs[i + 1].page == p;
    }
    if DistinctPages(t) && rs[0].page !in Pages(t) {
      forall i, j | 0 <= i < j < |rs| ensures rs[i].page != rs[j].page {
        assert rs[j] == t[j - 1] && t[j - 1].page in Pages(t);
        if i > 0 { assert rs[i] == t[i - 1]; }
      }
    }
    if DistinctPages(rs) {
      forall i, j | 0 <= i < j < |t| ensures t[i].page != t[j].page { assert t[i] == rs[i + 1] && t[j] == rs[j + 1]; }
      forall i | 0 <= i < |t| ensures t[i].page != rs[0].page { assert t[i] == rs[i + 1]; }
    }
  }

  lemma NewDirectoryTracks(s: Phys, dirs: set<nat>)
    requires Inv(s, dirs) && Room(s.pmm, 1)
    ensures var (r, d) := CreateDirectory(s);
      Tracks(s, r, dirs + {d}, d, {}, {}) && r.pmm.used == s.pmm.used + 1
  {
    var (r, d) := CreateDirectory(s);
    CreateMeaning(s, dirs);
    AllocMeaning(s.pmm);
    BitZero(0);
    assert forall p: nat :: !UserTable(r.mem, d, p);
    assert forall vp: nat :: vp < USER_PAGES ==> Pte(r.mem, d, vp) == 0 by {
      assert forall vp: nat :: vp < USER_PAGES ==> vp / 1024 < 768;
    }
    assert forall p: nat :: !UserLeaf(r.mem, d, p);
  }

  /** The slots that the pages of rs lie in. */
  ghost function Slots(rs: seq<Request>): set<nat> { set i | 0 <= i < |rs| :: rs[i].page / 1024 }

  lemma CostAtMost(mem: seq<word>, d: nat, rs: seq<Request>)
    ensures Cost(mem, d, rs) <= |rs| + |Slots(rs)|
  {
    Fewer(NewSlots(mem, d, rs), Slots(rs));
  }

  /** r is directory d filled; it owns what was not marked before, except the lost frames. */
  lemma FilledThenDestroyed(before: Phys, r: Phys, dirs: set<nat>, d: nat, done: set<nat>, lost: set<nat>)
    requires Tracks(before, r, dirs, d, done, lost) && Counted(before.pmm)
    ensures d < MAX_FRAMES && LeavesInRange(r.mem, d)
    ensures Destroy(r, d).pmm == before.pmm <==> lost == {}
  {
    assert Managed(r, d) by { assert Owns(r.mem, d, d); }
    DestroyCounted(r, d);
    hide Owns, Entry, Pte, LeavesDistinct, Inv, Test, Count, LeavesInRange;
    var after := Destroy(r, d).pmm;
    forall p: nat | p < MAX_FRAMES ensures Test(after.bitmap, p) <==> Test(before.pmm.bitmap, p) || p in lost {
      DestroyMeaning(r, d, p);
    }
    if lost == {} {
      MarksDetermine(after, before.pmm);
    } else {
      var p :| p in lost;
      assert Test(after.bitmap, p) && !Test(before.pmm.bitmap, p);
    }
  }

  // ---- under an active directory

  function TryMapFresh(s: Phys, a: nat, d: nat, q: Request): Outcome {
    if !Backed(s, d, q.page) then Fault
    else TryMap(s.(pmm := Alloc(s.pmm).0), a, d, q.page, 4096 * Alloc(s.pmm).1, q.flags)
  }

  function TryFill(s: Phys, a: nat, d: nat, rs: seq<Request>): Outcome
    decreases |rs|
  {
    if rs == [] then Done(s)
    else
      match TryMapFresh(s, a, d, rs[0])
      case Fault => Fault
      case Done(n) => TryFill(n, a, d, rs[1..])
  }

  /** The life of an address space while a is active: created, filled by rs, destroyed. */
  ghost function Life(s: Phys, a: nat, rs: seq<Request>): Outcome
    requires s.pmm.total <= MAX_FRAMES
  {
    match TryCreate(s, a)
    case Fault => Fault
    case Done(c) =>
      match TryFill(c, a, Alloc(s.pmm).1, rs)
      case Fault => Fault
      case Done(r) => TryDestroy(r, a, Alloc(s.pmm).1)
  }

  lemma MapFreshKeepsInv(s: Phys, dirs: set<nat>, a: nat, d: nat, q: Request)
    requires Inv(s, dirs) && a in dirs && d in dirs && q.page < USER_PAGES
    requires Room(s.pmm, if NeedsTable(s, d, q.page) then 2 else 1)
    ensures Backed(s, d, q.page) && Inv(MapFresh(s, d, q), dirs) && MapFresh(s, d, q).kernelDir == s.kernelDir
    ensures MapFresh(s, d, q).pmm.total == s.pmm.total
    ensures MapFresh(s, d, q).pmm.used == s.pmm.used + (if NeedsTable(s, d, q.page) then 2 else 1)
    ensures a != d ==> forall f: nat :: f < ALL_PAGES ==> Pte(MapFresh(s, d, q).mem, a, f) == Pte(s.mem, a, f)
    ensures TryMapFresh(s, a, d, q) ==
      var t := if NeedsTable(s, d, q.page) then Alloc(Alloc(s.pmm).0).1 else Table(s, d, q.page / 1024);
      if Direct(s.mem, a, d) && Direct(s.mem, a, t) then Done(MapFresh(s, d, q)) else Fault
  {
    AllocMeaning(s.pmm);
    TakeFrameKeepsInv(s, dirs);
    var s1, phys := s.(pmm := Alloc(s.pmm).0), 4096 * Alloc(s.pmm).1;
    MapAllowed(s1, dirs, d, q.page);
    if NeedsTable(s, d, q.page) { AllocMeaning(s1.pmm); }
    MapMeaning(s1, dirs, d, q.page, phys, q.flags);
    MapGoesThrough(s1, dirs, a, d, q.page, phys, q.flags);
    MapPmm(s1, d, q.page, phys, q.flags);
  }

  /** What goes through has the effect described above. */
  lemma {:induction false} TryFillIs(s: Phys, dirs: set<nat>, a: nat, d: nat, rs: seq<Request>)
    requires Inv(s, dirs) && a in dirs && d in dirs && GoodRequests(rs) && Room(s.pmm, Cost(s.mem, d, rs))
    ensures TryFill(s, a, d, rs).Done? ==> Fillable(s, d, rs) && TryFill(s, a, d, rs).state == Fill(s, d, rs)
    decreases |rs|
  {
    if rs != [] {
      FirstAffordable(s, d, rs);
      CostStep(s, dirs, d, rs);
      hide Inv, Entry, Pte, Cost, MapFresh, TryMapFresh;
      MapFreshKeepsInv(s, dirs, a, d, rs[0]);
      TryFillIs(MapFresh(s, d, rs[0]), dirs, a, d, rs[1..]);
    }
  }

  /**
   Creating a directory, mapping a freshly allocated frame at each requested page and destroying
   the directory, where every access goes through, restores the bitmap and the count of used
   frames if and only if the requested pages are pairwise distinct: a page mapped twice loses
   its first frame for good.
   */
  lemma FillDestroyRestores(s: Phys, dirs: set<nat>, a: nat, rs: seq<Request>)
    requires Inv(s, dirs) && a in dirs && GoodRequests(rs) && Room(s.pmm, 1 + |rs| + |Slots(rs)|)
    ensures Life(s, a, rs).Done? ==> (Life(s, a, rs).state.pmm == s.pmm <==> DistinctPages(rs))
  {
    var (c, d) := CreateDirectory(s);
    NewDirectoryTracks(s, dirs);
    CreatePmm(s);
    CreateGoesThrough(s, dirs, a);
    CostAtMost(c.mem, d, rs);
    hide Inv, Entry, Pte, Cost, Slots, CreateDirectory, Fill, TryFill, Owns, Destroy, DistinctPages, LeavesDistinct,
      Test;
    TryFillIs(c, dirs + {d}, a, d, rs);
    var lost := FillTracks(s, c, dirs + {d}, d, rs, {}, {});
    FilledThenDestroyed(s, Fill(c, d, rs), dirs + {d}, d, {} + Pages(rs), lost);
  }

  /** A fresh page in another directory leaves the active directory's reach as it is. */
  lemma MapFreshReachable(s: Phys, dirs: set<nat>, a: nat, d: nat, q: Request)
    requires Inv(s, dirs) && Reachable(s, dirs, a) && a != d && d in dirs && q.page < USER_PAGES
    requires Room(s.pmm, if NeedsTable(s, d, q.page) then 2 else 1)
      && LowRoom(s.pmm, if NeedsTable(s, d, q.page) then 2 else 1)
    ensures Backed(s, d, q.page) && Reachable(MapFresh(s, d, q), dirs, a)
      && TryMapFresh(s, a, d, q) == Done(MapFresh(s, d, q))
  {
    AllocMeaning(s.pmm);
    AllocLow(s.pmm);
    TakeFrameKeepsInv(s, dirs);
    MapFreshKeepsInv(s, dirs, a, d, q);
    var s1, phys := s.(pmm := Alloc(s.pmm).0), 4096 * Alloc(s.pmm).1;
    if NeedsTable(s, d, q.page) { AllocLow(s1.pmm); } else { assert Table(s, d, q.page / 1024) < 1024; }
    MapKeepsLow(s1, dirs, d, q.page, phys, q.flags);
    hide Entry, Pte, MapPage, MapFresh, TryMapFresh, Alloc;
    forall f: nat | f < 1024 ensures Direct(MapFresh(s, d, q).mem, a, f) { assert Direct(s.mem, a, f); }
  }

  lemma {:induction false} FillGoesThrough(s: Phys, dirs: set<nat>, a: nat, d: nat, rs: seq<Request>)
    requires Inv(s, dirs) && Reachable(s, dirs, a) && a != d && d in dirs && GoodRequests(rs)
    requires LowRoom(s.pmm, Cost(s.mem, d, rs)) && Room(s.pmm, Cost(s.mem, d, rs))
    ensures TryFill(s, a, d, rs).Done? && Reachable(TryFill(s, a, d, rs).state, dirs, a)
    decreases |rs|
  {
    if rs != [] {
      var q := rs[0];
      FirstAffordable(s, d, rs);
      CostStep(s, dirs, d, rs);
      MapFreshPmm(s, d, q);
      LowAfter(s.pmm, Cost(s.mem, d, rs), NeedsTable(s, d, q.page));
      hide Inv, Entry, Pte, Cost, MapFresh, TryMapFresh, Reachable, Count, Alloc;
      MapFreshKeepsInv(s, dirs, a, d, q);
      MapFreshReachable(s, dirs, a, d, q);
      FillGoesThrough(MapFresh(s, d, q), dirs, a, d, rs[1..]);
    }
  }

  lemma MapFreshPmm(s: Phys, d: nat, q: Request)
    requires Backed(s, d, q.page)
    ensures MapFresh(s, d, q).pmm == if NeedsTable(s, d, q.page) then Alloc(Alloc(s.pmm).0).0 else Alloc(s.pmm).0
  {
  }

  lemma LifeBegins(s: Phys, dirs: set<nat>, a: nat, rs: seq<Request>)
    requires Inv(s, dirs) && Reachable(s, dirs, a) && LowRoom(s.pmm, 1 + |rs| + |Slots(rs)|)
    ensures Counted(s.pmm)
    ensures var (c, d) := CreateDirectory(s);
      && Tracks(s, c, dirs + {d}, d, {}, {}) && Reachable(c, dirs + {d}, a) && a != d
      && TryCreate(s, a) == Done(c) && d == Alloc(s.pmm).1
      && LowRoom(c.pmm, Cost(c.mem, d, rs)) && Room(c.pmm, Cost(c.mem, d, rs))
  {
    hide Entry, Pte, Cost, Slots, CreateDirectory, TryCreate, Tracks, AllLow, LowMapped, Count, Test;
    CountSlope(s.pmm.bitmap, Low(s.pmm), s.pmm.total);
    NewDirectoryTracks(s, dirs);
    CreatePmm(s);
    CreatedReachable(s, dirs, a);
    CostAtMost(CreateDirectory(s).0.mem, CreateDirectory(s).1, rs);
    AllocMeaning(s.pmm);
    LowRoomStep(s.pmm, |rs| + |Slots(rs)|);
  }

  lemma DestroyReaches(s: Phys, dirs: set<nat>, a: nat, d: nat)
    requires Reachable(s, dirs, a) && d in dirs && d < MAX_FRAMES && LeavesInRange(s.mem, d)
    ensures TryDestroy(s, a, d).Done?
  {
    hide Entry, Pte, LeavesInRange;
    assert Direct(s.mem, a, d);
  }

  /** With the low 4 MB mapped and frames to spare below 4 MB, every access goes through. */
  lemma LifeGoesThrough(s: Phys, dirs: set<nat>, a: nat, rs: seq<Request>)
    requires Inv(s, dirs) && Reachable(s, dirs, a) && GoodRequests(rs) && LowRoom(s.pmm, 1 + |rs| + |Slots(rs)|)
    ensures Life(s, a, rs).Done?
  {
    var (c, d) := CreateDirectory(s);
    LifeBegins(s, dirs, a, rs);
    hide Entry, Pte, Cost, Slots, CreateDirectory, TryCreate, Fill, TryFill, TryDestroy, Count, Test, Reachable;
    TryFillIs(c, dirs + {d}, a, d, rs);
    FillGoesThrough(c, dirs + {d}, a, d, rs);
    var lost := FillTracks(s, c, dirs + {d}, d, rs, {}, {});
    FilledThenDestroyed(s, Fill(c, d, rs), dirs + {d}, d, {} + Pages(rs), lost);
    DestroyReaches(Fill(c, d, rs), dirs + {d}, a, d);
  }

  // ---- a clone of such a directory

  lemma {:induction false} OneSlot(mem: seq<word>, d: nat, k: nat, i: nat)
    requires i <= 768 && k < 768 && forall j :: 0 <= j < 768 ==> (Present(Entry(mem, d, j)) <==> j == k)
    ensures PresentSlots(mem, d, i) == if i <= k then 1 else 0
    decreases 768 - i
  {
    if i < 768 { OneSlot(mem, d, k, i + 1); }
  }

  /** One fresh page in a new directory is enough for a clone and its destruction to take frames that are in use. */
  lemma CloneDestroyTakesPage(s: Phys, dirs: set<nat>, q: Request)
    requires Inv(s, dirs) && q.page < USER_PAGES && q.flags < 4096 && Room(s.pmm, 5)
    ensures var (c, d) := CreateDirectory(s);
      && Backed(c, d, q.page) && Clonable(MapFresh(c, d, q), dirs + {d}, d)
      && CloneAndDestroy(MapFresh(c, d, q), dirs + {d}, d) != MapFresh(c, d, q).pmm
  {
    hide Entry, Pte, CreateDirectory, MapFresh, CloneAndDestroy, Test, PresentSlots, UserTable, Tracks, Clonable;
    var (c, d) := CreateDirectory(s);
    NewDirectoryTracks(s, dirs);
    FreshTracks(s, c, dirs + {d}, d, q);
    FreshSlots(s, dirs, q);
    var r := MapFresh(c, d, q);
    OneSlot(r.mem, d, q.page / 1024, 0);
    FilledIsClonable(s, r, dirs + {d}, d, q.page);
    CloneDestroyLoses(r, dirs + {d}, d, q.page);
  }

  lemma FreshTracks(before: Phys, c: Phys, dirs: set<nat>, d: nat, q: Request)
    requires Tracks(before, c, dirs, d, {}, {}) && Room(c.pmm, 4) && q.page < USER_PAGES && q.flags < 4096
    ensures Backed(c, d, q.page) && Tracks(before, MapFresh(c, d, q), dirs, d, {q.page}, {})
    ensures MapFresh(c, d, q).pmm.used <= c.pmm.used + 2 && MapFresh(c, d, q).pmm.total == c.pmm.total
  {
    hide Entry, Pte, MapFresh, Test, Tracks;
    MapFreshTracks(before, c, dirs, d, q, {}, {});
    NothingOverwritten(before, c, dirs, d, q.page);
    assert {} + {q.page} == {q.page};
    SameTotal(before, c, dirs, d, {}, {});
    SameTotal(before, MapFresh(c, d, q), dirs, d, {q.page}, {});
  }

  lemma NothingOverwritten(before: Phys, s: Phys, dirs: set<nat>, d: nat, vp: nat)
    requires Tracks(before, s, dirs, d, {}, {}) && vp < USER_PAGES
    ensures {} + Overwritten(s, d, vp) == {}
  {
  }

  lemma SameTotal(before: Phys, s: Phys, dirs: set<nat>, d: nat, done: set<nat>, lost: set<nat>)
    requires Tracks(before, s, dirs, d, done, lost)
    ensures s.pmm.total == before.pmm.total
  {
  }

  lemma FilledIsClonable(before: Phys, r: Phys, dirs: set<nat>, d: nat, page: nat)
    requires Tracks(before, r, dirs, d, {page}, {}) && page < USER_PAGES
    requires Room(r.pmm, 2) && PresentSlots(r.mem, d, 0) == 1
    ensures Clonable(r, dirs, d) && Present(Pte(r.mem, d, page)) && Test(r.pmm.bitmap, FrameOf(Pte(r.mem, d, page)))
  {
    hide Entry, Pte, Test, PresentSlots, UserTable;
    forall vp: nat | vp < USER_PAGES && Present(Pte(r.mem, d, vp))
      ensures FrameOf(Pte(r.mem, d, vp)) < r.pmm.total && Test(r.pmm.bitmap, FrameOf(Pte(r.mem, d, vp)))
    {
      assert MapsAt(r.mem, d, vp, FrameOf(Pte(r.mem, d, vp))) && Owns(r.mem, d, FrameOf(Pte(r.mem, d, vp)));
    }
    assert page in {page};
  }

  lemma FreshSlots(s: Phys, dirs: set<nat>, q: Request)
    requires Inv(s, dirs) && q.page < USER_PAGES && Room(s.pmm, 3)
    ensures var (c, d) := CreateDirectory(s);
      Backed(c, d, q.page) && forall j :: 0 <= j < 768 ==>
        (Present(Entry(MapFresh(c, d, q).mem, d, j)) <==> j == q.page / 1024)
  {
    CreateMeaning(s, dirs);
    var (c, d) := CreateDirectory(s);
    AllocMeaning(c.pmm);
    MapAllowed(c, dirs + {d}, d, q.page);
    TakeFrameKeepsInv(c, dirs + {d});
    MapSlots(c.(pmm := Alloc(c.pmm).0), dirs + {d}, d, q.page, 4096 * Alloc(c.pmm).1, q.flags);
  }
}
