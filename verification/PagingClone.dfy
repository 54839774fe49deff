/**
 `vmm_create_directory` and `vmm_clone`: the copy translates every user page to the same frame,
 copy-on-write on both sides, through tables of its own.
 */
module PagingClone {
  import opened Bits
  import opened Frames
  import opened Paging
  import opened PagingLaws

  /** r is s with a new directory d: empty below slot 768, the kernel directory's entries above. */
  ghost predicate NewDirectory(s: Phys, dirs: set<nat>, r: Phys, d: nat) {
    && d !in dirs && Inv(r, dirs + {d}) && r.kernelDir == s.kernelDir && r.pmm.total == s.pmm.total
    && r.pmm.used == s.pmm.used + 1
    && SameTranslations(s, r, dirs)
    && (forall i :: 0 <= i < 768 ==> !Present(Entry(r.mem, d, i)))
    && (forall i :: 768 <= i < 1024 ==> Entry(r.mem, d, i) == Entry(r.mem, r.kernelDir, i))
    && (forall c: nat, k: nat :: c in dirs && k < 1024 ==> Entry(r.mem, c, k) == Entry(s.mem, c, k))
  }

  /** `vmm_create_directory` adds one directory and leaves every translation as it was. */
  lemma CreateMeaning(s: Phys, dirs: set<nat>)
    requires Inv(s, dirs) && Room(s.pmm, 1)
    ensures var (r, d) := CreateDirectory(s); NewDirectory(s, dirs, r, d)
  {
    hide Entry, Put, CreateDirectory, Test, Pte;
    CreateEntries(s, dirs);
    CreateKeepsInv(s, dirs);
    var (r, d) := CreateDirectory(s);
    FreshFrame(s, dirs);
    BitZero(0);
    forall c: nat, up: nat | c in dirs && up < ALL_PAGES ensures Pte(r.mem, c, up) == Pte(s.mem, c, up) {
      CreatePte(s, dirs, c, up);
    }
  }

  lemma CreateKeepsInv(s: Phys, dirs: set<nat>)
    requires Inv(s, dirs) && Room(s.pmm, 1)
    ensures var (r, d) := CreateDirectory(s);
      Inv(r, dirs + {d}) && r.pmm.total == s.pmm.total && r.pmm.used == s.pmm.used + 1
  {
    CreateEntries(s, dirs);
    hide Entry, Put, CreateDirectory, Test;
    var (r, d) := CreateDirectory(s);
    AllocMeaning(s.pmm);
    FreshFrame(s, dirs);
    BitZero(0);
    assert forall c: nat, k: nat :: OwnSlot(r, dirs + {d}, c, k) <==> OwnSlot(s, dirs, c, k);
  }

  lemma CreatePte(s: Phys, dirs: set<nat>, c: nat, up: nat)
    requires Inv(s, dirs) && Room(s.pmm, 1) && c in dirs && up < ALL_PAGES
    ensures Pte(CreateDirectory(s).0.mem, c, up) == Pte(s.mem, c, up)
  {
    CreateEntries(s, dirs);
    hide Entry, CreateDirectory, Test;
    FreshFrame(s, dirs);
    var k := up / 1024;
    if Present(Entry(s.mem, c, k)) {
      if !OwnSlot(s, dirs, c, k) { assert OwnSlot(s, dirs, s.kernelDir, k); }
    }
  }

  lemma CreateEntries(s: Phys, dirs: set<nat>)
    requires Inv(s, dirs) && Room(s.pmm, 1)
    ensures forall c <- dirs :: c < s.pmm.total
    ensures var (r, d) := CreateDirectory(s);
      && (r.pmm, d) == Alloc(s.pmm) && r.kernelDir == s.kernelDir && |r.mem| == |s.mem|
      && (forall g: nat, k: nat :: k < 1024 && g < s.pmm.total ==>
        Entry(r.mem, g, k) == if g != d then Entry(s.mem, g, k) else if k < 768 then 0
          else Entry(s.mem, s.kernelDir, k))
  {
    AllocMeaning(s.pmm);
    FreshFrame(s, dirs);
    assert forall c <- dirs :: Taken(s, c);
  }

  // ---- one slot

  /** The entry of a shared page: marked if present, untouched otherwise. */
  function SharedEntry(e: word): word { if Present(e) then CowMark(e) else e }

  /** Every word of memory after one slot has been cloned. */
  lemma CloneSlotEntries(s: Phys, dirs: set<nat>, src: nat, dst: nat, i: nat)
    requires Inv(s, dirs) && src in dirs && dst in dirs && i < 768
    requires Present(Entry(s.mem, src, i)) && Room(s.pmm, 1)
    ensures dst < s.pmm.total
    ensures var r, t, u := CloneSlot(s, src, dst, i), Table(s, src, i), Alloc(s.pmm).1;
      && r.pmm == Alloc(s.pmm).0 && t != u && t !in dirs && u !in dirs && Taken(s, t) && 0 < u < s.pmm.total
      && |r.mem| == |s.mem| && r.kernelDir == s.kernelDir
      && Entry(r.mem, dst, i) == Redirect(u, Entry(s.mem, src, i))
      && (forall j: nat :: j < 1024 ==> Entry(r.mem, t, j) == SharedEntry(Entry(s.mem, t, j)))
      && (forall j: nat :: j < 1024 ==>
        Entry(r.mem, u, j) == if Present(Entry(s.mem, t, j)) then CowMark(Entry(s.mem, t, j)) else 0)
      && (forall g: nat, j: nat :: g < s.pmm.total && j < 1024 && g != t && g != u && !(g == dst && j == i) ==>
        Entry(r.mem, g, j) == Entry(s.mem, g, j))
  {
    AllocMeaning(s.pmm);
    FreshFrame(s, dirs);
    assert Taken(s, dst) && OwnSlot(s, dirs, src, i);
  }

  /** What cloning slot i of src into dst does to the translation of page up under directory c. */
  function SlotCloned(s: Phys, src: nat, dst: nat, i: nat, c: nat, up: nat): word {
    if up / 1024 == i && c == src then SharedEntry(Pte(s.mem, src, up))
    else if up / 1024 == i && c == dst && Present(Pte(s.mem, src, up)) then CowMark(Pte(s.mem, src, up))
    else Pte(s.mem, c, up)
  }

  lemma CloneSlotMeaning(s: Phys, dirs: set<nat>, src: nat, dst: nat, i: nat)
    requires Inv(s, dirs) && src in dirs && dst in dirs && src != dst && dst != s.kernelDir && i < 768
    requires !Present(Entry(s.mem, dst, i))
    requires Present(Entry(s.mem, src, i)) ==> Room(s.pmm, 1)
    ensures dst < s.pmm.total && Inv(CloneSlot(s, src, dst, i), dirs)
    ensures CloneSlot(s, src, dst, i).kernelDir == s.kernelDir && CloneSlot(s, src, dst, i).pmm.total == s.pmm.total
    ensures CloneSlot(s, src, dst, i).pmm.used == s.pmm.used + (if Present(Entry(s.mem, src, i)) then 1 else 0)
    ensures forall c: nat, k: nat :: c in dirs && k < 1024 && !(c == dst && k == i) ==>
      Entry(CloneSlot(s, src, dst, i).mem, c, k) == Entry(s.mem, c, k)
    ensures Present(Entry(CloneSlot(s, src, dst, i).mem, dst, i)) <==> Present(Entry(s.mem, src, i))
    ensures forall c: nat, up: nat :: c in dirs && up < ALL_PAGES ==>
      Pte(CloneSlot(s, src, dst, i).mem, c, up) == SlotCloned(s, src, dst, i, c, up)
  {
    assert Taken(s, dst);
    BitZero(0);
    if Present(Entry(s.mem, src, i)) {
      var r, t, u := CloneSlot(s, src, dst, i), Table(s, src, i), Alloc(s.pmm).1;
      CloneSlotEntries(s, dirs, src, dst, i);
      AllocMeaning(s.pmm);
      FreshFrame(s, dirs);
      CloneSlotKeepsInv(s, dirs, src, dst, i);
      forall c: nat, up: nat | c in dirs && up < ALL_PAGES
        ensures Pte(r.mem, c, up) == SlotCloned(s, src, dst, i, c, up)
      {
        ClonedPte(s, dirs, src, dst, i, c, up);
      }
    }
  }

  lemma CloneSlotKeepsInv(s: Phys, dirs: set<nat>, src: nat, dst: nat, i: nat)
    requires Inv(s, dirs) && src in dirs && dst in dirs && src != dst && dst != s.kernelDir && i < 768
    requires !Present(Entry(s.mem, dst, i)) && Present(Entry(s.mem, src, i)) && Room(s.pmm, 1)
    ensures dst < s.pmm.total && Inv(CloneSlot(s, src, dst, i), dirs)
  {
    hide Entry, Put, ShareTable, Zero, CloneSlot;
    assert Taken(s, dst);
    var r, t, u := CloneSlot(s, src, dst, i), Table(s, src, i), Alloc(s.pmm).1;
    CloneSlotEntries(s, dirs, src, dst, i);
    AllocMeaning(s.pmm);
    FreshFrame(s, dirs);
    assert forall c: nat, k: nat :: c in dirs && k < 1024 && !(c == dst && k == i) ==>
      Entry(r.mem, c, k) == Entry(s.mem, c, k) by {
      assert forall c <- dirs :: Taken(s, c);
    }
    assert forall c: nat, k: nat :: OwnSlot(r, dirs, c, k) <==> OwnSlot(s, dirs, c, k) || (c == dst && k == i);
    assert Table(r, dst, i) == u;
  }

  lemma ClonedPte(s: Phys, dirs: set<nat>, src: nat, dst: nat, i: nat, c: nat, up: nat)
    requires Inv(s, dirs) && src in dirs && dst in dirs && src != dst && dst != s.kernelDir && i < 768
    requires !Present(Entry(s.mem, dst, i)) && Present(Entry(s.mem, src, i)) && Room(s.pmm, 1)
    requires c in dirs && up < ALL_PAGES
    ensures dst < s.pmm.total && Pte(CloneSlot(s, src, dst, i).mem, c, up) == SlotCloned(s, src, dst, i, c, up)
  {
    assert Taken(s, dst) && Taken(s, c);
    var r, t, u := CloneSlot(s, src, dst, i), Table(s, src, i), Alloc(s.pmm).1;
    var k, j := up / 1024, up % 1024;
    CloneSlotEntries(s, dirs, src, dst, i);
    FreshFrame(s, dirs);
    assert OwnSlot(s, dirs, src, i);
    BitZero(0);
    if c == dst && k == i {
      assert Pte(r.mem, c, up) == Entry(r.mem, u, j);
    } else if Present(Entry(s.mem, c, k)) {
      var g := Table(s, c, k);
      assert g != u;
      if OwnSlot(s, dirs, c, k) {
        assert Taken(s, g) && g !in dirs;
        assert g == t ==> c == src && k == i;
      } else {
        assert OwnSlot(s, dirs, s.kernelDir, k) && Table(s, s.kernelDir, k) == g;
        assert Taken(s, g) && g !in dirs;
      }
    }
  }

  // ---- all slots

  /** Present slots i..767 of a directory. */
  function PresentSlots(mem: seq<word>, d: nat, i: nat): nat
    requires i <= 768
    decreases 768 - i
  {
    if i == 768 then 0 else (if Present(Entry(mem, d, i)) then 1 else 0) + PresentSlots(mem, d, i + 1)
  }

  lemma {:induction false} PresentSlotsSame(mem: seq<word>, mem': seq<word>, d: nat, i: nat)
    requires i <= 768
    requires forall k :: i <= k < 768 ==> Entry(mem, d, k) == Entry(mem', d, k)
    ensures PresentSlots(mem, d, i) == PresentSlots(mem', d, i)
    decreases 768 - i
  {
    if i < 768 { PresentSlotsSame(mem, mem', d, i + 1); }
  }

  /** Cloning slots i.. leaves page up under directory c with this entry. */
  function Cloned(s: Phys, src: nat, dst: nat, i: nat, c: nat, up: nat): word {
    if i <= up / 1024 < 768 then SlotCloned(s, src, dst, up / 1024, c, up) else Pte(s.mem, c, up)
  }

  /** r is s with slots i.. of src cloned into dst. */
  ghost predicate SlotsCloned(s: Phys, dirs: set<nat>, src: nat, dst: nat, i: nat, r: Phys)
    requires i <= 768
  {
    && Inv(r, dirs) && r.kernelDir == s.kernelDir && r.pmm.total == s.pmm.total
    && r.pmm.used == s.pmm.used + PresentSlots(s.mem, src, i)
    && (forall c: nat, up: nat :: c in dirs && up < ALL_PAGES ==> Pte(r.mem, c, up) == Cloned(s, src, dst, i, c, up))
    && (forall c: nat, k: nat :: c in dirs && k < 1024 && (c != dst || k < i || k >= 768) ==>
      Entry(r.mem, c, k) == Entry(s.mem, c, k))
  }

  lemma {:induction false} CloneSlotsMeaning(s: Phys, dirs: set<nat>, src: nat, dst: nat, i: nat)
    requires Inv(s, dirs) && src in dirs && dst in dirs && src != dst && dst != s.kernelDir && i <= 768
    requires forall k :: i <= k < 768 ==> !Present(Entry(s.mem, dst, k))
    requires Room(s.pmm, PresentSlots(s.mem, src, i))
    ensures dst < s.pmm.total
    ensures SlotsCloned(s, dirs, src, dst, i, CloneSlots(s, src, dst, i))
    decreases 768 - i
  {
    assert dst < s.pmm.total by { assert Taken(s, dst); }
    hide Entry, Pte, CloneSlot, SlotsCloned;
    if i < 768 {
      var n := CloneSlot(s, src, dst, i);
      CloneSlotMeaning(s, dirs, src, dst, i);
      PresentSlotsSame(s.mem, n.mem, src, i + 1);
      CloneSlotsMeaning(n, dirs, src, dst, i + 1);
      SlotThenRest(s, dirs, src, dst, i, CloneSlots(n, src, dst, i + 1));
    } else {
      NoSlotsCloned(s, dirs, src, dst);
    }
  }

  lemma SlotThenRest(s: Phys, dirs: set<nat>, src: nat, dst: nat, i: nat, r: Phys)
    requires Inv(s, dirs) && src in dirs && dst in dirs && src != dst && dst != s.kernelDir && i < 768
    requires !Present(Entry(s.mem, dst, i))
    requires Present(Entry(s.mem, src, i)) ==> Room(s.pmm, 1)
    requires dst < s.pmm.total && SlotsCloned(CloneSlot(s, src, dst, i), dirs, src, dst, i + 1, r)
    ensures SlotsCloned(s, dirs, src, dst, i, r)
  {
    hide Entry, Pte, CloneSlot;
    var n := CloneSlot(s, src, dst, i);
    CloneSlotMeaning(s, dirs, src, dst, i);
    PresentSlotsSame(s.mem, n.mem, src, i + 1);
    forall c: nat, up: nat | c in dirs && up < ALL_PAGES
      ensures Pte(r.mem, c, up) == Cloned(s, src, dst, i, c, up)
    {
      assert Pte(n.mem, c, up) == SlotCloned(s, src, dst, i, c, up);
      assert Pte(n.mem, src, up) == SlotCloned(s, src, dst, i, src, up);
    }
  }

  lemma NoSlotsCloned(s: Phys, dirs: set<nat>, src: nat, dst: nat)
    requires Inv(s, dirs)
    ensures SlotsCloned(s, dirs, src, dst, 768, s)
  {
  }

  // ---- vmm_clone

  /** What becomes of the entry of user page up in the copy. */
  function CopiedEntry(e: word): word { if Present(e) then CowMark(e) else 0 }

  /** r is s with a clone dst of src: the cost, and every translation in terms of those before. */
  ghost predicate ClonedTo(s: Phys, dirs: set<nat>, src: nat, r: Phys, dst: nat) {
    && dst !in dirs && Inv(r, dirs + {dst}) && r.kernelDir == s.kernelDir && r.pmm.total == s.pmm.total
    && r.pmm.used == s.pmm.used + 1 + PresentSlots(s.mem, src, 0)
    && (forall i :: 768 <= i < 1024 ==> Entry(r.mem, dst, i) == Entry(r.mem, r.kernelDir, i))
    && (forall c: nat, up: nat :: c in dirs && up < ALL_PAGES ==>
      Pte(r.mem, c, up) == if c == src && up < USER_PAGES then SharedEntry(Pte(s.mem, src, up)) else Pte(s.mem, c, up))
    && (forall up: nat :: up < USER_PAGES ==> Pte(r.mem, dst, up) == CopiedEntry(Pte(s.mem, src, up)))
    && (forall c: nat, k: nat :: c in dirs && k < 1024 ==> Entry(r.mem, c, k) == Entry(s.mem, c, k))
  }

  lemma CloneFromParts(s: Phys, dirs: set<nat>, src: nat, s1: Phys, dst: nat, r: Phys)
    requires Inv(s, dirs) && src in dirs
    requires NewDirectory(s, dirs, s1, dst) && SlotsCloned(s1, dirs + {dst}, src, dst, 0, r)
    ensures ClonedTo(s, dirs, src, r, dst)
  {
    forall up: nat | up < USER_PAGES ensures Pte(s1.mem, dst, up) == 0 { assert up / 1024 < 768; }
    hide Entry, Pte;
    PresentSlotsSame(s.mem, s1.mem, src, 0);
    forall c: nat, up: nat | c in dirs && up < ALL_PAGES
      ensures Pte(r.mem, c, up) == if c == src && up < USER_PAGES then SharedEntry(Pte(s.mem, src, up))
        else Pte(s.mem, c, up)
    {
      assert Pte(r.mem, c, up) == Cloned(s1, src, dst, 0, c, up);
      assert Pte(s1.mem, c, up) == Pte(s.mem, c, up) && Pte(s1.mem, src, up) == Pte(s.mem, src, up);
    }
    forall up: nat | up < USER_PAGES ensures Pte(r.mem, dst, up) == CopiedEntry(Pte(s.mem, src, up)) {
      assert Pte(r.mem, dst, up) == Cloned(s1, src, dst, 0, dst, up);
      assert Pte(s1.mem, src, up) == Pte(s.mem, src, up);
    }
  }

  /** `vmm_clone` costs one frame per present slot plus one, and keeps the tables apart. */
  lemma CloneResult(s: Phys, dirs: set<nat>, src: nat)
    requires Inv(s, dirs) && src in dirs && Room(s.pmm, 1 + PresentSlots(s.mem, src, 0))
    ensures var (r, dst) := Clone(s, src); ClonedTo(s, dirs, src, r, dst)
  {
    hide Entry, Pte, CreateDirectory, CloneSlots;
    var (s1, dst) := CreateDirectory(s);
    CreateMeaning(s, dirs);
    PresentSlotsSame(s.mem, s1.mem, src, 0);
    CloneSlotsMeaning(s1, dirs + {dst}, src, dst, 0);
    CloneFromParts(s, dirs, src, s1, dst, CloneSlots(s1, src, dst, 0));
  }

  /** Two entries made from one: the same frame, copy-on-write on both sides, other flags kept. */
  ghost predicate SharedFrom(before: word, there: word, here: word) {
    if Present(before) then
      && there == here && Present(here) && FrameOf(here) == FrameOf(before)
      && !Writable(here) && Cow(here)
      && (forall k: nat :: k != 1 && k != 9 ==> (Bit(here, k) <==> Bit(before, k)))
    else there == before && here == 0
  }

  lemma MarkedIsShared(e: word)
    ensures SharedFrom(e, SharedEntry(e), CopiedEntry(e))
  {
    if Present(e) {
      CowMarkBits(e, 0);
      CowMarkBits(e, 1);
      CowMarkBits(e, 9);
      forall k: nat | k != 1 && k != 9 ensures Bit(CowMark(e), k) <==> Bit(e, k) { CowMarkBits(e, k); }
    }
  }

  /**
   `vmm_clone` preserves meaning: every user page translates to the same frame on both sides,
   now read-only and copy-on-write, and to nothing on both sides if it did not translate.
   */
  lemma CloneSharesPages(s: Phys, dirs: set<nat>, src: nat, up: nat)
    requires Inv(s, dirs) && src in dirs && Room(s.pmm, 1 + PresentSlots(s.mem, src, 0)) && up < USER_PAGES
    ensures var (r, dst) := Clone(s, src);
      SharedFrom(Pte(s.mem, src, up), Pte(r.mem, src, up), Pte(r.mem, dst, up))
  {
    hide Entry, Pte, Clone;
    CloneResult(s, dirs, src);
    MarkedIsShared(Pte(s.mem, src, up));
  }

  /** No user table is shared, and every upper page translates as under the kernel directory. */
  ghost predicate Isolated(r: Phys, src: nat, dst: nat) {
    && (forall up: nat :: USER_PAGES <= up < ALL_PAGES ==> Pte(r.mem, dst, up) == Pte(r.mem, r.kernelDir, up))
    && (forall i: nat, k: nat ::
      i < 768 && k < 768 && Present(Entry(r.mem, src, i)) && Present(Entry(r.mem, dst, k)) ==>
      Table(r, src, i) != Table(r, dst, k))
  }

  lemma ClonedIsIsolated(s: Phys, dirs: set<nat>, src: nat, r: Phys, dst: nat)
    requires src in dirs && ClonedTo(s, dirs, src, r, dst)
    ensures Isolated(r, src, dst)
  {
    forall i: nat, k: nat | i < 768 && k < 768 && Present(Entry(r.mem, src, i)) && Present(Entry(r.mem, dst, k))
      ensures Table(r, src, i) != Table(r, dst, k)
    {
      assert OwnSlot(r, dirs + {dst}, src, i) && OwnSlot(r, dirs + {dst}, dst, k);
    }
  }

  /**
   Around the shared pages `vmm_clone` disturbs nothing: other directories and upper pages
   translate as before, the copy's upper quarter is the kernel directory's, and no user table
   of the copy is a table of the source.
   */
  lemma CloneIsolates(s: Phys, dirs: set<nat>, src: nat)
    requires Inv(s, dirs) && src in dirs && Room(s.pmm, 1 + PresentSlots(s.mem, src, 0))
    ensures var (r, dst) := Clone(s, src);
      && Isolated(r, src, dst)
      && (forall c: nat, up: nat :: c in dirs && up < ALL_PAGES && (c != src || up >= USER_PAGES) ==>
        Pte(r.mem, c, up) == Pte(s.mem, c, up))
  {
    hide Entry, Pte, Clone;
    CloneResult(s, dirs, src);
    var (r, dst) := Clone(s, src);
    ClonedIsIsolated(s, dirs, src, r, dst);
  }
}
