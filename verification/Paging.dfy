/**
 Two-level 32-bit paging as mm/vmm.c keeps it in physical memory: directories and tables are
 frames of 1024 words, and tables come from the frame allocator.  Pages and frames are
 numbered (address / 4096).
 */
module Paging {
  import opened Bits
  import opened Frames

  const USER_PAGES: nat := 786432
  const ALL_PAGES: nat := 1048576

  const PRESENT: nat := 0x001
  const WRITE: nat := 0x002
  const USER: nat := 0x004
  const COW: nat := 0x200

  /** Physical memory, the frame allocator and the frame of the kernel directory. */
  datatype Phys = Phys(mem: seq<word>, pmm: Pmm, kernelDir: nat)

  // ---- words of a frame

  function Entry(mem: seq<word>, f: nat, j: nat): word {
    if j < 1024 && f * 1024 + j < |mem| then mem[f * 1024 + j] else 0
  }

  function Put(mem: seq<word>, f: nat, j: nat, w: word): (r: seq<word>)
    requires j < 1024 && f * 1024 + j < |mem|
    ensures |r| == |mem|
    ensures forall g: nat, k: nat :: k < 1024 ==> Entry(r, g, k) == if g == f && k == j then w else Entry(mem, g, k)
  {
    mem[f * 1024 + j := w]
  }

  /** `memset32(frame, 0, 1024)` */
  function Zero(mem: seq<word>, f: nat): (r: seq<word>)
    ensures |r| == |mem|
    ensures forall g: nat, j: nat :: j < 1024 ==> Entry(r, g, j) == if g == f then 0 else Entry(mem, g, j)
  {
    seq(|mem|, k requires 0 <= k < |mem| => if k / 1024 == f then 0 else mem[k])
  }

  // ---- entries

  predicate Present(e: nat) { Bit(e, 0) }
  predicate Writable(e: nat) { Bit(e, 1) }
  predicate Cow(e: nat) { Bit(e, 9) }

  function FrameOf(e: nat): nat { e / 4096 }

  lemma SplitEntry(e: nat)
    ensures e == 4096 * FrameOf(e) + e % 4096
    ensures AndNot(e, 0xFFF) == 4096 * FrameOf(e) && And(e, 0xFFF) == e % 4096
  {
    FlagsMask(FrameOf(e), e % 4096);
  }

  /** `(phys & ~0xFFF) | PAGE_PRESENT | flags` */
  function PteOf(phys: word, flags: word): (w: word) {
    AndNotBound(phys, 0xFFF);
    WordMask(0);
    OrBound(AndNot(phys, 0xFFF), PRESENT, 32);
    OrBound(Or(AndNot(phys, 0xFFF), PRESENT), flags, 32);
    Or(Or(AndNot(phys, 0xFFF), PRESENT), flags)
  }

  /** Flags proper leave the frame alone. */
  lemma PteOfFrame(phys: word, flags: word)
    requires flags < 4096
    ensures FrameOf(PteOf(phys, flags)) == FrameOf(phys) && PteOf(phys, flags) % 4096 == Or(PRESENT, flags)
  {
    SplitEntry(phys);
    FlagsOr(FrameOf(phys), 0, PRESENT);
    FlagsOr(FrameOf(phys), PRESENT, flags);
  }

  lemma PteOfBits(phys: word, flags: word, k: nat)
    ensures Bit(PteOf(phys, flags), k) <==> k == 0 || Bit(flags, k) || (k >= 12 && Bit(phys, k))
  {
    BitOr(Or(AndNot(phys, 0xFFF), PRESENT), flags, k);
    BitOr(AndNot(phys, 0xFFF), PRESENT, k);
    BitAndNot(phys, 0xFFF, k);
    PowersUsed();
    BitLowMask(12, k);
    assert PRESENT == Pow2(0);
    BitPow2(0, k);
  }

  /** `table | PAGE_PRESENT | PAGE_WRITE | (flags & PAGE_USER)` for the table in frame t. */
  function PdeOf(t: nat, flags: nat): (w: word)
    requires t < MAX_FRAMES
    ensures FrameOf(w) == t
  {
    AndBound(flags, USER);
    FlagsOr(t, 0, PRESENT);
    FlagsOr(t, PRESENT, WRITE);
    FlagsOr(t, Or(PRESENT, WRITE), And(flags, USER));
    Or(Or(Or(4096 * t, PRESENT), WRITE), And(flags, USER))
  }

  lemma PdeOfPresent(t: nat, flags: nat)
    requires t < MAX_FRAMES
    ensures Present(PdeOf(t, flags))
  {
    PdeOfBits(t, flags, 0);
  }

  lemma PdeOfBits(t: nat, flags: nat, k: nat)
    requires t < MAX_FRAMES && k < 12
    ensures Bit(PdeOf(t, flags), k) <==> k == 0 || k == 1 || (k == 2 && Bit(flags, 2))
  {
    hide PdeOf, Or, And, Pow2, Bit;
    PdeOfIs(t, flags);
    BitOr(Or(Or(4096 * t, PRESENT), WRITE), And(flags, USER), k);
    BitOr(Or(4096 * t, PRESENT), WRITE, k);
    BitOr(4096 * t, PRESENT, k);
    BitAnd(flags, USER, k);
    FlagBit(4096 * t, k);
    BitZero(k);
    BitPow2(0, k);
    BitPow2(1, k);
    BitPow2(2, k);
  }

  lemma PdeOfIs(t: nat, flags: nat)
    requires t < MAX_FRAMES
    ensures PdeOf(t, flags) == Or(Or(Or(4096 * t, PRESENT), WRITE), And(flags, USER))
    ensures PRESENT == Pow2(0) && WRITE == Pow2(1) && USER == Pow2(2)
  {
  }

  /** `(e & ~PAGE_WRITE) | PAGE_COW` */
  function CowMark(e: word): (w: word)
    ensures FrameOf(w) == FrameOf(e)
  {
    SplitEntry(e);
    var f, low := FrameOf(e), AndNot(e % 4096, WRITE);
    FlagsAndNot(f, e % 4096, WRITE);
    FlagsOr(f, low, COW);
    assert f < 1048576 && AndNot(e, WRITE) == 4096 * f + low;
    Or(AndNot(e, WRITE), COW)
  }

  /** Marking clears WRITE, sets COW and keeps every other bit. */
  lemma CowMarkBits(e: word, k: nat)
    ensures Bit(CowMark(e), k) <==> if k == 1 then false else if k == 9 then true else Bit(e, k)
  {
    BitOr(AndNot(e, WRITE), COW, k);
    BitAndNot(e, WRITE, k);
    assert WRITE == Pow2(1) && COW == Pow2(9) by { assert Pow2(6) == 64; }
    BitPow2(1, k);
    BitPow2(9, k);
  }

  /** A directory entry copied with its flags but another table: `dst_pt | (e & 0xFFF)`. */
  function Redirect(t: nat, e: word): (w: word)
    requires t < MAX_FRAMES
    ensures FrameOf(w) == t && w % 4096 == e % 4096 && (Present(w) <==> Present(e))
  {
    SplitEntry(e);
    FlagsOr(t, 0, e % 4096);
    FlagsParity(t, e % 4096);
    FlagsParity(FrameOf(e), e % 4096);
    Or(4096 * t, And(e, 0xFFF))
  }

  // ---- what the tables mean

  /** The table entry that translates page vp under directory d; 0 when there is no table. */
  function Pte(mem: seq<word>, d: nat, vp: nat): word {
    if Present(Entry(mem, d, vp / 1024)) then Entry(mem, FrameOf(Entry(mem, d, vp / 1024)), vp % 1024) else 0
  }

  /** `vmm_get_physical` */
  function GetPhysical(mem: seq<word>, d: nat, virt: word): nat {
    if Present(Entry(mem, d, virt / 0x400000)) then
      AndNot(Pte(mem, d, virt / 4096), 0xFFF) + And(virt, 0xFFF)
    else 0
  }

  // ---- the operations

  /** Directory d and its table for page vp, if there is one, lie in physical memory. */
  predicate Backed(s: Phys, d: nat, vp: nat) {
    && 0 < s.pmm.total <= MAX_FRAMES && |s.mem| == 1024 * s.pmm.total
    && d < s.pmm.total && vp < ALL_PAGES
    && (Present(Entry(s.mem, d, vp / 1024)) ==> FrameOf(Entry(s.mem, d, vp / 1024)) < s.pmm.total)
  }

  /** `vmm_map` */
  function MapPage(s: Phys, d: nat, vp: nat, phys: word, flags: word): Phys
    requires Backed(s, d, vp)
  {
    var i, j := vp / 1024, vp % 1024;
    if Present(Entry(s.mem, d, i)) then
      s.(mem := Put(s.mem, FrameOf(Entry(s.mem, d, i)), j, PteOf(phys, flags)))
    else
      var (m, t) := Alloc(s.pmm);
      var linked := Put(Zero(s.mem, t), d, i, PdeOf(t, flags));
      s.(pmm := m, mem := Put(linked, t, j, PteOf(phys, flags)))
  }

  /** `vmm_unmap` */
  function UnmapPage(s: Phys, d: nat, vp: nat): Phys
    requires Backed(s, d, vp)
  {
    if Present(Entry(s.mem, d, vp / 1024)) then
      s.(mem := Put(s.mem, FrameOf(Entry(s.mem, d, vp / 1024)), vp % 1024, 0))
    else s
  }

  /** Entries 768.. of directory d become those of directory k. */
  function CopyUpper(mem: seq<word>, d: nat, k: nat): (r: seq<word>)
    ensures |r| == |mem|
    ensures forall g: nat, j: nat :: j < 1024 && g * 1024 + j < |mem| ==>
      Entry(r, g, j) == if g == d && j >= 768 then Entry(mem, k, j) else Entry(mem, g, j)
  {
    seq(|mem|, x requires 0 <= x < |mem| =>
      if x / 1024 == d && x % 1024 >= 768 then Entry(mem, k, x % 1024) else mem[x])
  }

  /** `vmm_create_directory` */
  function CreateDirectory(s: Phys): (Phys, nat)
    requires s.pmm.total <= MAX_FRAMES
  {
    var (m, d) := Alloc(s.pmm);
    (s.(pmm := m, mem := CopyUpper(Zero(s.mem, d), d, s.kernelDir)), d)
  }

  /** Marks the present entries of table t copy-on-write and copies them to table u. */
  function ShareTable(mem: seq<word>, t: nat, u: nat): (r: seq<word>)
    ensures |r| == |mem|
    ensures forall g: nat, j: nat :: j < 1024 && g * 1024 + j < |mem| ==>
      Entry(r, g, j) ==
        if (g == t || g == u) && Present(Entry(mem, t, j)) then CowMark(Entry(mem, t, j)) else Entry(mem, g, j)
  {
    seq(|mem|, x requires 0 <= x < |mem| =>
      if (x / 1024 == t || x / 1024 == u) && Present(Entry(mem, t, x % 1024))
      then CowMark(Entry(mem, t, x % 1024)) else mem[x])
  }

  /** One slot of `vmm_clone`: a fresh table sharing the source's pages. */
  function CloneSlot(s: Phys, src: nat, dst: nat, i: nat): Phys
    requires s.pmm.total <= MAX_FRAMES && |s.mem| == 1024 * s.pmm.total && dst < s.pmm.total && i < 768
  {
    var e := Entry(s.mem, src, i);
    if !Present(e) then s
    else
      var (m, u) := Alloc(s.pmm);
      s.(pmm := m, mem := Put(ShareTable(Zero(s.mem, u), FrameOf(e), u), dst, i, Redirect(u, e)))
  }

  function CloneSlots(s: Phys, src: nat, dst: nat, i: nat): Phys
    requires s.pmm.total <= MAX_FRAMES && |s.mem| == 1024 * s.pmm.total && dst < s.pmm.total && i <= 768
    decreases 768 - i
  {
    if i == 768 then s else CloneSlots(CloneSlot(s, src, dst, i), src, dst, i + 1)
  }

  /** `vmm_clone` */
  function Clone(s: Phys, src: nat): (Phys, nat)
    requires s.pmm.total <= MAX_FRAMES && |s.mem| == 1024 * s.pmm.total && s.pmm.total > 0
  {
    var (s1, dst) := CreateDirectory(s);
    (CloneSlots(s1, src, dst, 0), dst)
  }

  /** Every frame a user page of d translates to is one the allocator knows. */
  ghost predicate LeavesInRange(mem: seq<word>, d: nat) {
    forall i: nat :: i < 768 && Present(Entry(mem, d, i)) ==> TableInRange(mem, FrameOf(Entry(mem, d, i)))
  }

  ghost predicate TableInRange(mem: seq<word>, t: nat) {
    t < MAX_FRAMES && forall j: nat :: j < 1024 && Present(Entry(mem, t, j)) ==> FrameOf(Entry(mem, t, j)) < MAX_FRAMES
  }

  /** Frees the pages mapped by entries j.. of table t. */
  ghost function FreePages(m: Pmm, mem: seq<word>, t: nat, j: nat): (r: Pmm)
    requires j <= 1024 && TableInRange(mem, t)
    ensures r.total == m.total
    decreases 1024 - j
  {
    if j == 1024 then m
    else if Present(Entry(mem, t, j)) then FreePages(Release(m, FrameOf(Entry(mem, t, j))), mem, t, j + 1)
    else FreePages(m, mem, t, j + 1)
  }

  /** Frees the pages and tables of slots i.. of directory d. */
  ghost function FreeSlots(m: Pmm, mem: seq<word>, d: nat, i: nat): (r: Pmm)
    requires i <= 768 && LeavesInRange(mem, d)
    ensures r.total == m.total
    decreases 768 - i
  {
    if i == 768 then m
    else if !Present(Entry(mem, d, i)) then FreeSlots(m, mem, d, i + 1)
    else
      var t := FrameOf(Entry(mem, d, i));
      FreeSlots(Release(FreePages(m, mem, t, 0), t), mem, d, i + 1)
  }

  /** `vmm_destroy_directory` */
  ghost function Destroy(s: Phys, d: nat): (r: Phys)
    requires d < MAX_FRAMES && LeavesInRange(s.mem, d)
    ensures r.pmm.total == s.pmm.total
  {
    s.(pmm := Release(FreeSlots(s.pmm, s.mem, d, 0), d))
  }
}
