/**
 The bytes of the heap are bytes of physical memory, reached through the kernel directory: a byte
 store at a heap address is a store into the heap's own memory and disturbs no translation, and
 paging operations leave those bytes alone.
 */
module PagingBytes {
  import opened Bits
  import opened Frames
  import opened Paging
  import opened PagingLaws
  import opened PagingHeap
  import H = HeapMemory
  import B = HeapBlocks

  /** Byte k of a little-endian word. */
  function ByteOf(w: word, k: nat): byte
    requires k < 4
  {
    if k == 0 then w % 256 else if k == 1 then w / 256 % 256 else if k == 2 then w / 65536 % 256
    else (H.FourBytes(w); w / 16777216)
  }

  function Bytes(a: byte, b: byte, c: byte, d: byte): word { a + 256 * b + 65536 * c + 16777216 * d }

  lemma BytesOf(a: byte, b: byte, c: byte, d: byte)
    ensures var w := Bytes(a, b, c, d); ByteOf(w, 0) == a && ByteOf(w, 1) == b && ByteOf(w, 2) == c && ByteOf(w, 3) == d
  {
    var w := Bytes(a, b, c, d);
    assert w / 256 == b + 256 * c + 65536 * d;
    assert w / 65536 == c + 256 * d;
    assert w / 16777216 == d;
  }

  function WithByte(w: word, k: nat, b: byte): (r: word)
    requires k < 4
    ensures forall j: nat :: j < 4 ==> ByteOf(r, j) == if j == k then b else ByteOf(w, j)
  {
    var x0, x1, x2, x3 := ByteOf(w, 0), ByteOf(w, 1), ByteOf(w, 2), ByteOf(w, 3);
    var y0, y1 := if k == 0 then b else x0, if k == 1 then b else x1;
    var y2, y3 := if k == 2 then b else x2, if k == 3 then b else x3;
    BytesOf(y0, y1, y2, y3);
    Bytes(y0, y1, y2, y3)
  }

  function PhysicalByte(mem: seq<word>, p: nat): byte { ByteOf(Entry(mem, p / 4096, p % 4096 / 4), p % 4) }

  /** The byte the processor loads from virtual address a under the kernel directory. */
  function HeapByte(s: Phys, a: word): byte { PhysicalByte(s.mem, GetPhysical(s.mem, s.kernelDir, a)) }

  /** The heap's pages below hi as one memory. */
  function HeapBytes(s: Phys, hi: nat): (m: seq<byte>)
    requires FIRST_HEAP_PAGE <= hi <= ALL_PAGES
    ensures |m| == 4096 * (hi - FIRST_HEAP_PAGE)
    ensures forall a: nat :: H.Inside(m, a, 1) ==> a < WORD_LIMIT && H.At(m, a) == HeapByte(s, a)
  {
    var n := 4096 * (hi - FIRST_HEAP_PAGE);
    seq<byte>(n, i requires 0 <= i < n => HeapByte(s, B.HEAP_START + i))
  }

  predicate OnHeap(a: nat, hi: nat) { FIRST_HEAP_PAGE <= a / 4096 < hi <= ALL_PAGES }

  lemma OnHeapInside(m: seq<byte>, hi: nat, a: nat)
    requires FIRST_HEAP_PAGE <= hi <= ALL_PAGES && |m| == 4096 * (hi - FIRST_HEAP_PAGE)
    ensures OnHeap(a, hi) <==> H.Inside(m, a, 1)
    ensures OnHeap(a, hi) ==> a < WORD_LIMIT
  {
  }

  // ---- where a heap address lies

  /** A heap address lies at its offset in the data frame of its page. */
  lemma WhereHeapByte(s: Phys, dirs: set<nat>, hi: nat, a: word)
    requires Inv(s, dirs) && HeapBacked(s, dirs, hi) && OnHeap(a, hi)
    ensures var f := HeapFrame(s, a / 4096);
      && DataFrame(s, dirs, f) && f * 1024 + a % 4096 / 4 < |s.mem|
      && HeapByte(s, a) == ByteOf(Entry(s.mem, f, a % 4096 / 4), a % 4)
  {
    BitZero(0);
    PhysicalOfMapped(s.mem, s.kernelDir, a);
    assert Present(Pte(s.mem, s.kernelDir, a / 4096));
    var f := HeapFrame(s, a / 4096);
    InFrame(f, a);
    assert DataFrame(s, dirs, f);
  }

  lemma FourMore(n: nat, o: nat)
    ensures (4 * n + o) % 4 == o % 4
  {
  }

  lemma InFrame(f: nat, a: nat)
    ensures (4096 * f + a % 4096) / 4096 == f && (4096 * f + a % 4096) % 4096 == a % 4096
    ensures (4096 * f + a % 4096) % 4 == a % 4 && a % 4096 % 4 == a % 4
  {
    FourMore(1024 * f, a % 4096);
    FourMore(1024 * (a / 4096), a % 4096);
    assert a == 4 * (1024 * (a / 4096)) + a % 4096;
  }

  /** Data frames, and so heap bytes, come through a change that keeps translations and data frames. */
  lemma SameData(s: Phys, r: Phys, dirs: set<nat>, hi: nat)
    requires Inv(s, dirs) && HeapBacked(s, dirs, hi) && r.kernelDir == s.kernelDir && FIRST_HEAP_PAGE <= hi <= ALL_PAGES
    requires forall vp: nat :: FIRST_HEAP_PAGE <= vp < hi ==> Pte(r.mem, s.kernelDir, vp) == Pte(s.mem, s.kernelDir, vp)
    requires forall f: nat, j: nat :: DataFrame(s, dirs, f) && j < 1024 ==> Entry(r.mem, f, j) == Entry(s.mem, f, j)
    ensures HeapBytes(r, hi) == HeapBytes(s, hi)
  {
    hide HeapByte, HeapBacked, DataFrame, Inv, Pte;
    var m, n := HeapBytes(s, hi), HeapBytes(r, hi);
    forall i: nat | i < |m| ensures m[i] == n[i] {
      var a: word := B.HEAP_START + i;
      OnHeapInside(m, hi, a);
      assert H.At(m, a) == m[i] && H.At(n, a) == n[i];
      SameByte(s, r, dirs, hi, a);
    }
  }

  lemma SameByte(s: Phys, r: Phys, dirs: set<nat>, hi: nat, a: word)
    requires Inv(s, dirs) && HeapBacked(s, dirs, hi) && r.kernelDir == s.kernelDir && OnHeap(a, hi)
    requires Pte(r.mem, s.kernelDir, a / 4096) == Pte(s.mem, s.kernelDir, a / 4096)
    requires forall f: nat, j: nat :: DataFrame(s, dirs, f) && j < 1024 ==> Entry(r.mem, f, j) == Entry(s.mem, f, j)
    ensures HeapByte(r, a) == HeapByte(s, a)
  {
    WhereHeapByte(s, dirs, hi, a);
    PhysicalWhere(r, a, HeapFrame(s, a / 4096));
  }

  lemma PhysicalWhere(s: Phys, a: word, f: nat)
    requires Present(Pte(s.mem, s.kernelDir, a / 4096)) && HeapFrame(s, a / 4096) == f
    ensures HeapByte(s, a) == ByteOf(Entry(s.mem, f, a % 4096 / 4), a % 4)
  {
    BitZero(0);
    PhysicalOfMapped(s.mem, s.kernelDir, a);
    InFrame(f, a);
  }

  // ---- stores

  /** A store into a data frame disturbs no directory and no table. */
  lemma DataStoreKeeps(s: Phys, dirs: set<nat>, f: nat, j: nat, w: word)
    requires Inv(s, dirs) && DataFrame(s, dirs, f) && j < 1024
    ensures f * 1024 + j < |s.mem|
    ensures var r := s.(mem := Put(s.mem, f, j, w));
      && Inv(r, dirs) && SameTranslations(s, r, dirs)
        && (forall g: nat :: DataFrame(s, dirs, g) ==> DataFrame(r, dirs, g))
  {
    var r := s.(mem := Put(s.mem, f, j, w));
    assert forall d: nat, i: nat :: d in dirs && i < 1024 ==> Entry(r.mem, d, i) == Entry(s.mem, d, i);
    assert forall d: nat, i: nat :: OwnSlot(r, dirs, d, i) <==> OwnSlot(s, dirs, d, i);
    forall d: nat, vp: nat | d in dirs && vp < ALL_PAGES ensures Pte(r.mem, d, vp) == Pte(s.mem, d, vp) {
      if !NeedsTable(s, d, vp) { TableIsOwned(s, dirs, d, vp / 1024); }
    }
  }

  /** The byte store the processor makes at heap address a. */
  function StoreHeapByte(s: Phys, a: word, b: byte): Phys {
    var p := GetPhysical(s.mem, s.kernelDir, a);
    if p / 4096 * 1024 + p % 4096 / 4 < |s.mem| then
      s.(mem := Put(s.mem, p / 4096, p % 4096 / 4, WithByte(Entry(s.mem, p / 4096, p % 4096 / 4), p % 4, b)))
    else s
  }

  lemma StoreWhere(s: Phys, dirs: set<nat>, hi: nat, a: word, b: byte)
    requires Inv(s, dirs) && HeapBacked(s, dirs, hi) && OnHeap(a, hi)
    ensures var f, j := HeapFrame(s, a / 4096), a % 4096 / 4;
      && DataFrame(s, dirs, f) && f * 1024 + j < |s.mem|
      && StoreHeapByte(s, a, b) == s.(mem := Put(s.mem, f, j, WithByte(Entry(s.mem, f, j), a % 4, b)))
  {
    WhereHeapByte(s, dirs, hi, a);
    BitZero(0);
    PhysicalOfMapped(s.mem, s.kernelDir, a);
    assert Present(Pte(s.mem, s.kernelDir, a / 4096));
    InFrame(HeapFrame(s, a / 4096), a);
  }

  /**
   A byte stored at a heap address is a byte stored in the heap's memory: it reads back there,
   every other heap byte and every translation of every directory stay as they are.
   */
  lemma StoreIsHeapStore(s: Phys, dirs: set<nat>, hi: nat, a: word, b: byte)
    requires Inv(s, dirs) && HeapBacked(s, dirs, hi) && OnHeap(a, hi)
    ensures H.Inside(HeapBytes(s, hi), a, 1)
    ensures var r := StoreHeapByte(s, a, b);
      && HeapBytes(r, hi) == H.StoreByte(HeapBytes(s, hi), a, b)
      && Inv(r, dirs) && HeapBacked(r, dirs, hi) && SameTranslations(s, r, dirs) && r.pmm == s.pmm
  {
    StoreWhere(s, dirs, hi, a, b);
    var f, j := HeapFrame(s, a / 4096), a % 4096 / 4;
    var w := WithByte(Entry(s.mem, f, j), a % 4, b);
    hide StoreHeapByte, Pte, HeapByte, WithByte, ByteOf;
    DataStoreKeeps(s, dirs, f, j, w);
    var r := StoreHeapByte(s, a, b);
    BackedAfter(s, r, dirs, hi);
    OnHeapInside(HeapBytes(s, hi), hi, a);
    hide HeapBytes, HeapBacked, DataFrame;
    forall x: word | OnHeap(x, hi) ensures HeapByte(r, x) == if x == a then b else HeapByte(s, x) {
      ByteAfterStore(s, r, dirs, hi, a, b, x);
    }
    BytesAfterStore(s, r, hi, a, b);
  }

  lemma BytesAfterStore(s: Phys, r: Phys, hi: nat, a: word, b: byte)
    requires OnHeap(a, hi) && FIRST_HEAP_PAGE <= hi && H.Inside(HeapBytes(s, hi), a, 1)
    requires forall x: word :: OnHeap(x, hi) ==> HeapByte(r, x) == if x == a then b else HeapByte(s, x)
    ensures HeapBytes(r, hi) == H.StoreByte(HeapBytes(s, hi), a, b)
  {
    hide HeapByte;
    var m, n := HeapBytes(s, hi), HeapBytes(r, hi);
    var e := H.StoreByte(m, a, b);
    forall i: nat | i < |m| ensures n[i] == e[i] {
      var x: word := B.HEAP_START + i;
      OnHeapInside(m, hi, x);
      assert H.At(m, x) == m[i] && H.At(n, x) == n[i] && H.At(e, x) == e[i];
    }
  }

  lemma BackedAfter(s: Phys, r: Phys, dirs: set<nat>, hi: nat)
    requires Inv(s, dirs) && HeapBacked(s, dirs, hi) && hi <= ALL_PAGES
    requires r.kernelDir == s.kernelDir && r.pmm == s.pmm && SameTranslations(s, r, dirs)
    requires forall g: nat :: DataFrame(s, dirs, g) ==> DataFrame(r, dirs, g)
    ensures HeapBacked(r, dirs, hi)
  {
    hide DataFrame, Pte;
    forall vp: nat | FIRST_HEAP_PAGE <= vp < hi ensures Pte(r.mem, r.kernelDir, vp) == Pte(s.mem, s.kernelDir, vp) {
    }
  }

  lemma ByteAfterStore(s: Phys, r: Phys, dirs: set<nat>, hi: nat, a: word, b: byte, x: word)
    requires Inv(s, dirs) && HeapBacked(s, dirs, hi) && OnHeap(a, hi) && OnHeap(x, hi)
    requires r == StoreHeapByte(s, a, b) && SameTranslations(s, r, dirs)
    ensures HeapByte(r, x) == if x == a then b else HeapByte(s, x)
  {
    StoreWhere(s, dirs, hi, a, b);
    WhereHeapByte(s, dirs, hi, x);
    hide StoreHeapByte, Pte, WithByte, ByteOf, HeapByte;
    var f, g := HeapFrame(s, a / 4096), HeapFrame(s, x / 4096);
    assert Pte(r.mem, s.kernelDir, x / 4096) == Pte(s.mem, s.kernelDir, x / 4096);
    PhysicalWhere(r, x, g);
    if a / 4096 < x / 4096 { assert f != g; } else if x / 4096 < a / 4096 { assert g != f; }
    OffsetParts(a, x);
  }

  lemma OffsetParts(a: nat, x: nat)
    ensures a / 4096 == x / 4096 && a % 4096 / 4 == x % 4096 / 4 && a % 4 == x % 4 ==> a == x
  {
    InFrame(0, a);
    InFrame(0, x);
  }

  // ---- paging operations

  /** Mapping a page writes no data frame. */
  lemma MapKeepsData(s: Phys, dirs: set<nat>, d: nat, vp: nat, phys: word, flags: word, f: nat, j: nat)
    requires Inv(s, dirs) && d in dirs && MayMap(s, d, vp) && DataFrame(s, dirs, f) && j < 1024
    requires NeedsTable(s, d, vp) ==> Room(s.pmm, 1)
    ensures Backed(s, d, vp) && Entry(MapPage(s, d, vp, phys, flags).mem, f, j) == Entry(s.mem, f, j)
  {
    MapAllowed(s, dirs, d, vp);
    if NeedsTable(s, d, vp) {
      AllocMeaning(s.pmm);
      FreshFrame(s, dirs);
    } else {
      TableIsOwned(s, dirs, d, vp / 1024);
    }
  }

  /** Mapping any page but the heap's own leaves every heap byte as it is. */
  lemma MapKeepsHeapBytes(s: Phys, dirs: set<nat>, d: nat, vp: nat, phys: word, flags: word, hi: nat)
    requires Inv(s, dirs) && d in dirs && HeapBacked(s, dirs, hi) && FIRST_HEAP_PAGE <= hi <= USER_PAGES
    requires MayMap(s, d, vp) && (NeedsTable(s, d, vp) ==> Room(s.pmm, 1))
    requires d != s.kernelDir || !(FIRST_HEAP_PAGE <= vp < hi)
    ensures Backed(s, d, vp) && HeapBytes(MapPage(s, d, vp, phys, flags), hi) == HeapBytes(s, hi)
  {
    MapMeaning(s, dirs, d, vp, phys, flags);
    MapPmm(s, d, vp, phys, flags);
    var r := MapPage(s, d, vp, phys, flags);
    hide Pte, MapPage, HeapBytes, DataFrame, HeapBacked;
    forall f: nat, j: nat | DataFrame(s, dirs, f) && j < 1024 ensures Entry(r.mem, f, j) == Entry(s.mem, f, j) {
      MapKeepsData(s, dirs, d, vp, phys, flags, f, j);
    }
    SameData(s, r, dirs, hi);
  }

  /** Growth appends a page of bytes behind the heap's and changes none of them. */
  lemma GrowthExtendsHeapBytes(s: Phys, dirs: set<nat>, hi: nat)
    requires Inv(s, dirs) && HeapBacked(s, dirs, hi) && FIRST_HEAP_PAGE <= hi < ALL_PAGES
    requires Room(s.pmm, if NeedsTable(s, s.kernelDir, hi) then 2 else 1)
    ensures Backed(s, s.kernelDir, hi) && HeapBytes(s, hi) <= HeapBytes(HeapPage(s, hi), hi + 1)
  {
    HeapPageKeepsBacked(s, dirs, hi);
    HeapFrameTaken(s, dirs, hi);
    TakenFrameInv(s, dirs);
    var s1, f0 := s.(pmm := Alloc(s.pmm).0), Alloc(s.pmm).1;
    var r := HeapPage(s, hi);
    hide Pte, MapPage, HeapPage, DataFrame, HeapBacked, Alloc;
    forall f: nat, j: nat | DataFrame(s, dirs, f) && j < 1024 ensures Entry(r.mem, f, j) == Entry(s.mem, f, j) {
      MapKeepsData(s1, dirs, s.kernelDir, hi, 4096 * f0, PRESENT + WRITE, f, j);
    }
    SameData(s, r, dirs, hi);
    LongerView(r, hi);
  }

  lemma LongerView(s: Phys, hi: nat)
    requires FIRST_HEAP_PAGE <= hi < ALL_PAGES
    ensures HeapBytes(s, hi) <= HeapBytes(s, hi + 1)
  {
  }
}
