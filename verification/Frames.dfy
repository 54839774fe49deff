/**
 The physical frame allocator of mm/pmm.c: a bitmap of 65536 frames in 2048 words, a count
 of used frames, and first-free allocation.
 */
module Frames {
  import opened Bits

  const MAX_FRAMES: nat := 65536
  const BITMAP_WORDS: nat := 2048

  type Bitmap = b: seq<word> | |b| == 2048 witness seq(2048, _ => 0)

  datatype Pmm = Pmm(bitmap: Bitmap, total: nat, used: int)

  predicate Test(b: Bitmap, p: nat)
    requires p < MAX_FRAMES
  {
    Bit(b[p / 32], p % 32)
  }

  lemma WordMask(k: nat)
    requires k < 32
    ensures Pow2(k) < Pow2(32) == WORD_LIMIT
  {
    PowersUsed();
    PowGrows(k, 32);
  }

  function Set(b: Bitmap, p: nat): Bitmap
    requires p < MAX_FRAMES
  {
    WordMask(p % 32);
    OrBound(b[p / 32], Pow2(p % 32), 32);
    b[p / 32 := Or(b[p / 32], Pow2(p % 32))]
  }

  function Clear(b: Bitmap, p: nat): Bitmap
    requires p < MAX_FRAMES
  {
    AndNotBound(b[p / 32], Pow2(p % 32));
    b[p / 32 := AndNot(b[p / 32], Pow2(p % 32))]
  }

  /** Setting a bit marks exactly that frame. */
  lemma TestSet(b: Bitmap, p: nat, q: nat)
    requires p < MAX_FRAMES && q < MAX_FRAMES
    ensures Test(Set(b, p), q) <==> q == p || Test(b, q)
  {
    if q / 32 == p / 32 {
      BitOr(b[p / 32], Pow2(p % 32), q % 32);
      BitPow2(p % 32, q % 32);
    }
  }

  /** Clearing a bit releases exactly that frame. */
  lemma TestClear(b: Bitmap, p: nat, q: nat)
    requires p < MAX_FRAMES && q < MAX_FRAMES
    ensures Test(Clear(b, p), q) <==> q != p && Test(b, q)
  {
    if q / 32 == p / 32 {
      BitAndNot(b[p / 32], Pow2(p % 32), q % 32);
      BitPow2(p % 32, q % 32);
    }
  }

  /** The bitmap holds nothing but which frames are marked. */
  lemma TestsDetermine(b: Bitmap, c: Bitmap)
    requires forall p :: 0 <= p < MAX_FRAMES ==> (Test(b, p) <==> Test(c, p))
    ensures b == c
  {
    forall i | 0 <= i < BITMAP_WORDS ensures b[i] == c[i] {
      forall k: nat | k < 32 ensures Bit(b[i], k) <==> Bit(c[i], k) {
        var p := 32 * i + k;
        assert p / 32 == i && p % 32 == k;
        assert Test(b, p) <==> Test(c, p);
      }
      PowersUsed();
      BitsDetermine(b[i], c[i], 32);
    }
  }

  // ---- counting

  /** Marked frames among the first n. */
  function Count(b: Bitmap, n: nat): (c: nat)
    requires n <= MAX_FRAMES
    ensures c <= n
  {
    if n == 0 then 0 else Count(b, n - 1) + (if Test(b, n - 1) then 1 else 0)
  }

  lemma {:induction false} CountSet(b: Bitmap, p: nat, n: nat)
    requires p < MAX_FRAMES && n <= MAX_FRAMES && !Test(b, p)
    ensures Count(Set(b, p), n) == Count(b, n) + (if p < n then 1 else 0)
  {
    if n > 0 {
      CountSet(b, p, n - 1);
      TestSet(b, p, n - 1);
    }
  }

  lemma {:induction false} CountClear(b: Bitmap, p: nat, n: nat)
    requires p < MAX_FRAMES && n <= MAX_FRAMES && Test(b, p)
    ensures Count(Clear(b, p), n) == Count(b, n) - (if p < n then 1 else 0)
  {
    if n > 0 {
      CountClear(b, p, n - 1);
      TestClear(b, p, n - 1);
    }
  }

  // ---- pmm_alloc and pmm_free

  /** `used` is the number of marked frames below `total`. */
  ghost predicate Counted(m: Pmm) {
    m.total <= MAX_FRAMES && m.used == Count(m.bitmap, m.total)
  }

  predicate Room(m: Pmm, n: nat) { m.used + n <= m.total }

  /** Lowest unmarked frame at or after `from`, or `total`. */
  function FirstFree(b: Bitmap, total: nat, from: nat): (p: nat)
    requires from <= total <= MAX_FRAMES
    ensures from <= p <= total
    ensures p < total ==> !Test(b, p)
    ensures forall q :: from <= q < p ==> Test(b, q)
    decreases total - from
  {
    if from == total || !Test(b, from) then from else FirstFree(b, total, from + 1)
  }

  /** The new allocator state and the frame number; frame 0 stands for the null pointer. */
  function Alloc(m: Pmm): (Pmm, nat)
    requires m.total <= MAX_FRAMES
  {
    var p := FirstFree(m.bitmap, m.total, 0);
    if p == m.total then (m, 0)
    else (m.(bitmap := Set(m.bitmap, p), used := m.used + 1), p)
  }

  function Release(m: Pmm, p: nat): Pmm
    requires p < MAX_FRAMES
  {
    if Test(m.bitmap, p) then m.(bitmap := Clear(m.bitmap, p), used := m.used - 1) else m
  }

  lemma {:induction false} AllMarkedCount(b: Bitmap, n: nat)
    requires n <= MAX_FRAMES
    requires forall q :: 0 <= q < n ==> Test(b, q)
    ensures Count(b, n) == n
  {
    if n > 0 { AllMarkedCount(b, n - 1); }
  }

  lemma {:induction false} CountPrefix(b: Bitmap, start: nat, n: nat)
    requires start <= n <= MAX_FRAMES
    requires forall p :: 0 <= p < n ==> (Test(b, p) <==> p < start)
    ensures Count(b, n) == start
  {
    if n > start { CountPrefix(b, start, n - 1); } else { AllMarkedCount(b, n); }
  }

  /** With room left, `pmm_alloc` marks one unmarked frame, the lowest, and nothing else. */
  lemma AllocMeaning(m: Pmm)
    requires Counted(m) && Room(m, 1)
    ensures var (m', p) := Alloc(m);
            && p < m.total && !Test(m.bitmap, p) && Counted(m') && m'.total == m.total && m'.used == m.used + 1
            && (forall q :: 0 <= q < p ==> Test(m.bitmap, q))
            && (forall q :: 0 <= q < MAX_FRAMES ==> (Test(m'.bitmap, q) <==> q == p || Test(m.bitmap, q)))
  {
    var p := FirstFree(m.bitmap, m.total, 0);
    if p == m.total { AllMarkedCount(m.bitmap, m.total); }
    CountSet(m.bitmap, p, m.total);
    forall q | 0 <= q < MAX_FRAMES ensures Test(Set(m.bitmap, p), q) <==> q == p || Test(m.bitmap, q) {
      TestSet(m.bitmap, p, q);
    }
  }

  /** With every frame taken `pmm_alloc` returns the null pointer and changes nothing. */
  lemma AllocFull(m: Pmm)
    requires Counted(m) && !Room(m, 1)
    ensures Alloc(m) == (m, 0)
  {
    var p := FirstFree(m.bitmap, m.total, 0);
    if p < m.total { CountSet(m.bitmap, p, m.total); }
  }

  /** `pmm_free` unmarks the frame, if it was marked, and nothing else. */
  lemma ReleaseMeaning(m: Pmm, p: nat)
    requires p < MAX_FRAMES
    ensures forall q :: 0 <= q < MAX_FRAMES ==> (Test(Release(m, p).bitmap, q) <==> q != p && Test(m.bitmap, q))
    ensures Counted(m) && p < m.total ==> Counted(Release(m, p))
  {
    if Test(m.bitmap, p) {
      if Counted(m) { CountClear(m.bitmap, p, m.total); }
      forall q | 0 <= q < MAX_FRAMES ensures Test(Clear(m.bitmap, p), q) <==> q != p && Test(m.bitmap, q) {
        TestClear(m.bitmap, p, q);
      }
    }
  }

  /** `pmm_free(pmm_alloc())` restores the allocator, bit for bit. */
  lemma ReleaseUndoesAlloc(m: Pmm)
    requires Counted(m) && Room(m, 1)
    ensures Release(Alloc(m).0, Alloc(m).1) == m
  {
    var (m', p) := Alloc(m);
    AllocMeaning(m);
    ReleaseMeaning(m', p);
    TestsDetermine(Release(m', p).bitmap, m.bitmap);
  }

  /** Counted allocators over the same frames with the same marks are the same allocator. */
  lemma MarksDetermine(m: Pmm, k: Pmm)
    requires Counted(m) && Counted(k) && m.total == k.total
    requires forall q :: 0 <= q < MAX_FRAMES ==> (Test(m.bitmap, q) <==> Test(k.bitmap, q))
    ensures m == k
  {
    TestsDetermine(m.bitmap, k.bitmap);
  }

  // ---- frames below 4 MB

  /** Frames below 4 MB, where the kernel can reach a frame at its own address. */
  function Low(m: Pmm): (n: nat)
    ensures n <= 1024 && n <= m.total
  {
    if m.total < 1024 then m.total else 1024
  }

  /** At least n free frames below 4 MB. */
  predicate LowRoom(m: Pmm, n: nat) { Count(m.bitmap, Low(m)) + n <= Low(m) }

  lemma {:induction false} CountSlope(b: Bitmap, n: nat, k: nat)
    requires n <= k <= MAX_FRAMES
    ensures Count(b, n) <= Count(b, k) <= Count(b, n) + (k - n)
  {
    if n < k { CountSlope(b, n, k - 1); }
  }

  lemma {:induction false} FreeBelow(b: Bitmap, p: nat, n: nat)
    requires p < n <= MAX_FRAMES && !Test(b, p)
    ensures Count(b, n) < n
  {
    if p < n - 1 { FreeBelow(b, p, n - 1); } else { CountSlope(b, 0, n - 1); }
  }

  /** Allocation goes lowest first: the next frame is low exactly when a low frame is free. */
  lemma AllocLow(m: Pmm)
    requires Counted(m)
    ensures LowRoom(m, 1) ==> Room(m, 1)
    ensures Room(m, 1) ==> (Alloc(m).1 < 1024 <==> LowRoom(m, 1))
    ensures forall n: nat :: Room(m, 1) && LowRoom(m, 1) ==> (LowRoom(Alloc(m).0, n) <==> LowRoom(m, n + 1))
  {
    CountSlope(m.bitmap, Low(m), m.total);
    if Room(m, 1) {
      AllocMeaning(m);
      var p := Alloc(m).1;
      CountSet(m.bitmap, p, Low(m));
      if p < 1024 { FreeBelow(m.bitmap, p, Low(m)); } else { AllMarkedCount(m.bitmap, 1024); }
    }
  }

  /** One or two allocations take at most as many low frames. */
  lemma LowAfter(m: Pmm, n: nat, two: bool)
    requires Counted(m) && Room(m, if two then 2 else 1) && LowRoom(m, n) && n >= (if two then 2 else 1)
    ensures Alloc(m).0.total == m.total
    ensures LowRoom(if two then Alloc(Alloc(m).0).0 else Alloc(m).0, if two then n - 2 else n - 1)
  {
    AllocMeaning(m);
    AllocLow(m);
    if two {
      AllocMeaning(Alloc(m).0);
      AllocLow(Alloc(m).0);
    }
  }
}
