/**
 Laws of the heap's block list: every operation keeps the exact tiling and the maximal
 coalescing, the list is a function of what is handed out, and freeing undoes allocating.
 */
module HeapLaws {
  import opened Bits
  import opened HeapBlocks

  // ---- each operation keeps the invariant

  lemma CarveAt(bs: seq<Block>, i: nat, n: nat, k: nat)
    requires i < |bs| && Fits(bs[i], n) && bs[i].size >= n + HEADER + 8 && k <= |bs|
    ensures var b := bs[i];
      |Carve(bs, i, n)| == |bs| + 1 &&
      Carve(bs, i, n)[k] ==
        if k < i then bs[k]
        else if k == i then Block(b.addr, n, false)
        else if k == i + 1 then Block(b.addr + HEADER + n, b.size - n - HEADER, true)
        else bs[k - 1]
  {
  }

  lemma CarveKeepsSpan(bs: seq<Block>, lo: nat, hi: nat, i: nat, n: nat)
    requires Span(bs, lo, hi) && i < |bs| && Fits(bs[i], n) && n >= 8 && n % 4 == 0
    ensures Span(Carve(bs, i, n), lo, hi) && Carve(bs, i, n) != []
  {
    var b, cs := bs[i], Carve(bs, i, n);
    if b.size >= n + HEADER + 8 {
      var b1, b2 := Block(b.addr, n, false), Block(b.addr + HEADER + n, b.size - n - HEADER, true);
      assert Tiles([b1, b2], b.addr, b.End()) by { assert [b1, b2][1..] == [b2]; }
      TilesSplice(bs, lo, hi, i, i + 1, [b1, b2]);
      assert b2.size % 4 == 0 by { DifferenceOfFours(b.size, n + HEADER); }
      forall k | 0 <= k < |cs| ensures cs[k].size >= 8 && cs[k].size % 4 == 0 { CarveAt(bs, i, n, k); }
      forall k {:trigger cs[k]} | 0 <= k < |cs| - 1 ensures !(cs[k].free && cs[k + 1].free) {
        CarveAt(bs, i, n, k);
        CarveAt(bs, i, n, k + 1);
        if k > i { var c := bs[k - 1]; assert !(c.free && bs[k].free); }
      }
    } else {
      TilesSplice(bs, lo, hi, i, i + 1, [b.(free := false)]);
      assert cs == bs[..i] + [b.(free := false)] + bs[i + 1..];
    }
  }

  lemma DifferenceOfFours(x: nat, y: nat)
    requires x >= y && x % 4 == 0 && y % 4 == 0
    ensures (x - y) % 4 == 0
  {
  }

  /** Joining two neighbours keeps the tiling, and keeps the list coalesced everywhere but around the join. */
  lemma JoinKeepsTiling(bs: seq<Block>, lo: nat, hi: nat, i: nat)
    requires Tiles(bs, lo, hi) && GoodSizes(bs) && i + 1 < |bs|
    ensures Tiles(Join(bs, i), lo, hi) && GoodSizes(Join(bs, i))
  {
    var b, cs := bs[i].(size := bs[i].size + HEADER + bs[i + 1].size), Join(bs, i);
    TilesOrdered(bs, lo, hi, i, i + 1);
    TilesSplice(bs, lo, hi, i, i + 2, [b]);
    assert b.size % 4 == 0 by { SumOfFours(bs[i].size, HEADER); SumOfFours(bs[i].size + HEADER, bs[i + 1].size); }
    forall k | 0 <= k < |cs| ensures cs[k].size >= 8 && cs[k].size % 4 == 0 { JoinAt(bs, i, k); }
  }

  lemma JoinAt(bs: seq<Block>, i: nat, k: nat)
    requires i + 1 < |bs| && k < |bs| - 1
    ensures |Join(bs, i)| == |bs| - 1
    ensures Join(bs, i)[k] == if k < i then bs[k]
      else if k == i then bs[i].(size := bs[i].size + HEADER + bs[i + 1].size) else bs[k + 1]
  {
  }

  lemma SumOfFours(x: nat, y: nat)
    requires x % 4 == 0 && y % 4 == 0
    ensures (x + y) % 4 == 0
  {
  }

  /** Coalesced except that block i, which is free, may have free neighbours. */
  ghost predicate CoalescedBut(bs: seq<Block>, i: nat) {
    forall k {:trigger bs[k]} :: 0 <= k < |bs| - 1 && k != i && k + 1 != i ==> !(bs[k].free && bs[k + 1].free)
  }

  /** `coalesce` repairs a list in which only the freed block may touch free neighbours. */
  lemma CoalesceRepairs(bs: seq<Block>, lo: nat, hi: nat, i: nat)
    requires Tiles(bs, lo, hi) && GoodSizes(bs) && i < |bs| && bs[i].free && CoalescedBut(bs, i)
    ensures Span(Coalesce(bs, i), lo, hi) && Coalesce(bs, i) != []
  {
    JoinNextRepairs(bs, lo, hi, i);
    var b1 := JoinNext(bs, i);
    hide JoinNext, Tiles;
    if i > 0 && b1[i - 1].free {
      JoinKeepsTiling(b1, lo, hi, i - 1);
      JoinKeepsCoalescedBut(b1, i - 1, i);
    }
  }

  /** The first half of `coalesce` removes the fault towards the next block. */
  lemma JoinNextRepairs(bs: seq<Block>, lo: nat, hi: nat, i: nat)
    requires Tiles(bs, lo, hi) && GoodSizes(bs) && i < |bs| && bs[i].free && CoalescedBut(bs, i)
    ensures var b1 := JoinNext(bs, i);
      && i < |b1| && Tiles(b1, lo, hi) && GoodSizes(b1) && CoalescedBut(b1, i) && b1[i].free
      && (i + 1 < |b1| ==> !b1[i + 1].free)
  {
    hide Tiles, Join;
    if i + 1 < |bs| && bs[i + 1].free {
      JoinAt(bs, i, i);
      JoinKeepsTiling(bs, lo, hi, i);
      JoinKeepsCoalescedBut(bs, i, i);
    }
  }

  /** Joining a free block with a free neighbour removes the only fault on that side. */
  lemma JoinKeepsCoalescedBut(bs: seq<Block>, j: nat, i: nat)
    requires j + 1 < |bs| && (i == j || i == j + 1) && CoalescedBut(bs, i) && bs[j].free && bs[j + 1].free
    ensures CoalescedBut(Join(bs, j), j) && Join(bs, j)[j].free
    ensures j == i && j + 1 < |Join(bs, j)| ==> !Join(bs, j)[j + 1].free
    ensures i == j + 1 && j > 0 ==> !Join(bs, j)[j - 1].free
    ensures i == j + 1 && j + 2 < |bs| ==> Join(bs, j)[j + 1] == bs[j + 2]
  {
    var cs := Join(bs, j);
    forall k {:trigger cs[k]} | 0 <= k < |cs| - 1 && k != j && k + 1 != j ensures !(cs[k].free && cs[k + 1].free) {
      JoinAt(bs, j, k);
      JoinAt(bs, j, k + 1);
      if k > j { assert !(bs[k + 1].free && bs[k + 2].free); } else { assert !(bs[k].free && bs[k + 1].free); }
    }
    JoinAt(bs, j, j);
    if j + 1 < |cs| { JoinAt(bs, j, j + 1); var c := bs[j + 1]; assert j == i ==> !bs[j + 2].free; }
    if j > 0 { JoinAt(bs, j, j - 1); assert i == j + 1 ==> !bs[j - 1].free; }
  }

  lemma ReleaseKeepsSpan(bs: seq<Block>, lo: nat, hi: nat, i: nat)
    requires Span(bs, lo, hi) && i < |bs| && !bs[i].free
    ensures Span(Release(bs, i), lo, hi) && Release(bs, i) != []
  {
    var b1 := bs[i := bs[i].(free := true)];
    assert b1 == bs[..i] + [b1[i]] + bs[i + 1..];
    TilesSplice(bs, lo, hi, i, i + 1, [b1[i]]);
    CoalesceRepairs(b1, lo, hi, i);
  }

  lemma PagesDivide(q: nat)
    ensures 4096 * q % 4096 == 0
  {
  }

  lemma EightsDivide(q: nat)
    ensures 8 * q % 8 == 0
  {
  }

  lemma FoursInPages(q: nat)
    ensures 4096 * q % 4 == 0
  {
  }

  lemma FoursInEights(q: nat)
    ensures 8 * q % 4 == 0
  {
  }

  lemma RoundUpPageBounds(n: nat)
    ensures n <= RoundUpPage(n) < n + 4096
  {
  }

  lemma RoundUpPageLaws(n: nat)
    ensures n <= RoundUpPage(n) < n + 4096 && RoundUpPage(n) % 4096 == 0 && RoundUpPage(n) % 4 == 0
  {
    RoundUpPageBounds(n);
    PagesDivide((n + 4095) / 4096);
    FoursInPages((n + 4095) / 4096);
  }

  lemma GrowKeepsInv(h: HeapState, bytes: nat)
    requires Inv(h) && bytes >= HEADER + 8
    ensures Inv(Grow(h, bytes)) && Grow(h, bytes).brk >= h.brk + bytes
  {
    var needed := RoundUpPage(bytes);
    RoundUpPageLaws(bytes);
    var b := Block(h.brk, needed - HEADER, true);
    DifferenceOfFours(needed, HEADER);
    TilesConcat(h.blocks, [b], HEAP_START, h.brk, h.brk + needed);
    CoalesceRepairs(h.blocks + [b], HEAP_START, h.brk + needed, |h.blocks|);
  }

  lemma RoundUp8Laws(size: nat)
    ensures size <= RoundUp8(size) < size + 8 && RoundUp8(size) % 8 == 0 && RoundUp8(size) % 4 == 0
    ensures size > 0 ==> RoundUp8(size) >= 8
  {
    EightsDivide((size + 7) / 8);
    FoursInEights((size + 7) / 8);
  }

  lemma PlaceKeepsInv(h: HeapState, n: nat)
    requires Inv(h) && n >= 8 && n % 4 == 0 && FirstFit(h.blocks, n, 0) < |h.blocks|
    ensures Inv(Place(h, n).0)
  {
    CarveKeepsSpan(h.blocks, HEAP_START, h.brk, FirstFit(h.blocks, n, 0), n);
  }

  lemma MallocKeepsInv(h: HeapState, size: nat)
    requires Inv(h)
    ensures Inv(Malloc(h, size).0)
  {
    var n := RoundUp8(size);
    if size != 0 {
      MallocIsPlace(h, size);
      PlaceKeepsInv(Searched(h, n), n);
    }
  }

  /** The heap grows if and only if no free block fits, and then once: by whole pages for the block and a page more. */
  lemma MallocGrows(h: HeapState, size: nat)
    requires Inv(h) && size > 0
    ensures Malloc(h, size).0.brk ==
      if exists b <- h.blocks :: Fits(b, RoundUp8(size)) then h.brk
      else h.brk + RoundUpPage(RoundUp8(size) + HEADER + PAGE_SIZE)
  {
    hide RoundUp8, RoundUpPage;
    MallocIsPlace(h, size);
    var i := FirstFit(h.blocks, RoundUp8(size), 0);
    if i < |h.blocks| { assert h.blocks[i] in h.blocks; }
  }

  lemma FreeKeepsInv(h: HeapState, ptr: nat)
    requires Inv(h) && IsLive(h.blocks, ptr)
    ensures Inv(Free(h, ptr))
  {
    ReleaseKeepsSpan(h.blocks, HEAP_START, h.brk, IndexOf(h.blocks, ptr));
  }

  // ---- the block list is determined by what is handed out

  /** Every live block of bs[i..] is in Live(bs). */
  lemma LiveTail(bs: seq<Block>, lo: nat, hi: nat)
    requires Tiles(bs, lo, hi) && bs != []
    ensures Live(bs) == Live(bs[1..]) + (if bs[0].free then {} else {bs[0]})
    ensures bs[0] !in Live(bs[1..])
    ensures forall b <- Live(bs[1..]) :: b.addr >= bs[0].End()
  {
    assert bs == [bs[0]] + bs[1..];
    forall b <- Live(bs[1..]) ensures b.addr >= bs[0].End() {
      var k :| 0 <= k < |bs[1..]| && bs[1..][k] == b;
      TilesBounds(bs[1..], bs[0].End(), hi, k);
    }
  }

  /** If the first block is free, the second one, if any, is live and starts where it ends. */
  lemma FreeHead(bs: seq<Block>, lo: nat, hi: nat)
    requires Span(bs, lo, hi) && bs != [] && bs[0].free
    ensures |bs| == 1 ==> Live(bs) == {} && bs[0].End() == hi
    ensures |bs| > 1 ==> bs[1] in Live(bs) && bs[1].addr == bs[0].End()
    ensures forall b <- Live(bs) :: b.addr >= bs[0].End()
  {
    LiveTail(bs, lo, hi);
    if |bs| > 1 { TilesOrdered(bs, lo, hi, 0, 1); } else { TilesBounds(bs, lo, hi, 0); }
  }

  /**
   Canonical form: a coalesced tiling of [lo, hi) is determined by its live blocks.  The
   shape of the free list carries no history.
   */
  lemma {:induction false} LiveDeterminesBlocks(bs: seq<Block>, cs: seq<Block>, lo: nat, hi: nat)
    requires Span(bs, lo, hi) && Span(cs, lo, hi)
    requires Live(bs) == Live(cs)
    ensures bs == cs
    decreases |bs|
  {
    if bs == [] || cs == [] {
      if bs != [] { TilesBounds(bs, lo, hi, 0); }
      if cs != [] { TilesBounds(cs, lo, hi, 0); }
    } else {
      LiveTail(bs, lo, hi);
      LiveTail(cs, lo, hi);
      if bs[0].free { FreeHead(bs, lo, hi); }
      if cs[0].free { FreeHead(cs, lo, hi); }
      assert bs[0].free == cs[0].free;
      if bs[0].free {
        assert bs[0].End() == cs[0].End() by {
          if |bs| == 1 || |cs| == 1 {
            assert |bs| == |cs|;
          } else {
            assert bs[1] in Live(cs) && cs[1] in Live(bs);
          }
        }
      }
      assert bs[0] == cs[0];
      assert Live(bs[1..]) == Live(cs[1..]);
      SpanTail(bs, lo, hi);
      SpanTail(cs, lo, hi);
      LiveDeterminesBlocks(bs[1..], cs[1..], bs[0].End(), hi);
      assert bs == [bs[0]] + bs[1..] && cs == [cs[0]] + cs[1..];
    }
  }

  lemma SpanTail(bs: seq<Block>, lo: nat, hi: nat)
    requires Span(bs, lo, hi) && bs != []
    ensures Span(bs[1..], bs[0].End(), hi)
  {
    var t := bs[1..];
    forall i {:trigger t[i]} | 0 <= i < |t| - 1 ensures !(t[i].free && t[i + 1].free) {
      assert t[i] == bs[i + 1] && t[i + 1] == bs[i + 2];
    }
  }

  // ---- what each operation does to the live blocks

  lemma PayloadsDistinct(bs: seq<Block>, lo: nat, hi: nat, i: nat)
    requires Tiles(bs, lo, hi) && i < |bs|
    ensures IndexOf(bs, bs[i].Payload()) == i
  {
    var k := IndexOf(bs, bs[i].Payload());
    if k < i { TilesOrdered(bs, lo, hi, k, i); }
  }

  /** Distinct blocks of a tiling occupy disjoint address ranges, headers included. */
  lemma BlocksDisjoint(bs: seq<Block>, lo: nat, hi: nat, i: nat, j: nat)
    requires Tiles(bs, lo, hi) && i < |bs| && j < |bs| && i != j
    ensures bs[i].End() <= bs[j].addr || bs[j].End() <= bs[i].addr
  {
    if i < j { TilesOrdered(bs, lo, hi, i, j); } else { TilesOrdered(bs, lo, hi, j, i); }
  }

  lemma JoinFreeLive(bs: seq<Block>, i: nat)
    requires i + 1 < |bs| && bs[i].free && bs[i + 1].free
    ensures Live(Join(bs, i)) == Live(bs)
  {
    var cs := Join(bs, i);
    assert forall k :: 0 <= k < |cs| ==> k < i ==> cs[k] == bs[k];
    assert forall k :: 0 <= k < |cs| ==> k > i ==> cs[k] == bs[k + 1];
    forall b | b in Live(bs) ensures b in Live(cs) {
      var k :| 0 <= k < |bs| && bs[k] == b;
      assert b == cs[if k < i then k else k - 1];
    }
  }

  lemma CoalesceLive(bs: seq<Block>, i: nat)
    requires i < |bs| && bs[i].free
    ensures Live(Coalesce(bs, i)) == Live(bs)
  {
    var b1 := JoinNext(bs, i);
    if i + 1 < |bs| && bs[i + 1].free { JoinFreeLive(bs, i); }
    if i > 0 && b1[i - 1].free { JoinFreeLive(b1, i - 1); }
  }

  lemma ReleaseLive(bs: seq<Block>, lo: nat, hi: nat, i: nat)
    requires Span(bs, lo, hi) && i < |bs| && !bs[i].free
    ensures Live(Release(bs, i)) == Live(bs) - {bs[i]}
  {
    var b1 := bs[i := bs[i].(free := true)];
    CoalesceLive(b1, i);
    forall b | b in Live(bs) - {bs[i]} ensures b in Live(b1) {
      var k :| 0 <= k < |bs| && bs[k] == b;
      assert b1[k] == b;
    }
    forall b | b in Live(b1) ensures b in Live(bs) - {bs[i]} {
      var k :| 0 <= k < |b1| && b1[k] == b;
      BlocksDisjoint(bs, lo, hi, i, k);
    }
  }

  lemma GrowLive(h: HeapState, bytes: nat)
    requires bytes > HEADER
    ensures Live(Grow(h, bytes).blocks) == Live(h.blocks)
  {
    var b := Block(h.brk, RoundUpPage(bytes) - HEADER, true);
    CoalesceLive(h.blocks + [b], |h.blocks|);
  }

  /** The block a successful search hands out. */
  function HandedOut(b: Block, n: nat): Block {
    Block(b.addr, if b.size >= n + HEADER + 8 then n else b.size, false)
  }

  lemma PlaceLive(h: HeapState, n: nat)
    requires Inv(h) && n >= 8 && n % 4 == 0 && FirstFit(h.blocks, n, 0) < |h.blocks|
    ensures var b := HandedOut(h.blocks[FirstFit(h.blocks, n, 0)], n);
            Live(Place(h, n).0.blocks) == Live(h.blocks) + {b} && b !in Live(h.blocks)
  {
    CarveLive(h.blocks, HEAP_START, h.brk, FirstFit(h.blocks, n, 0), n);
  }

  lemma CarveLive(bs: seq<Block>, lo: nat, hi: nat, i: nat, n: nat)
    requires Tiles(bs, lo, hi) && i < |bs| && Fits(bs[i], n)
    ensures Live(Carve(bs, i, n)) == Live(bs) + {HandedOut(bs[i], n)} && HandedOut(bs[i], n) !in Live(bs)
  {
    var b, cs := HandedOut(bs[i], n), Carve(bs, i, n);
    assert cs[i] == b;
    hide Tiles;
    forall c | c in Live(bs) ensures c in Live(cs) && c != b {
      var k :| 0 <= k < |bs| && bs[k] == c;
      BlocksDisjoint(bs, lo, hi, i, k);
      assert c == cs[if k < i then k else k + |cs| - |bs|];
    }
    forall c | c in Live(cs) ensures c in Live(bs) + {b} {
      var k :| 0 <= k < |cs| && cs[k] == c;
      if k != i { assert c == bs[if k < i then k else k - (|cs| - |bs|)]; }
    }
  }

  // ---- kmalloc and kfree

  /** The state `Malloc` searches: grown first when nothing fits. */
  function Searched(h: HeapState, n: nat): HeapState {
    if FirstFit(h.blocks, n, 0) < |h.blocks| then h else Grow(h, n + HEADER + PAGE_SIZE)
  }

  lemma MallocIsPlace(h: HeapState, size: nat)
    requires Inv(h) && size > 0
    ensures var n := RoundUp8(size);
            var g := Searched(h, n);
            && n >= 8 && n % 4 == 0 && n >= size && Inv(g) && FirstFit(g.blocks, n, 0) < |g.blocks|
            && Malloc(h, size) == Place(g, n) && Live(g.blocks) == Live(h.blocks)
  {
    var n := RoundUp8(size);
    RoundUp8Laws(size);
    if FirstFit(h.blocks, n, 0) == |h.blocks| {
      SearchedGrown(h, n);
    }
  }

  lemma SearchedGrown(h: HeapState, n: nat)
    requires Inv(h) && n >= 8 && n % 4 == 0
    ensures var g := Grow(h, n + HEADER + PAGE_SIZE);
            Inv(g) && FirstFit(g.blocks, n, 0) < |g.blocks| && Live(g.blocks) == Live(h.blocks)
  {
    GrowMakesRoom(h, n);
    GrowKeepsInv(h, n + HEADER + PAGE_SIZE);
    GrowLive(h, n + HEADER + PAGE_SIZE);
  }

  /**
   `kmalloc(size)` hands out exactly one new block, long enough, starting at the lowest
   address at which a free block of the (possibly grown) heap fits; all other live blocks stay.
   */
  lemma MallocMeaning(h: HeapState, size: nat) returns (b: Block)
    requires Inv(h) && size > 0
    ensures Live(Malloc(h, size).0.blocks) == Live(h.blocks) + {b} && b !in Live(h.blocks)
    ensures b.Payload() == Malloc(h, size).1 && b.size >= size && !b.free
    ensures IsLive(Malloc(h, size).0.blocks, b.Payload())
    ensures forall c <- Searched(h, RoundUp8(size)).blocks :: Fits(c, RoundUp8(size)) ==> b.addr <= c.addr
    ensures Malloc(h, size).0.brk == Searched(h, RoundUp8(size)).brk
  {
    var n := RoundUp8(size);
    var g := Searched(h, n);
    var i := FirstFit(g.blocks, n, 0);
    MallocIsPlace(h, size);
    PlaceLive(g, n);
    b := HandedOut(g.blocks[i], n);
    PlaceKeepsInv(g, n);
    var m := Malloc(h, size).0;
    assert m.blocks[i] == b;
    PayloadsDistinct(m.blocks, HEAP_START, m.brk, i);
    forall c | c in g.blocks && Fits(c, n) ensures b.addr <= c.addr {
      var k :| 0 <= k < |g.blocks| && g.blocks[k] == c;
      if i < k { TilesOrdered(g.blocks, HEAP_START, g.brk, i, k); }
    }
  }

  /** `kfree` takes exactly the named block out of the live ones. */
  lemma FreeMeaning(h: HeapState, ptr: nat)
    requires Inv(h) && IsLive(h.blocks, ptr)
    ensures Live(Free(h, ptr).blocks) == Live(h.blocks) - {h.blocks[IndexOf(h.blocks, ptr)]}
    ensures forall b <- Live(Free(h, ptr).blocks) :: b.Payload() != ptr
    ensures forall b <- Live(h.blocks) :: b.Payload() != ptr ==> b in Live(Free(h, ptr).blocks)
  {
    var i := IndexOf(h.blocks, ptr);
    ReleaseLive(h.blocks, HEAP_START, h.brk, i);
    forall b | b in Live(h.blocks) && b.Payload() == ptr ensures b == h.blocks[i] {
      var k :| 0 <= k < |h.blocks| && h.blocks[k] == b;
      PayloadsDistinct(h.blocks, HEAP_START, h.brk, k);
    }
  }

  /** Two heaps of the same extent with the same live blocks are the same heap. */
  lemma SameLiveSameHeap(h: HeapState, k: HeapState)
    requires Inv(h) && Inv(k) && h.brk == k.brk && Live(h.blocks) == Live(k.blocks)
    ensures h == k
  {
    LiveDeterminesBlocks(h.blocks, k.blocks, HEAP_START, h.brk);
  }

  /** `kfree(kmalloc(size))` restores the exact block list, up to the growth `kmalloc` asked for. */
  lemma FreeUndoesMalloc(h: HeapState, size: nat)
    requires Inv(h) && size > 0
    ensures IsLive(Malloc(h, size).0.blocks, Malloc(h, size).1)
    ensures Free(Malloc(h, size).0, Malloc(h, size).1) == Searched(h, RoundUp8(size))
  {
    var b := MallocMeaning(h, size);
    var (m, ptr) := Malloc(h, size);
    MallocKeepsInv(h, size);
    MallocIsPlace(h, size);
    FreeKeepsInv(m, ptr);
    FreeMeaning(m, ptr);
    assert b in Live(m.blocks);
    forall c | c in Live(h.blocks) ensures c.Payload() != ptr {
      var k :| 0 <= k < |m.blocks| && m.blocks[k] == c;
      var j :| 0 <= j < |m.blocks| && m.blocks[j] == b;
      BlocksDisjoint(m.blocks, HEAP_START, m.brk, k, j);
    }
    assert Live(Free(m, ptr).blocks) == Live(h.blocks);
    SameLiveSameHeap(Free(m, ptr), Searched(h, RoundUp8(size)));
  }

  /** The order in which two blocks are freed does not matter. */
  lemma FreesCommute(h: HeapState, p: nat, q: nat)
    requires Inv(h) && IsLive(h.blocks, p) && IsLive(h.blocks, q) && p != q
    ensures IsLive(Free(h, p).blocks, q) && IsLive(Free(h, q).blocks, p)
    ensures Free(Free(h, p), q) == Free(Free(h, q), p)
  {
    OtherStaysLive(h, p, q);
    OtherStaysLive(h, q, p);
    FreeMeaning(h, p);
    FreeMeaning(h, q);
    FreeMeaning(Free(h, p), q);
    FreeMeaning(Free(h, q), p);
    FreeKeepsInv(Free(h, p), q);
    FreeKeepsInv(Free(h, q), p);
    SameLiveSameHeap(Free(Free(h, p), q), Free(Free(h, q), p));
  }

  lemma OtherStaysLive(h: HeapState, p: nat, q: nat)
    requires Inv(h) && IsLive(h.blocks, p) && IsLive(h.blocks, q) && p != q
    ensures Inv(Free(h, p)) && IsLive(Free(h, p).blocks, q)
    ensures Free(h, p).blocks[IndexOf(Free(h, p).blocks, q)] == h.blocks[IndexOf(h.blocks, q)]
  {
    FreeKeepsInv(h, p);
    FreeMeaning(h, p);
    var b, f := h.blocks[IndexOf(h.blocks, q)], Free(h, p);
    assert b in Live(f.blocks);
    var k :| 0 <= k < |f.blocks| && f.blocks[k] == b;
    PayloadsDistinct(f.blocks, HEAP_START, f.brk, k);
  }

  /** With nothing handed out the heap is one free block spanning it. */
  lemma NothingLiveOneBlock(h: HeapState)
    requires Inv(h) && Live(h.blocks) == {}
    ensures h.brk >= HEAP_START + HEADER
    ensures h.blocks == [Block(HEAP_START, h.brk - HEAP_START - HEADER, true)]
  {
    var b := h.blocks[0];
    assert b in h.blocks;
    assert b.free || b in Live(h.blocks);
    FreeHead(h.blocks, HEAP_START, h.brk);
  }

  /** Sizes and headers add up to the extent of the heap. */
  function TotalSize(bs: seq<Block>): nat {
    if bs == [] then 0 else HEADER + bs[0].size + TotalSize(bs[1..])
  }

  lemma {:induction false} SizesAddUp(bs: seq<Block>, lo: nat, hi: nat)
    requires Tiles(bs, lo, hi)
    ensures lo + TotalSize(bs) == hi
  {
    if bs != [] { SizesAddUp(bs[1..], bs[0].End(), hi); }
  }
}
