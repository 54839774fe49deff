/**
 Exactly which bytes `kmalloc` and `krealloc` hand out, told by the free blocks alone and without the
 search, the split and the growth that find them.
 */
module HeapMeaning {
  import opened Bits
  import opened HeapBlocks
  import opened HeapLaws
  import opened HeapRuns

  /** The lowest free block that holds n bytes. */
  ghost predicate LowestFit(g: HeapState, n: nat, c: Block) {
    c in g.blocks && c.free && c.size >= n && forall d <- g.blocks :: d.free && d.size >= n ==> c.addr <= d.addr
  }

  /** The end of the heap once n bytes fit: as it is if they do, or on by whole pages, a page more than needed. */
  ghost function EndFor(h: HeapState, n: nat): nat {
    if exists b <- h.blocks :: b.free && b.size >= n then h.brk else h.brk + 4096 * ((n + 20 + 4096 + 4095) / 4096)
  }

  /**
   `kmalloc(size)` takes the size to the next multiple of 8, n.  In the one well-formed heap g with the
   live blocks of h and the end that n needs, it hands out the front of the lowest free block that
   holds n bytes: n bytes if a header and 8 bytes are left over, and else the whole block.
   */
  lemma MallocExact(h: HeapState, size: nat, n: nat, g: HeapState) returns (c: Block)
    requires Inv(h) && Inv(g) && Live(g.blocks) == Live(h.blocks) && g.brk == EndFor(h, n)
    requires size > 0 && n % 8 == 0 && size <= n < size + 8
    ensures LowestFit(g, n, c) && Malloc(h, size).1 == c.addr + 20
    ensures var r, b := Malloc(h, size).0, Block(c.addr, if c.size >= n + 20 + 8 then n else c.size, false);
      Live(r.blocks) == Live(h.blocks) + {b} && b !in Live(h.blocks) && r.brk == g.brk
  {
    NextEight(size, n);
    EndIsSearched(h, n);
    hide FirstFit, RoundUp8, RoundUpPage;
    MallocIsPlace(h, size);
    SameLiveSameHeap(g, Searched(h, n));
    PlaceLive(g, n);
    var i := FirstFit(g.blocks, n, 0);
    c := g.blocks[i];
    forall d | d in g.blocks && d.free && d.size >= n ensures c.addr <= d.addr {
      var k :| 0 <= k < |g.blocks| && g.blocks[k] == d;
      assert k < i ==> !Fits(g.blocks[k], n);
      if i < k { TilesOrdered(g.blocks, HEAP_START, g.brk, i, k); }
    }
  }

  lemma NextEight(size: nat, n: nat)
    requires n % 8 == 0 && size <= n < size + 8
    ensures RoundUp8(size) == n
  {
    RoundUp8Laws(size);
  }

  lemma EndIsSearched(h: HeapState, n: nat)
    ensures Searched(h, n).brk == EndFor(h, n)
  {
    var i := FirstFit(h.blocks, n, 0);
    if i < |h.blocks| {
      assert h.blocks[i] in h.blocks;
    } else {
      forall b | b in h.blocks ensures !(b.free && b.size >= n) {
        var k :| 0 <= k < |h.blocks| && h.blocks[k] == b;
        assert !Fits(h.blocks[k], n);
      }
    }
  }

  /** Nothing is handed out for no bytes. */
  lemma MallocNothing(h: HeapState)
    requires Inv(h)
    ensures Malloc(h, 0) == (h, 0)
  {
  }

  /**
   `krealloc` allocates for the null pointer, stays in place if the block is long enough, and else
   hands out another block and takes this one out of the live ones.
   */
  lemma ReallocMeaning(h: HeapState, size: nat, c: Block)
    requires Inv(h)
    ensures Realloc(h, 0, size) == Malloc(h, size)
    ensures c in Live(h.blocks) ==> IsLive(h.blocks, c.Payload())
    ensures c in Live(h.blocks) && size <= c.size ==> Realloc(h, c.Payload(), size) == (h, c.Payload())
    ensures c in Live(h.blocks) && size > c.size ==>
      var ((r, p), (m, q)) := (Realloc(h, c.Payload(), size), Malloc(h, size));
      p == q != c.Payload() && r.brk == m.brk && c in Live(m.blocks) && Live(r.blocks) == Live(m.blocks) - {c}
  {
    if c in Live(h.blocks) {
      LiveIsFound(h, c);
      if size > c.size {
        LiveSurvivesMalloc(h, size, c.Payload());
        MallocKeepsInv(h, size);
        FreeMeaning(Malloc(h, size).0, c.Payload());
        FoundIsLive(Malloc(h, size).0, c.Payload());
      }
    }
  }

  lemma LiveIsFound(h: HeapState, c: Block)
    requires Inv(h) && c in Live(h.blocks)
    ensures IsLive(h.blocks, c.Payload()) && BlockAt(h, c.Payload()) == c
  {
    var k :| 0 <= k < |h.blocks| && h.blocks[k] == c;
    PayloadsDistinct(h.blocks, HEAP_START, h.brk, k);
  }

  lemma FoundIsLive(h: HeapState, ptr: nat)
    requires IsLive(h.blocks, ptr)
    ensures BlockAt(h, ptr) in Live(h.blocks)
  {
  }
}
