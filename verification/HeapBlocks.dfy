/**
 What the allocator of mm/heap.c does to its list of blocks, as functions on a sequence
 of (address, size, free) triples in list order, and the laws these functions obey.
 */
module HeapBlocks {
  import opened Bits

  const HEAP_START: nat := 0x0100_0000
  const HEADER: nat := 20

  datatype Block = Block(addr: nat, size: nat, free: bool) {
    function Payload(): nat { addr + HEADER }
    function End(): nat { addr + HEADER + size }
  }

  // ---- well-formed block lists

  /** The blocks of bs fill [lo, hi) without gap or overlap, in address order. */
  ghost predicate Tiles(bs: seq<Block>, lo: nat, hi: nat) {
    if bs == [] then lo == hi
    else bs[0].addr == lo && Tiles(bs[1..], bs[0].End(), hi)
  }

  ghost predicate GoodSizes(bs: seq<Block>) {
    forall i :: 0 <= i < |bs| ==> bs[i].size >= 8 && bs[i].size % 4 == 0
  }

  /** No two neighbouring blocks are both free. */
  ghost predicate Coalesced(bs: seq<Block>) {
    forall i {:trigger bs[i]} :: 0 <= i < |bs| - 1 ==> !(bs[i].free && bs[i + 1].free)
  }

  ghost predicate Span(bs: seq<Block>, lo: nat, hi: nat) {
    Tiles(bs, lo, hi) && GoodSizes(bs) && Coalesced(bs)
  }

  datatype HeapState = HeapState(blocks: seq<Block>, brk: nat)

  ghost predicate Inv(h: HeapState) {
    h.blocks != [] && Span(h.blocks, HEAP_START, h.brk)
  }

  /** The blocks currently handed out. */
  ghost function Live(bs: seq<Block>): set<Block> {
    set b | b in bs && !b.free
  }

  // ---- the operations

  function RoundUp8(n: nat): nat { 8 * ((n + 7) / 8) }

  function RoundUpPage(n: nat): nat { 4096 * ((n + 4095) / 4096) }

  predicate Fits(b: Block, n: nat) { b.free && b.size >= n }

  /** Index of the first block at or after `from` that fits, or |bs|. */
  function FirstFit(bs: seq<Block>, n: nat, from: nat): (i: nat)
    requires from <= |bs|
    ensures from <= i <= |bs|
    ensures i < |bs| ==> Fits(bs[i], n)
    ensures forall k :: from <= k < i ==> !Fits(bs[k], n)
    decreases |bs| - from
  {
    if from == |bs| || Fits(bs[from], n) then from else FirstFit(bs, n, from + 1)
  }

  /** Hands out block i, splitting off the rest when a header and 8 bytes remain. */
  function Carve(bs: seq<Block>, i: nat, n: nat): seq<Block>
    requires i < |bs| && Fits(bs[i], n)
  {
    var b := bs[i];
    if b.size >= n + HEADER + 8 then
      bs[..i] + [Block(b.addr, n, false), Block(b.addr + HEADER + n, b.size - n - HEADER, true)] + bs[i + 1..]
    else
      bs[i := b.(free := false)]
  }

  /** Block i swallows block i + 1. */
  function Join(bs: seq<Block>, i: nat): seq<Block>
    requires i + 1 < |bs|
  {
    bs[..i] + [bs[i].(size := bs[i].size + HEADER + bs[i + 1].size)] + bs[i + 2..]
  }

  function JoinNext(bs: seq<Block>, i: nat): seq<Block>
    requires i < |bs|
  {
    if i + 1 < |bs| && bs[i + 1].free then Join(bs, i) else bs
  }

  function JoinPrev(bs: seq<Block>, i: nat): seq<Block>
    requires i < |bs|
  {
    if i > 0 && bs[i - 1].free then Join(bs, i - 1) else bs
  }

  function Coalesce(bs: seq<Block>, i: nat): seq<Block>
    requires i < |bs|
  {
    JoinPrev(JoinNext(bs, i), i)
  }

  function Release(bs: seq<Block>, i: nat): seq<Block>
    requires i < |bs|
  {
    Coalesce(bs[i := bs[i].(free := true)], i)
  }

  /** Index of the block whose payload starts at ptr, or |bs|. */
  function IndexOf(bs: seq<Block>, ptr: nat): (i: nat)
    ensures i <= |bs|
    ensures i < |bs| ==> bs[i].Payload() == ptr
    ensures forall k :: 0 <= k < i ==> bs[k].Payload() != ptr
  {
    if bs == [] || bs[0].Payload() == ptr then 0 else 1 + IndexOf(bs[1..], ptr)
  }

  function Grow(h: HeapState, bytes: nat): HeapState
    requires bytes > HEADER
  {
    var needed := RoundUpPage(bytes);
    HeapState(Coalesce(h.blocks + [Block(h.brk, needed - HEADER, true)], |h.blocks|), h.brk + needed)
  }

  function Place(h: HeapState, n: nat): (HeapState, nat)
    requires FirstFit(h.blocks, n, 0) < |h.blocks|
  {
    var i := FirstFit(h.blocks, n, 0);
    (h.(blocks := Carve(h.blocks, i, n)), h.blocks[i].Payload())
  }

  /** kmalloc; a null pointer is 0. */
  function Malloc(h: HeapState, size: nat): (HeapState, nat)
    requires Inv(h)
  {
    var n := RoundUp8(size);
    if size == 0 then (h, 0)
    else if FirstFit(h.blocks, n, 0) < |h.blocks| then Place(h, n)
    else GrowMakesRoom(h, n); Place(Grow(h, n + HEADER + PAGE_SIZE), n)
  }

  predicate IsLive(bs: seq<Block>, ptr: nat) {
    IndexOf(bs, ptr) < |bs| && !bs[IndexOf(bs, ptr)].free
  }

  function Free(h: HeapState, ptr: nat): HeapState
    requires IsLive(h.blocks, ptr)
  {
    h.(blocks := Release(h.blocks, IndexOf(h.blocks, ptr)))
  }

  // ---- tiling

  lemma {:induction false} TilesConcat(a: seq<Block>, b: seq<Block>, lo: nat, mid: nat, hi: nat)
    requires Tiles(a, lo, mid) && Tiles(b, mid, hi)
    ensures Tiles(a + b, lo, hi)
  {
    if a == [] {
      assert a + b == b;
    } else {
      TilesConcat(a[1..], b, a[0].End(), mid, hi);
      assert (a + b)[1..] == a[1..] + b;
    }
  }

  /** A tiling can be cut in front of any block. */
  lemma {:induction false} TilesCut(bs: seq<Block>, lo: nat, hi: nat, i: nat)
    requires Tiles(bs, lo, hi) && i <= |bs|
    ensures Tiles(bs[..i], lo, if i < |bs| then bs[i].addr else hi)
    ensures Tiles(bs[i..], if i < |bs| then bs[i].addr else hi, hi)
  {
    if i == 0 {
      assert bs[0..] == bs && bs[..0] == [];
    } else {
      TilesCut(bs[1..], bs[0].End(), hi, i - 1);
      assert bs[1..][..i - 1] == bs[..i][1..] && bs[1..][i - 1..] == bs[i..];
    }
  }

  /** Blocks earlier in the list end before later ones start. */
  lemma {:induction false} TilesOrdered(bs: seq<Block>, lo: nat, hi: nat, i: nat, j: nat)
    requires Tiles(bs, lo, hi) && i < j < |bs|
    ensures lo <= bs[i].addr && bs[i].End() <= bs[j].addr && bs[j].End() <= hi
    ensures j == i + 1 ==> bs[i].End() == bs[j].addr
  {
    if i > 0 {
      TilesOrdered(bs[1..], bs[0].End(), hi, i - 1, j - 1);
    } else {
      TilesCut(bs, lo, hi, j);
      TilesBounds(bs[..j], lo, bs[j].addr, 0);
      TilesBounds(bs, lo, hi, j);
      if j == 1 { assert bs[1..][0] == bs[1]; }
    }
  }

  lemma {:induction false} TilesBounds(bs: seq<Block>, lo: nat, hi: nat, i: nat)
    requires Tiles(bs, lo, hi) && i < |bs|
    ensures lo <= bs[i].addr && bs[i].End() <= hi
    ensures i == |bs| - 1 ==> bs[i].End() == hi
  {
    if i > 0 {
      TilesBounds(bs[1..], bs[0].End(), hi, i - 1);
    } else if |bs| > 1 {
      TilesBounds(bs[1..], bs[0].End(), hi, 0);
    }
  }

  /** Replacing a stretch of blocks by another tiling of the same range. */
  lemma TilesSplice(bs: seq<Block>, lo: nat, hi: nat, i: nat, j: nat, mid: seq<Block>)
    requires Tiles(bs, lo, hi) && i < j <= |bs|
    requires Tiles(mid, bs[i].addr, bs[j - 1].End())
    ensures Tiles(bs[..i] + mid + bs[j..], lo, hi)
  {
    TilesCut(bs, lo, hi, i);
    TilesCut(bs, lo, hi, j);
    if j < |bs| { TilesOrdered(bs, lo, hi, j - 1, j); } else { TilesBounds(bs, lo, hi, j - 1); }
    TilesConcat(bs[..i], mid, lo, bs[i].addr, bs[j - 1].End());
    TilesConcat(bs[..i] + mid, bs[j..], lo, bs[j - 1].End(), hi);
  }

  // ---- what each step keeps

  lemma GrowMakesRoom(h: HeapState, n: nat)
    requires Inv(h)
    ensures FirstFit(Grow(h, n + HEADER + PAGE_SIZE).blocks, n, 0)
            < |Grow(h, n + HEADER + PAGE_SIZE).blocks|
  {
    var g := Grow(h, n + HEADER + PAGE_SIZE);
    assert Fits(g.blocks[|g.blocks| - 1], n);
  }
}
