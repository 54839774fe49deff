/**
 mm/heap.c as it runs: headers and payload bytes in one memory, links followed and stored field
 by field, and growth through the page tables.  Each method is proved equal to its operation on
 the block list, and to leave every other live block's bytes alone.
 */
module HeapCode {
  import opened Bits
  import opened HeapBlocks
  import opened HeapLaws
  import opened HeapMemory
  import opened HeapLinks
  import opened HeapView
  import opened HeapRuns
  import F = Frames
  import P = Paging
  import L = PagingLaws
  import opened PagingRights
  import opened PagingHeap
  import opened PagingAccess
  import opened PagingLimit
  import opened VmmCode

  class Heap {
    const vm: Vmm
    var mem: seq<byte>
    var head: nat
    var brk: nat
    ghost var blocks: seq<Block>
    ghost var dirs: set<nat>

    constructor (vm: Vmm, ghost dirs: set<nat>)
      ensures this.vm == vm && this.dirs == dirs && mem == [] && head == 0 && brk == HEAP_START
    {
      this.vm, this.dirs := vm, dirs;
      mem, head, brk, blocks := [], 0, HEAP_START, [];
    }

    /** The pages up to brk are mapped, each on a frame of its own, within the kernel's reach. */
    ghost predicate Mapped()
      reads `brk, `dirs, vm, vm.bitmap, vm.mem
    {
      && vm.Ok() && vm.paging && HeapMapped(vm.State(), dirs, vm.Active(), brk / 4096)
      && brk % 4096 == 0 && HEAP_START <= brk < WORD_LIMIT
    }

    /** The frames for growing up to address `to` are there. */
    ghost predicate Supplied(to: nat)
      reads `brk, vm, vm.bitmap
    {
      && vm.bitmap.Length == F.BITMAP_WORDS && brk <= to < WORD_LIMIT && to % 4096 == 0
      && Supply(vm.Allocator(), brk / 4096, to / 4096)
    }

    /** The header chain from `head` is linked in both directions and tiles the heap, coalesced. */
    ghost predicate Valid()
      reads `mem, `head, `brk, `blocks
    {
      && head == HEAP_START < brk < WORD_LIMIT && |mem| == brk - HEAP_START
      && Inv(List()) && Linked(mem, blocks)
    }

    ghost function List(): HeapState
      reads `blocks, `brk
    {
      HeapState(blocks, brk)
    }

    // ---- growth

    method HeapExpand(bytes: nat, ghost to: nat)
      requires Mapped() && Supplied(to) && brk + RoundUpPage(bytes) <= to && |mem| == brk - HEAP_START
      modifies `mem, `brk, vm`usedPages, vm.bitmap, vm.mem
      ensures Mapped() && Supplied(to) && PagesWritable(vm.State(), old(brk) / 4096, brk / 4096)
      ensures brk == old(brk) + RoundUpPage(bytes) && old(mem) <= mem && |mem| == brk - HEAP_START
    {
      NeededBytes(bytes, brk, to);
      hide HeapMapped, Supply, RoundUpPage, AndNot;
      var needed := AndNot(bytes + PAGE_SIZE - 1, PAGE_SIZE - 1);
      MapPages(needed, brk / 4096, PagesOf(bytes), to / 4096);
      var grown := new byte[needed];
      mem := mem + grown[..];
      brk := brk + needed;
    }

    /** The loop of `heap_expand`: one fresh frame for each page above brk. */
    method MapPages(needed: nat, ghost first: nat, ghost pages: nat, ghost last: nat)
      requires vm.Ok() && vm.paging && HeapMapped(vm.State(), dirs, vm.Active(), first)
      requires brk == 4096 * first && needed == 4096 * pages && first + pages <= last < P.ALL_PAGES
        && FIRST_HEAP_PAGE <= first
      requires Supply(vm.Allocator(), first, last)
      modifies vm`usedPages, vm.bitmap, vm.mem
      ensures vm.Ok() && HeapMapped(vm.State(), dirs, vm.Active(), first + pages)
      ensures Supply(vm.Allocator(), first + pages, last) && PagesWritable(vm.State(), first, first + pages)
    {
      hide HeapMapped, Supply, PagesWritable;
      NothingToWrite(vm.State(), first);
      ghost var k := 0;
      var off := 0;
      while off < needed
        invariant off == 4096 * k && k <= pages && vm.Ok() && HeapMapped(vm.State(), dirs, vm.Active(), first + k)
        invariant Supply(vm.Allocator(), first + k, last) && PagesWritable(vm.State(), first, first + k)
      {
        ExpandPage(brk + off, first + k, last, first);
        off := off + PAGE_SIZE;
        k := k + 1;
      }
    }

    /** One turn of the loop in `heap_expand`. */
    method ExpandPage(virt: word, ghost page: nat, ghost to: nat, ghost lo: nat)
      requires vm.Ok() && vm.paging && HeapMapped(vm.State(), dirs, vm.Active(), page)
      requires virt == 4096 * page && FIRST_HEAP_PAGE <= page < to && lo <= page && Supply(vm.Allocator(), page, to)
      requires PagesWritable(vm.State(), lo, page)
      modifies vm`usedPages, vm.bitmap, vm.mem
      ensures vm.Ok() && HeapMapped(vm.State(), dirs, vm.Active(), page + 1) && Supply(vm.Allocator(), page + 1, to)
      ensures PagesWritable(vm.State(), lo, page + 1)
    {
      ghost var s := vm.State();
      PageAdded(s, dirs, vm.Active(), page, to);
      WritableOn(s, HeapPage(s, page), lo, page);
      PageByHand(virt, page);
    }

    /** `vmm_map(kernel_dir, heap_brk + off, pmm_alloc(), PAGE_PRESENT | PAGE_WRITE)` */
    method PageByHand(virt: word, ghost page: nat)
      requires vm.Ok() && vm.paging && virt == 4096 * page && P.Backed(vm.State(), vm.State().kernelDir, page)
      requires TryHeapPage(vm.State(), vm.Active(), page).Done?
      requires L.NeedsTable(vm.State(), vm.State().kernelDir, page) ==>
        Aside(vm.mem[..], vm.Active(), F.Alloc(F.Alloc(vm.Allocator()).0).1)
      modifies vm`usedPages, vm.bitmap, vm.mem
      ensures vm.Ok() && P.Backed(old(vm.State()), old(vm.State()).kernelDir, page)
        && vm.State() == HeapPage(old(vm.State()), page)
    {
      ghost var s, f := vm.State(), F.Alloc(vm.Allocator()).1;
      hide P.MapPage, TryMap, F.Alloc, Aside;
      var phys := vm.PmmAlloc();
      assert phys == 4096 * f && virt / 4096 == page && vm.kernelDir / 4096 == s.kernelDir;
      vm.VmmMap(vm.kernelDir, virt, phys, P.PRESENT + P.WRITE);
    }

    // ---- coalesce

    /** Block `prev` takes over its successor `b`; the block after that points back to `prev`. */
    method Swallow(prev: nat, b: nat)
      requires CanSwallow(mem, prev, b)
      modifies `mem
      ensures mem == Swallowed(old(mem), prev, b)
    {
      hide HeaderAt, LoadWord, SetField, Get;
      var next := Get(mem, b, NEXT);
      mem := SetField(mem, prev, SIZE, Get(mem, prev, SIZE) + HEADER + Get(mem, b, SIZE));
      mem := SetField(mem, prev, NEXT, next);
      if next != 0 { mem := SetField(mem, next, PREV, prev); }
    }

    method Coalesce(b: nat, ghost bs: seq<Block>, ghost i: nat)
      requires Linked(mem, bs) && Tiles(bs, HEAP_START, brk) && GoodSizes(bs) && i < |bs| && b == bs[i].addr
      modifies `mem
      ensures |mem| == |old(mem)| && Linked(mem, HeapBlocks.Coalesce(bs, i))
        && Payloads(mem, bs) == Payloads(old(mem), bs)
    {
      hide HeaderAt, Swallowed, CanSwallow, Get, Linked, Payloads;
      ghost var m, b1 := mem, JoinNext(bs, i);
      ReadHeader(mem, bs, i);
      var next := Get(mem, b, NEXT);
      if next != 0 {
        ReadHeader(mem, bs, i + 1);
        if Get(mem, next, FREE) != 0 {
          SwallowView(mem, bs, brk, i);
          Swallow(b, next);
          JoinKeepsTiling(bs, HEAP_START, brk, i);
        }
      }
      ghost var m1 := mem;
      assert Linked(m1, b1) && Tiles(b1, HEAP_START, brk) && b1[i].addr == b;
      ReadHeader(m1, b1, i);
      var prev := Get(mem, b, PREV);
      if prev != 0 {
        ReadHeader(m1, b1, i - 1);
        if Get(mem, prev, FREE) != 0 {
          SwallowView(m1, b1, brk, i - 1);
          Swallow(prev, b);
          BothPayloads(m, m1, mem, bs, brk, i);
        }
      }
    }

    // ---- kfree

    /** The test against double frees; it lets every live pointer pass. */
    method HasMagic(hdr: nat, ghost ptr: nat) returns (ok: bool)
      requires Linked(mem, blocks) && IsLive(blocks, ptr) && hdr + HEADER == ptr
      ensures ok && blocks[IndexOf(blocks, ptr)].addr == hdr
    {
      ReadLive(mem, blocks, ptr);
      hide HeaderAt, Linked, IndexOf, Get;
      ok := Get(mem, hdr, MAGIC) == HEAP_MAGIC;
    }

    method KFree(ptr: nat)
      requires Valid() && (ptr == 0 || IsLive(blocks, ptr))
      modifies `mem, `blocks
      ensures Valid() && List() == if ptr == 0 then old(List()) else Free(old(List()), ptr)
      ensures |mem| == |old(mem)| && LivePayloads(mem, blocks) == LivePayloads(old(mem), blocks)
    {
      if ptr == 0 { return; }
      hide HeaderAt, Linked, HeapBlocks.Release, LivePayloads, Get, IndexOf, Tiles, GoodSizes, Coalesced;
      ghost var i, bs := IndexOf(blocks, ptr), blocks;
      ReleaseKeepsSpan(bs, HEAP_START, brk, i);
      var hdr := ptr - HEADER;
      var ok := HasMagic(hdr, ptr);
      if !ok { return; }
      FreeBlock(hdr, bs, i);
      blocks := HeapBlocks.Release(bs, i);
    }

    /** `hdr->free = 1; coalesce(hdr)` */
    method FreeBlock(hdr: nat, ghost bs: seq<Block>, ghost i: nat)
      requires Linked(mem, bs) && Span(bs, HEAP_START, brk) && i < |bs| && !bs[i].free && hdr == bs[i].addr
      modifies `mem
      ensures |mem| == |old(mem)| && Linked(mem, HeapBlocks.Release(bs, i))
      ensures LivePayloads(mem, HeapBlocks.Release(bs, i)) == LivePayloads(old(mem), HeapBlocks.Release(bs, i))
    {
      hide HeaderAt, SetField, Payloads, LivePayloads, Linked;
      ghost var m, b1 := mem, bs[i := bs[i].(free := true)];
      FreeMarkView(m, bs, brk, i);
      mem := SetField(mem, hdr, FREE, 1);
      ghost var m1 := mem;
      Coalesce(hdr, b1, i);
      MarkedPayloads(m1, mem, bs, i);
      ReleasedPayloads(m, mem, bs, brk, i);
    }

    // ---- kmalloc

    /** The search's hit: split if enough remains, then marked used. */
    method PlaceAt(cur: nat, n: word)
      requires CanPlace(mem, cur, n)
      modifies `mem
      ensures mem == Placed(old(mem), cur, n)
    {
      hide HeaderAt, LoadWord, SetField, Get;
      if Get(mem, cur, SIZE) >= n + HEADER + 8 {
        var split, rest, next := cur + HEADER + n, Get(mem, cur, SIZE) - n - HEADER, Get(mem, cur, NEXT);
        mem := SetField(mem, split, MAGIC, HEAP_MAGIC);
        mem := SetField(mem, split, SIZE, rest);
        mem := SetField(mem, split, FREE, 1);
        mem := SetField(mem, split, NEXT, next);
        mem := SetField(mem, split, PREV, cur);
        if next != 0 { mem := SetField(mem, next, PREV, split); }
        mem := SetField(mem, cur, NEXT, split);
        mem := SetField(mem, cur, SIZE, n);
      }
      mem := SetField(mem, cur, FREE, 0);
    }

    /** `while (last->next) last = last->next` */
    method FindLast() returns (last: nat)
      requires Valid()
      ensures last == blocks[|blocks| - 1].addr
    {
      hide HeaderAt, Get, LoadWord, Linked;
      last := head;
      ghost var k := 0;
      ReadHeader(mem, blocks, 0);
      while Get(mem, last, NEXT) != 0
        invariant k < |blocks| && last == blocks[k].addr && Inside(mem, last, HEADER)
        invariant Get(mem, last, NEXT) == (if k + 1 < |blocks| then blocks[k + 1].addr else 0)
        invariant Get(mem, last, NEXT) == 0 <==> k + 1 == |blocks|
        decreases |blocks| - k
      {
        last := Get(mem, last, NEXT);
        k := k + 1;
        ReadHeader(mem, blocks, k);
      }
    }

    method LinkNew(newb: word, last: nat, size: word)
      requires Inside(mem, last, HEADER) && Inside(mem, newb, HEADER) && last < WORD_LIMIT
      modifies `mem
      ensures mem == Appended(old(mem), last, newb, size)
    {
      hide HeaderAt, LoadWord, SetField;
      mem := SetField(mem, newb, MAGIC, HEAP_MAGIC);
      mem := SetField(mem, newb, SIZE, size);
      mem := SetField(mem, newb, FREE, 1);
      mem := SetField(mem, newb, NEXT, 0);
      mem := SetField(mem, newb, PREV, 0);
      mem := SetField(mem, last, NEXT, newb);
      mem := SetField(mem, newb, PREV, last);
    }

    /** The new block's header, its link from the last one, and `coalesce`. */
    method AppendBlock(newb: word, last: nat, ghost bs: seq<Block>, ghost b: Block)
      requires bs != [] && Tiles(bs, HEAP_START, newb) && GoodSizes(bs) && Linked(mem, bs) && last == bs[|bs| - 1].addr
      requires b.addr == newb && b.free && b.size >= 8 && b.size % 4 == 0
      requires HEAP_START <= newb && b.End() == brk < WORD_LIMIT && |mem| == brk - HEAP_START
      modifies `mem
      ensures |mem| == |old(mem)| && Linked(mem, HeapBlocks.Coalesce(bs + [b], |bs|))
        && Payloads(mem, bs) == Payloads(old(mem), bs)
    {
      hide HeaderAt, SetField, Appended, Tiles, GoodSizes, HeapBlocks.Coalesce, Linked, Payloads;
      TilesAppend(bs, HEAP_START, newb, b);
      AppendedView(mem, bs, newb, b);
      LinkNew(newb, last, brk - newb - HEADER);
      ghost var m1 := mem;
      Coalesce(newb, bs + [b], |bs|);
      PrefixPayloads(m1, mem, bs, b);
    }

    /** The memory gained by an expansion becomes a block of the list h. */
    method AttachGrown(newb: nat, last: nat, ghost h: HeapState, ghost bytes: nat)
      requires Inv(h) && blocks == h.blocks && Linked(mem, blocks) && head == HEAP_START && newb == h.brk
      requires HEAP_START <= newb && bytes >= HEADER + 8
      requires brk == h.brk + RoundUpPage(bytes) < WORD_LIMIT && |mem| == brk - HEAP_START
      requires last == blocks[|blocks| - 1].addr
      modifies `mem, `blocks
      ensures Valid() && List() == Grow(h, bytes) && Payloads(mem, h.blocks) == Payloads(old(mem), h.blocks)
    {
      GrowIs(h, bytes);
      hide Linked, Payloads, Inv, Grow, HeapBlocks.Coalesce, RoundUpPage, Tiles, GoodSizes;
      ghost var b := Block(h.brk, RoundUpPage(bytes) - HEADER, true);
      AppendBlock(newb, last, blocks, b);
      blocks := HeapBlocks.Coalesce(blocks + [b], |blocks|);
    }

    /** Growth by at least n bytes, a header and a page: the new block joins a free last block. */
    method Extend(n: nat, ghost to: nat)
      requires Valid() && Mapped() && Supplied(to) && Grow(List(), n + HEADER + PAGE_SIZE).brk <= to
      modifies `mem, `brk, `blocks, vm`usedPages, vm.bitmap, vm.mem
      ensures Valid() && Mapped() && Supplied(to) && List() == Grow(old(List()), n + HEADER + PAGE_SIZE)
      ensures Payloads(mem, old(blocks)) == Payloads(old(mem), old(blocks))
    {
      ghost var h, m := List(), mem;
      var expand, oldBrk := n + HEADER + PAGE_SIZE, brk;
      var last := FindLast();
      GrowBrk(h, expand);
      assert to < WORD_LIMIT;
      hide Mapped, Supplied, Linked, Payloads, Inv, Grow, RoundUpPage;
      HeapExpand(expand, to);
      GrownView(m, mem, h.blocks);
      AttachGrown(oldBrk, last, h, expand);
    }

    /** The search's hit at block k. */
    method HandOut(cur: nat, n: word, ghost k: nat)
      requires Valid() && k < |blocks| && cur == blocks[k].addr && Fits(blocks[k], n) && n >= 8 && n % 4 == 0
      modifies `mem, `blocks
      ensures Valid() && blocks == Carve(old(blocks), k, n)
      ensures |mem| == |old(mem)| && LivePayloads(mem, old(blocks)) == LivePayloads(old(mem), old(blocks))
    {
      ghost var bs := blocks;
      PlaceView(mem, bs, brk, k, n);
      CarveKeepsSpan(bs, HEAP_START, brk, k, n);
      hide Linked, LivePayloads, Placed, CanPlace, Carve, Tiles, GoodSizes, Coalesced;
      PlaceAt(cur, n);
      blocks := Carve(bs, k, n);
    }

    /** The walk along the list: hands out the first block that fits, if any. */
    method Search(n: word) returns (ptr: nat)
      requires Valid() && n >= 8 && n % 4 == 0
      modifies `mem, `blocks
      ensures Valid() && |mem| == |old(mem)| && LivePayloads(mem, old(blocks)) == LivePayloads(old(mem), old(blocks))
      ensures ptr == 0 <==> FirstFit(old(blocks), n, 0) == |old(blocks)|
      ensures if ptr == 0 then List() == old(List()) else (List(), ptr) == Place(old(List()), n)
    {
      ghost var k, bs := 0, blocks;
      assert bs[0].addr == HEAP_START;
      hide Get, Linked, LivePayloads, Tiles, GoodSizes, Coalesced, Carve;
      var cur := head;
      while cur != 0
        invariant Valid() && blocks == bs && mem == old(mem) && k <= |bs|
        invariant cur == (if k < |bs| then bs[k].addr else 0) && (cur == 0 <==> k == |bs|)
        invariant FirstFit(bs, n, 0) == FirstFit(bs, n, k)
        decreases |bs| - k
      {
        ReadHeader(mem, bs, k);
        if Get(mem, cur, FREE) != 0 && Get(mem, cur, SIZE) >= n {
          HandOut(cur, n, k);
          return cur + HEADER;
        }
        cur := Get(mem, cur, NEXT);
        k := k + 1;
      }
      ptr := 0;
    }

    /** First fit; when nothing fits the heap grows and the search, now bound to succeed, runs again. */
    method KMalloc(size: nat, ghost to: nat) returns (ptr: nat)
      requires Valid() && Mapped() && Supplied(to) && Malloc(List(), size).0.brk <= to
      modifies `mem, `brk, `blocks, vm`usedPages, vm.bitmap, vm.mem
      ensures Valid() && Mapped() && Supplied(to) && Malloc(old(List()), size) == (List(), ptr)
      ensures LivePayloads(mem, old(blocks)) == LivePayloads(old(mem), old(blocks))
      decreases if FirstFit(blocks, RoundUp8(size), 0) < |blocks| then 0 else 2
    {
      if size == 0 { return 0; }
      SizeIsWord(List(), size);
      MallocFits(List(), size);
      hide Mapped, Supplied, Linked, Inv, LivePayloads, RoundUp8, Place, Grow, Malloc;
      var n := AndNot(size + 7, 7);
      ptr := Search(n);
      if ptr == 0 { ptr := Retry(n, to); }
    }

    /** The second half of `kmalloc`: grow, then search again. */
    method Retry(n: word, ghost to: nat) returns (ptr: nat)
      requires Valid() && Mapped() && Supplied(to) && n >= 8 && RoundUp8(n) == n
      requires FirstFit(blocks, n, 0) == |blocks| && Malloc(List(), n).0.brk <= to
      modifies `mem, `brk, `blocks, vm`usedPages, vm.bitmap, vm.mem
      ensures Valid() && Mapped() && Supplied(to) && Malloc(old(List()), n) == (List(), ptr)
      ensures LivePayloads(mem, old(blocks)) == LivePayloads(old(mem), old(blocks))
      decreases 1
    {
      ghost var h, m := List(), mem;
      RetryFits(h, n);
      hide Mapped, Supplied, Linked, Inv, LivePayloads, RoundUp8, Payloads, Place, Grow, Malloc, FirstFit, Live;
      Extend(n, to);
      ghost var g, m1 := List(), mem;
      ptr := KMalloc(n, to);
      LiveThroughRetry(m, m1, mem, h.blocks, g.blocks);
    }

    // ---- heap_init, krealloc and kmalloc_aligned

    method HeapInit(ghost to: nat)
      requires brk == HEAP_START && mem == [] && Mapped() && Supplied(to) && HEAP_START + PAGE_SIZE <= to
      modifies this, vm`usedPages, vm.bitmap, vm.mem
      ensures Valid() && Mapped() && Supplied(to) && List() == INITIAL && dirs == old(dirs)
    {
      RoundUpPageOnce();
      InitialIsWell();
      hide Mapped, Supplied, Linked, Inv, SetField, HeaderAt, RoundUpPage;
      HeapExpand(PAGE_SIZE, to);
      FirstHeader(mem);
      head := HEAP_START;
      blocks := INITIAL.blocks;
      mem := SetField(mem, head, MAGIC, HEAP_MAGIC);
      mem := SetField(mem, head, SIZE, PAGE_SIZE - HEADER);
      mem := SetField(mem, head, FREE, 1);
      mem := SetField(mem, head, NEXT, 0);
      mem := SetField(mem, head, PREV, 0);
    }

    /** `d[i] = s[i]` on turn k. */
    method CopyTurn(src: nat, dst: nat, k: nat, ghost m: seq<byte>)
      requires Inside(mem, src, k + 1) && Inside(mem, dst, k + 1) && Apart(src, dst, k + 1)
        && mem == Copied(m, src, dst, k)
      modifies `mem
      ensures mem == Copied(m, src, dst, k + 1)
    {
      hide Copied, CopyByte;
      CopyStep(m, src, dst, k);
      mem := CopyByte(mem, src + k, dst + k);
    }

    /** The byte copy of `krealloc`, which reads its length from the old header on every turn. */
    method CopyBytes(src: nat, dst: nat, ghost size: nat)
      requires HEADER <= src && Inside(mem, src - HEADER, HEADER) && Inside(mem, src, size) && Inside(mem, dst, size)
      requires Apart(src, dst, size)
      requires forall k: nat :: k <= size ==> Get(Copied(mem, src, dst, k), src - HEADER, SIZE) == size
      modifies `mem
      ensures mem == Copied(old(mem), src, dst, size)
    {
      ghost var m := mem;
      hide Get, Copied, HeaderAt, At, Slice;
      var k := 0;
      CopyNone(m, src, dst);
      while k < Get(mem, src - HEADER, SIZE)
        invariant k <= size && mem == Copied(m, src, dst, k)
        decreases size - k
      {
        CopyTurn(src, dst, k, m);
        k := k + 1;
      }
    }

    /** The second half of `krealloc`: the bytes are copied and the old block is freed. */
    method MoveTo(ptr: nat, newp: nat)
      requires Valid() && IsLive(blocks, ptr) && IsLive(blocks, newp) && ptr != newp
      requires BlockAt(List(), ptr).size <= BlockAt(List(), newp).size
      modifies `mem, `blocks
      ensures Valid() && List() == Free(old(List()), ptr)
      ensures PayloadOf(mem, Moved(old(List()), ptr, newp)) == PayloadOf(old(mem), BlockAt(old(List()), ptr))
      ensures var others := Without(Without(old(blocks), ptr), newp);
        LivePayloads(mem, others) == LivePayloads(old(mem), others)
    {
      ghost var m, h, size := mem, List(), BlockAt(List(), ptr).size;
      MoveReady(m, h, ptr, newp);
      hide Linked, Inv, Get, Copied, LivePayloads, PayloadOf, IndexOf, HeapBlocks.Release, Without;
      CopyBytes(ptr, newp, size);
      KFree(ptr);
      AfterMove(m, mem, h, ptr, newp);
    }

    method KRealloc(ptr: nat, size: nat, ghost to: nat) returns (newp: nat)
      requires Valid() && Mapped() && Supplied(to) && (ptr == 0 || IsLive(blocks, ptr))
        && Realloc(List(), ptr, size).0.brk <= to
      modifies `mem, `brk, `blocks, vm`usedPages, vm.bitmap, vm.mem
      ensures Valid() && Mapped() && Supplied(to) && Realloc(old(List()), ptr, size) == (List(), newp)
      ensures ptr != 0 ==>
        PayloadOf(mem, Moved(old(List()), ptr, newp)) == PayloadOf(old(mem), BlockAt(old(List()), ptr))
      ensures LivePayloads(mem, Without(old(blocks), ptr)) == LivePayloads(old(mem), Without(old(blocks), ptr))
    {
      ghost var m, h := mem, List();
      if ptr == 0 {
        newp := KMalloc(size, to);
        WithoutKeeps(m, mem, h.blocks, ptr);
        return;
      }
      ReadLive(mem, blocks, ptr);
      if Get(mem, ptr - HEADER, SIZE) >= size { return ptr; }
      newp := Relocate(ptr, size, to);
    }

    /** The growing half of `krealloc`: a new block, the old bytes, and the old block freed. */
    method Relocate(ptr: nat, size: nat, ghost to: nat) returns (newp: nat)
      requires Valid() && Mapped() && Supplied(to) && IsLive(blocks, ptr) && BlockAt(List(), ptr).size < size
      requires Realloc(List(), ptr, size).0.brk <= to
      modifies `mem, `brk, `blocks, vm`usedPages, vm.bitmap, vm.mem
      ensures Valid() && Mapped() && Supplied(to) && Realloc(old(List()), ptr, size) == (List(), newp)
      ensures PayloadOf(mem, Moved(old(List()), ptr, newp)) == PayloadOf(old(mem), BlockAt(old(List()), ptr))
      ensures LivePayloads(mem, Without(old(blocks), ptr)) == LivePayloads(old(mem), Without(old(blocks), ptr))
    {
      ghost var m, h := mem, List();
      ReallocMoves(h, ptr, size);
      hide Mapped, Supplied, Linked, Inv, Get, LivePayloads, PayloadOf, IndexOf, Malloc, Realloc, Without, RoundUp8,
        FirstFit;
      newp := KMalloc(size, to);
      ghost var m1, g := mem, List();
      MoveTo(ptr, newp);
      ReallocKeeps(m, m1, mem, h, g, ptr, newp);
    }

    /** `kmalloc`, with the block it adds to the live ones. */
    method Obtain(size: nat, ghost to: nat) returns (ptr: nat, ghost b: Block)
      requires Valid() && Mapped() && Supplied(to) && size > 0 && Malloc(List(), size).0.brk <= to
      modifies `mem, `brk, `blocks, vm`usedPages, vm.bitmap, vm.mem
      ensures Valid() && Mapped() && Supplied(to) && List() == Malloc(old(List()), size).0
      ensures LivePayloads(mem, old(blocks)) == LivePayloads(old(mem), old(blocks))
      ensures ptr == b.Payload() && b.size >= size && Live(blocks) == Live(old(blocks)) + {b} && b !in Live(old(blocks))
    {
      b := MallocMeaning(List(), size);
      hide Mapped, Supplied, Linked, Inv, LivePayloads, Malloc, RoundUp8, FirstFit, Live, Fits;
      ptr := KMalloc(size, to);
    }

    /** Over-allocates and rounds the pointer up; the aligned range lies in the one new block b. */
    method KMallocAligned(size: nat, align: nat, ghost k: nat, ghost to: nat) returns (ptr: nat, ghost b: Block)
      requires Valid() && Mapped() && Supplied(to) && align == Pow2(k) > 0 && Malloc(List(), size + align).0.brk <= to
      modifies `mem, `brk, `blocks, vm`usedPages, vm.bitmap, vm.mem
      ensures Valid() && Mapped() && Supplied(to) && List() == Malloc(old(List()), size + align).0
      ensures LivePayloads(mem, old(blocks)) == LivePayloads(old(mem), old(blocks))
      ensures Misaligned(ptr, align) == 0 && b.Payload() <= ptr < b.Payload() + align && ptr + size <= b.End()
      ensures Live(blocks) == Live(old(blocks)) + {b} && b !in Live(old(blocks))
    {
      hide Mapped, Supplied, Linked, Inv, LivePayloads, Malloc, RoundUp8, FirstFit, Live, Fits, AlignUp, Misaligned,
        Pow2;
      ptr, b := Obtain(size + align, to);
      AlignsWithin(ptr, align, k);
      ptr := AlignUp(ptr, align);
    }

    // ---- whole runs

    method Execute(c: Call, ghost to: nat, ghost kept: set<Block>) returns (result: nat)
      requires Valid() && Mapped() && Supplied(to) && Legal(List(), c) && Step(List(), c).0.brk <= to
      requires kept <= Live(blocks) && forall b <- kept :: !Names(c, b)
      modifies `mem, `brk, `blocks, vm`usedPages, vm.bitmap, vm.mem
      ensures Valid() && Mapped() && Supplied(to) && Step(old(List()), c) == (List(), result)
      ensures kept <= Live(blocks) && Contents(mem, kept) == Contents(old(mem), kept)
    {
      hide Mapped, Supplied, Linked, Inv, Malloc, Free, Realloc, LivePayloads, Live, Contents, Without;
      ghost var m, h := mem, List();
      SparedStaysLive(h, c, kept);
      match c
      case Kmalloc(size) =>
        result := KMalloc(size, to);
        SameContents(m, mem, h.blocks, kept);
      case Kfree(ptr) =>
        KFree(ptr);
        result := 0;
        SameContents(m, mem, blocks, kept);
      case Krealloc(ptr, size) =>
        result := KRealloc(ptr, size, to);
        SparedWithout(h, ptr, kept);
        SameContents(m, mem, Without(h.blocks, ptr), kept);
    }

    /** A caller's store into its own block. */
    method WriteByte(ptr: nat, off: nat, b: byte, ghost kept: set<Block>)
      requires Valid() && IsLive(blocks, ptr) && off < BlockAt(List(), ptr).size && kept <= Live(blocks)
      modifies `mem
      ensures Valid() && Contents(mem, kept) == WriteTo(Contents(old(mem), kept), ptr, off, b)
    {
      WriteView(mem, List(), ptr, off, b, kept);
      hide Linked, Contents, Inv, Live, IndexOf, WriteTo;
      mem := StoreByte(mem, ptr + off, b);
    }

    /** A call, or a caller's write, with live blocks it is not handed. */
    method Serve(u: Use, ghost l: Ledger, ghost to: nat, ghost kept: set<Block>) returns (ghost now: Ledger)
      requires Valid() && Mapped() && Supplied(to) && LegalUse(List(), u) && UseStep(List(), l, u).0.brk <= to
      requires kept <= Live(blocks) && (u.Invoke? ==> forall b <- kept :: !Names(u.call, b))
      modifies `mem, `brk, `blocks, vm`usedPages, vm.bitmap, vm.mem
      ensures Valid() && Mapped() && Supplied(to) && UseStep(old(List()), l, u) == (List(), now)
      ensures kept <= Live(blocks) && Contents(mem, kept) == Written(Contents(old(mem), kept), [u])
    {
      hide Mapped, Supplied, Linked, Inv, Contents, Live, Names, Step, Legal, BlockAt, WriteTo;
      ghost var m := mem;
      WrittenOnce(Contents(m, kept), u);
      match u
      case Invoke(c) =>
        var result := Execute(c, to, kept);
        now := Book(l, c, result);
      case Write(ptr, off, b) =>
        WriteByte(ptr, off, b, kept);
        now := l;
    }

    /**
     Any legal run of calls and of callers' writes into what they hold, executed on headers in memory
     and page tables, given frames enough for the extent at which it ends: the heap stays well linked
     and well mapped throughout and ends as the list semantics says; live blocks that no call is
     handed keep their place and hold exactly what was written to them.
     */
    method Run(uses: seq<Use>, ghost ledger: Ledger, ghost to: nat, ghost kept: set<Block>)
      requires Valid() && Mapped() && Supplied(to) && LegalUses(List(), uses) && LegalRun(List(), CallsOf(uses))
      requires RunFrom(List(), ledger, CallsOf(uses)).0.brk <= to
      requires kept <= Live(blocks) && Spared(CallsOf(uses), kept)
      modifies `mem, `brk, `blocks, vm`usedPages, vm.bitmap, vm.mem
      ensures Valid() && Mapped() && Supplied(to) && List() == RunFrom(old(List()), ledger, CallsOf(uses)).0
      ensures kept <= Live(blocks) && Contents(mem, kept) == Written(Contents(old(mem), kept), uses)
    {
      ghost var l := ledger;
      var k := 0;
      hide Mapped, Supplied, Linked, Inv, UseStep, Contents, Live, Names, Spared, LegalUse, RunFrom, LegalRun,
        LegalUses, CallsOf, Written;
      assert uses[0..] == uses;
      while k < |uses|
        invariant k <= |uses| && Valid() && Mapped() && Supplied(to) && LegalUses(List(), uses[k..])
        invariant LegalRun(List(), CallsOf(uses[k..])) && Spared(CallsOf(uses[k..]), kept)
        invariant RunFrom(List(), l, CallsOf(uses[k..])) == RunFrom(old(List()), ledger, CallsOf(uses))
        invariant kept <= Live(blocks)
        invariant Written(Contents(mem, kept), uses[k..]) == Written(Contents(old(mem), kept), uses)
      {
        UsesStep(List(), l, uses[k..], kept);
        WrittenStep(Contents(mem, kept), uses[k..]);
        l := Serve(uses[k], l, to, kept);
        assert uses[k..][1..] == uses[k + 1..];
        k := k + 1;
      }
      NoUsesLeft(List(), l, Contents(mem, kept), uses[k..]);
    }
  }

  lemma WrittenOnce(held: map<Block, seq<byte>>, u: Use)
    ensures Written(held, [u]) == if u.Write? then WriteTo(held, u.ptr, u.off, u.b) else held
  {
    assert [u][1..] == [];
  }

  lemma WrittenStep(held: map<Block, seq<byte>>, uses: seq<Use>)
    requires uses != []
    ensures Written(held, uses) == Written(Written(held, [uses[0]]), uses[1..])
  {
    WrittenOnce(held, uses[0]);
  }

  lemma NoUsesLeft(h: HeapState, l: Ledger, held: map<Block, seq<byte>>, uses: seq<Use>)
    requires Inv(h) && uses == []
    ensures CallsOf(uses) == [] && LegalRun(h, [])
    ensures RunFrom(h, l, CallsOf(uses)) == (h, l) && Written(held, uses) == held
  {
  }

  /** The first use of a run, and the rest. */
  lemma UsesStep(h: HeapState, l: Ledger, uses: seq<Use>, kept: set<Block>)
    requires Inv(h) && uses != [] && LegalUses(h, uses) && LegalRun(h, CallsOf(uses)) && Spared(CallsOf(uses), kept)
    ensures LegalUse(h, uses[0]) && (uses[0].Invoke? ==> forall b <- kept :: !Names(uses[0].call, b))
    ensures var (h', l') := UseStep(h, l, uses[0]);
      && Inv(h') && LegalUses(h', uses[1..]) && LegalRun(h', CallsOf(uses[1..])) && Spared(CallsOf(uses[1..]), kept)
      && RunFrom(h, l, CallsOf(uses)) == RunFrom(h', l', CallsOf(uses[1..]))
      && h'.brk <= RunFrom(h, l, CallsOf(uses)).0.brk
  {
    var cs, rest := CallsOf(uses), CallsOf(uses[1..]);
    UseKeepsInv(h, l, uses[0]);
    assert UseStep(h, map[], uses[0]).0 == UseStep(h, l, uses[0]).0;
    if uses[0].Invoke? {
      assert cs == [uses[0].call] + rest && cs[1..] == rest && cs[0] == uses[0].call;
      hide Inv, Step, Book, CallsOf, Names;
      RunStep(h, l, cs);
      forall i, b | 0 <= i < |rest| && b in kept ensures !Names(rest[i], b) { assert cs[i + 1] == rest[i]; }
    } else {
      assert cs == rest;
      hide Inv, Step;
      RunGrows(h, l, cs);
    }
  }

  /** What a store into a live block does. */
  lemma WriteView(m: seq<byte>, h: HeapState, ptr: nat, off: nat, b: byte, kept: set<Block>)
    requires Inv(h) && Linked(m, h.blocks) && |m| == h.brk - HEAP_START
    requires IsLive(h.blocks, ptr) && off < BlockAt(h, ptr).size && kept <= Live(h.blocks)
    ensures Inside(m, ptr + off, 1) && Linked(StoreByte(m, ptr + off, b), h.blocks)
    ensures Contents(StoreByte(m, ptr + off, b), kept) == WriteTo(Contents(m, kept), ptr, off, b)
  {
    var j, bs := IndexOf(h.blocks, ptr), h.blocks;
    PayloadInside(m, bs, j);
    var r := StoreByte(m, ptr + off, b);
    StoreByteOutside(m, ptr + off, b);
    InnerChangeView(m, r, bs, h.brk, j, off, 1);
    WrittenPayload(m, bs[j], off, b);
    hide Linked, PayloadOf, Tiles, StoreByte, IndexOf;
    forall k | k in kept
      ensures PayloadOf(r, k) ==
        if k.Payload() == ptr && off < |PayloadOf(m, k)| then PayloadOf(m, k)[off := b] else PayloadOf(m, k)
    {
      if k.Payload() == ptr { SamePayload(h, k, bs[j]); }
    }
  }

  lemma StoreByteOutside(m: seq<byte>, a: nat, b: byte)
    requires Inside(m, a, 1)
    ensures SameOutside(m, StoreByte(m, a, b), a, 1)
  {
    var r := StoreByte(m, a, b);
    assert m[0..a - HEAP_START] == r[0..a - HEAP_START] && m[a + 1 - HEAP_START..|m|] == r[a + 1 - HEAP_START..|m|];
  }

  lemma WrittenPayload(m: seq<byte>, k: Block, off: nat, b: byte)
    requires Inside(m, k.Payload(), k.size) && off < k.size
    ensures PayloadOf(StoreByte(m, k.Payload() + off, b), k) == PayloadOf(m, k)[off := b]
    ensures |PayloadOf(m, k)| == k.size
  {
    var r := StoreByte(m, k.Payload() + off, b);
    var x, y := PayloadOf(m, k), PayloadOf(r, k);
    assert r == m[k.Payload() + off - HEAP_START := b];
  }

  /** Payloads of bs survive both halves of `coalesce`. */
  lemma BothPayloads(m: seq<byte>, n: seq<byte>, r: seq<byte>, bs: seq<Block>, hi: nat, i: nat)
    requires i < |bs| && |m| == |n| == |r| && Tiles(bs, HEAP_START, hi) && Linked(m, bs)
    requires Payloads(n, bs) == Payloads(m, bs) && Payloads(r, JoinNext(bs, i)) == Payloads(n, JoinNext(bs, i))
    ensures Payloads(r, bs) == Payloads(m, bs)
  {
    if i + 1 < |bs| && bs[i + 1].free {
      LinkedMeans(m, bs);
      JoinedFromFit(n, r, bs, hi, i);
    }
  }

  lemma JoinedFromFit(m: seq<byte>, r: seq<byte>, bs: seq<Block>, hi: nat, i: nat)
    requires Fitting(m, bs) && i + 1 < |bs| && |m| == |r| && Tiles(bs, HEAP_START, hi)
    requires Payloads(r, Join(bs, i)) == Payloads(m, Join(bs, i))
    ensures Payloads(r, bs) == Payloads(m, bs)
  {
    JoinFits(m, bs, HEAP_START, hi, i);
    PayloadsMean(m, r, Join(bs, i));
    hide Join;
    assert KeepsPayloads(m, m, bs);
    KeepsThroughJoin(m, m, r, bs, i, HEAP_START, hi);
    PayloadsMean(m, r, bs);
  }

  /** `(size + 7) & ~7`, and rounding a second time changes nothing. */
  lemma RoundsUp8(size: nat)
    ensures AndNot(size + 7, 7) == RoundUp8(size) && RoundUp8(RoundUp8(size)) == RoundUp8(size)
    ensures RoundUp8(size) % 4 == 0 && (size > 0 ==> RoundUp8(size) >= 8)
  {
    RoundUp8Laws(size);
    PowersUsed();
    MaskRoundsDown(size + 7, 3);
    var q := (size + 7) / 8;
    assert (8 * q + 7) / 8 == q;
  }

  /** What the recursion of `kmalloc` relies on: after growing, the rounded size fits. */
  lemma MallocFits(h: HeapState, size: nat)
    requires Inv(h) && size > 0
    ensures var n, g := RoundUp8(size), Grow(h, RoundUp8(size) + HEADER + PAGE_SIZE);
      && Inv(g) && FirstFit(g.blocks, n, 0) < |g.blocks| && Live(g.blocks) == Live(h.blocks)
      && Malloc(h, size) == (if FirstFit(h.blocks, n, 0) < |h.blocks| then Place(h, n) else Malloc(g, n))
      && Malloc(h, size).0.brk == (if FirstFit(h.blocks, n, 0) < |h.blocks| then h.brk else g.brk)
      && (FirstFit(h.blocks, n, 0) == |h.blocks| ==> Malloc(h, n) == Malloc(h, size))
  {
    RoundsUp8(size);
    SearchedGrown(h, RoundUp8(size));
  }

  /** Growing and searching again is what `Malloc` does when nothing fits. */
  lemma RetryFits(h: HeapState, n: nat)
    requires Inv(h) && n > 0 && RoundUp8(n) == n && FirstFit(h.blocks, n, 0) == |h.blocks|
    ensures var g := Grow(h, n + HEADER + PAGE_SIZE);
      && FirstFit(g.blocks, n, 0) < |g.blocks| && Live(g.blocks) == Live(h.blocks)
      && Inv(g) && Malloc(h, n) == Malloc(g, n) && Malloc(h, n).0.brk == g.brk
  {
    MallocFits(h, n);
  }

  /** A request that the heap can meet is a machine word, rounded up or not. */
  lemma SizeIsWord(h: HeapState, size: nat)
    requires Inv(h) && size > 0 && Malloc(h, size).0.brk < WORD_LIMIT
    ensures AndNot(size + 7, 7) == RoundUp8(size) && RoundUp8(RoundUp8(size)) == RoundUp8(size)
    ensures RoundUp8(size) % 4 == 0 && 8 <= RoundUp8(size) < WORD_LIMIT
  {
    RoundsUp8(size);
    MallocFits(h, size);
    var n := RoundUp8(size);
    if FirstFit(h.blocks, n, 0) < |h.blocks| {
      TilesBounds(h.blocks, HEAP_START, h.brk, FirstFit(h.blocks, n, 0));
    } else {
      RoundUpPageLaws(n + HEADER + PAGE_SIZE);
    }
  }

  /** A run does not shrink the heap. */
  lemma {:induction false} RunGrows(h: HeapState, l: Ledger, calls: seq<Call>)
    requires Inv(h) && LegalRun(h, calls)
    ensures h.brk <= RunFrom(h, l, calls).0.brk
    decreases |calls|
  {
    if calls != [] {
      StepKeepsInv(h, calls[0]);
      StepGrows(h, calls[0]);
      RunGrows(Step(h, calls[0]).0, Book(l, calls[0], Step(h, calls[0]).1), calls[1..]);
    }
  }

  lemma StepGrows(h: HeapState, c: Call)
    requires Inv(h) && Legal(h, c)
    ensures h.brk <= Step(h, c).0.brk
  {
    match c
    case Kmalloc(size) => if size > 0 { MallocFits(h, size); }
    case Kfree(ptr) =>
    case Krealloc(ptr, size) =>
      if size > 0 { MallocFits(h, size); }
      if ptr != 0 { LiveSurvivesMalloc(h, size, ptr); }
  }

  /** The first call of a run, and the rest. */
  lemma RunStep(h: HeapState, l: Ledger, calls: seq<Call>)
    requires Inv(h) && LegalRun(h, calls) && calls != []
    ensures Legal(h, calls[0]) && Inv(Step(h, calls[0]).0) && LegalRun(Step(h, calls[0]).0, calls[1..])
    ensures var (h', p) := Step(h, calls[0]);
      RunFrom(h, l, calls) == RunFrom(h', Book(l, calls[0], p), calls[1..]) && h'.brk <= RunFrom(h, l, calls).0.brk
  {
    StepKeepsInv(h, calls[0]);
    var (h', p) := Step(h, calls[0]);
    RunGrows(h', Book(l, calls[0], p), calls[1..]);
  }

  /** Bytes of blocks live in cs are bytes of blocks live in bs, when those are the same blocks. */
  lemma LiveInBoth(m: seq<byte>, r: seq<byte>, bs: seq<Block>, cs: seq<Block>)
    requires Live(bs) <= Live(cs) && LivePayloads(r, cs) == LivePayloads(m, cs)
    ensures LivePayloads(r, bs) == LivePayloads(m, bs)
  {
    forall k | 0 <= k < |bs| ensures LivePayloads(r, bs)[k] == LivePayloads(m, bs)[k] {
      if !bs[k].free {
        assert bs[k] in Live(bs) && bs[k] in Live(cs);
        var j :| 0 <= j < |cs| && cs[j] == bs[k];
        assert LivePayloads(r, cs)[j] == LivePayloads(m, cs)[j];
      }
    }
  }

  lemma LiveThroughRetry(m: seq<byte>, m1: seq<byte>, r: seq<byte>, bs: seq<Block>, cs: seq<Block>)
    requires Payloads(m1, bs) == Payloads(m, bs) && Live(cs) == Live(bs) && LivePayloads(r, cs) == LivePayloads(m1, cs)
    ensures LivePayloads(r, bs) == LivePayloads(m, bs)
  {
    LiveAmongAll(m, m1, bs);
    LiveInBoth(m1, r, bs, cs);
  }

  lemma GrowIs(h: HeapState, bytes: nat)
    requires Inv(h) && bytes >= HEADER + 8
    ensures Inv(Grow(h, bytes)) && RoundUpPage(bytes) >= bytes && (RoundUpPage(bytes) - HEADER) % 4 == 0
    ensures Grow(h, bytes) ==
      HeapState(HeapBlocks.Coalesce(h.blocks + [Block(h.brk, RoundUpPage(bytes) - HEADER, true)], |h.blocks|),
        h.brk + RoundUpPage(bytes))
    ensures h.blocks != [] && Tiles(h.blocks, HEAP_START, h.brk) && GoodSizes(h.blocks)
  {
    GrowKeepsInv(h, bytes);
    RoundUpPageLaws(bytes);
    DifferenceOfFours(RoundUpPage(bytes), HEADER);
  }

  lemma GrowBrk(h: HeapState, bytes: nat)
    requires bytes > HEADER
    ensures Grow(h, bytes).brk == h.brk + RoundUpPage(bytes)
  {
  }

  lemma TilesAppend(bs: seq<Block>, lo: nat, hi: nat, b: Block)
    requires Tiles(bs, lo, hi) && GoodSizes(bs) && b.addr == hi && b.size >= 8 && b.size % 4 == 0
    ensures Tiles(bs + [b], lo, b.End()) && GoodSizes(bs + [b]) && (bs + [b])[|bs|] == b
  {
    TilesConcat(bs, [b], lo, hi, b.End());
  }

  function PagesOf(bytes: nat): nat { (bytes + 4095) / 4096 }

  /** `(bytes + PAGE_SIZE - 1) & ~(PAGE_SIZE - 1)`, in whole pages. */
  lemma NeededBytes(bytes: nat, brk: nat, to: nat)
    requires brk % 4096 == 0 && to % 4096 == 0 && brk + RoundUpPage(bytes) <= to < WORD_LIMIT
    ensures AndNot(bytes + PAGE_SIZE - 1, PAGE_SIZE - 1) == RoundUpPage(bytes) == 4096 * PagesOf(bytes)
    ensures brk == 4096 * (brk / 4096) && brk / 4096 + PagesOf(bytes) <= to / 4096 < P.ALL_PAGES
    ensures (brk + RoundUpPage(bytes)) % 4096 == 0 && (brk + RoundUpPage(bytes)) / 4096 == brk / 4096 + PagesOf(bytes)
  {
    SplitPage(bytes + PAGE_SIZE - 1);
    PageNumbers(brk, PagesOf(bytes));
    PageNumbers(to, 0);
  }

  lemma NothingToWrite(s: P.Phys, lo: nat)
    ensures PagesWritable(s, lo, lo)
  {
  }

  lemma WritableOn(s: P.Phys, r: P.Phys, lo: nat, hi: nat)
    requires PagesWritable(s, lo, hi) && PagesWritable(r, hi, hi + 1)
    requires forall up: nat :: up < hi ==> (MayWrite(r.mem, r.kernelDir, up) <==> MayWrite(s.mem, s.kernelDir, up))
    ensures PagesWritable(r, lo, hi + 1)
  {
  }

  lemma PageNumbers(brk: nat, pages: nat)
    requires brk % 4096 == 0
    ensures brk == 4096 * (brk / 4096)
    ensures (brk + 4096 * pages) / 4096 == brk / 4096 + pages && (brk + 4096 * pages) % 4096 == 0
  {
    assert brk + 4096 * pages == 4096 * (brk / 4096 + pages);
  }

  lemma SplitPage(m: nat)
    ensures AndNot(m, 4095) == 4096 * (m / 4096)
  {
    P.SplitEntry(m);
  }

  lemma InitialIsWell()
    ensures Inv(INITIAL)
  {
  }

  lemma RoundUpPageOnce()
    ensures RoundUpPage(PAGE_SIZE) == PAGE_SIZE
  {
  }

  /** The five stores of `heap_init` leave a list of one free block. */
  lemma FirstHeader(m: seq<byte>)
    requires |m| == PAGE_SIZE
    ensures Inside(m, HEAP_START, HEADER)
    ensures var a := SetField(SetField(m, HEAP_START, MAGIC, HEAP_MAGIC), HEAP_START, SIZE, PAGE_SIZE - HEADER);
      Linked(SetField(SetField(SetField(a, HEAP_START, FREE, 1), HEAP_START, NEXT, 0), HEAP_START, PREV, 0),
        INITIAL.blocks)
  {
    var bs := INITIAL.blocks;
    hide HeaderAt, SetField, Linked;
    StoreField(m, HEAP_START, MAGIC, HEAP_MAGIC);
    var a := SetField(m, HEAP_START, MAGIC, HEAP_MAGIC);
    StoreField(a, HEAP_START, SIZE, PAGE_SIZE - HEADER);
    var b := SetField(a, HEAP_START, SIZE, PAGE_SIZE - HEADER);
    StoreField(b, HEAP_START, FREE, 1);
    var c := SetField(b, HEAP_START, FREE, 1);
    StoreField(c, HEAP_START, NEXT, 0);
    var d := SetField(c, HEAP_START, NEXT, 0);
    StoreField(d, HEAP_START, PREV, 0);
    LinkedMeans(SetField(d, HEAP_START, PREV, 0), bs);
  }

  // ---- krealloc

  /** The list with the block of ptr, if there is one, marked free. */
  ghost function Without(bs: seq<Block>, ptr: nat): seq<Block> {
    var i := IndexOf(bs, ptr);
    if i < |bs| then bs[i := bs[i].(free := true)] else bs
  }

  /** The stretch at newp as long as the block of ptr. */
  ghost function Moved(h: HeapState, ptr: nat, newp: nat): Block
    requires IsLive(h.blocks, ptr)
  {
    Block(if newp < HEADER then 0 else newp - HEADER, BlockAt(h, ptr).size, false)
  }

  lemma WithoutKeeps(m: seq<byte>, r: seq<byte>, bs: seq<Block>, ptr: nat)
    requires LivePayloads(r, bs) == LivePayloads(m, bs)
    ensures LivePayloads(r, Without(bs, ptr)) == LivePayloads(m, Without(bs, ptr))
  {
    hide IndexOf;
    var cs := Without(bs, ptr);
    forall k | 0 <= k < |cs| ensures LivePayloads(r, cs)[k] == LivePayloads(m, cs)[k] {
      assert LivePayloads(r, bs)[k] == LivePayloads(m, bs)[k];
    }
  }

  lemma WithoutLive(bs: seq<Block>, lo: nat, hi: nat, ptr: nat)
    requires Tiles(bs, lo, hi)
    ensures Live(Without(bs, ptr)) == set b | b in Live(bs) && b.Payload() != ptr
  {
    var i, cs := IndexOf(bs, ptr), Without(bs, ptr);
    forall b ensures b in Live(cs) <==> b in Live(bs) && b.Payload() != ptr {
      if b in Live(cs) {
        var k :| 0 <= k < |cs| && cs[k] == b;
        assert bs[k] == b;
        PayloadsDistinct(bs, lo, hi, k);
      }
      if b in Live(bs) && b.Payload() != ptr {
        var k :| 0 <= k < |bs| && bs[k] == b;
        assert cs[k] == b;
      }
    }
  }

  /** Everything `CopyBytes` relies on, and the lists it leaves intact. */
  lemma MoveReady(m: seq<byte>, h: HeapState, ptr: nat, newp: nat)
    requires Inv(h) && Linked(m, h.blocks) && IsLive(h.blocks, ptr) && IsLive(h.blocks, newp) && ptr != newp
    requires BlockAt(h, ptr).size <= BlockAt(h, newp).size
    ensures var size := BlockAt(h, ptr).size;
      && HEADER <= ptr && Inside(m, ptr - HEADER, HEADER) && Inside(m, ptr, size) && Inside(m, newp, size)
        && Apart(ptr, newp, size)
      && (forall k: nat :: k <= size ==> Get(Copied(m, ptr, newp, k), ptr - HEADER, SIZE) == size)
      && Linked(Copied(m, ptr, newp, size), h.blocks)
  {
    var i, j := IndexOf(h.blocks, ptr), IndexOf(h.blocks, newp);
    hide Linked, Tiles, Get, Copied, IndexOf;
    CopySizes(m, h.blocks, h.brk, i, j);
    CopyView(m, h.blocks, h.brk, i, j, h.blocks[i].size);
  }

  /** What the copy and the release leave of each live block. */
  lemma AfterMove(m: seq<byte>, r: seq<byte>, h: HeapState, ptr: nat, newp: nat)
    requires Inv(h) && Linked(m, h.blocks) && IsLive(h.blocks, ptr) && IsLive(h.blocks, newp) && ptr != newp
    requires BlockAt(h, ptr).size <= BlockAt(h, newp).size
    requires |r| == |m| && LivePayloads(r, Free(h, ptr).blocks) ==
      LivePayloads(Copied(m, ptr, newp, BlockAt(h, ptr).size), Free(h, ptr).blocks)
    ensures PayloadOf(r, Moved(h, ptr, newp)) == PayloadOf(m, BlockAt(h, ptr))
    ensures var others := Without(Without(h.blocks, ptr), newp); LivePayloads(r, others) == LivePayloads(m, others)
  {
    var q, bs, i, j := Copied(m, ptr, newp, BlockAt(h, ptr).size), h.blocks, IndexOf(h.blocks, ptr),
      IndexOf(h.blocks, newp);
    FreeMeaning(h, ptr);
    LiveEach(q, r, Free(h, ptr).blocks);
    assert bs[j] in Live(bs);
    hide Linked, Tiles, Coalesced, GoodSizes, LivePayloads, Copied, Without, PayloadOf, IndexOf, HeapBlocks.Release,
      Slice;
    MovedCopy(m, h, ptr, newp);
    MovedBytes(q, r, bs[j], Moved(h, ptr, newp));
    CopyReach(m, bs, h.brk, i, j);
    CopyView(m, bs, h.brk, i, j, bs[i].size);
    OthersLive(bs, h.brk, ptr, newp);
    var others := Without(Without(bs, ptr), newp);
    LiveEach(m, r, others);
    forall b | b in Live(others) ensures PayloadOf(r, b) == PayloadOf(m, b) {
      var k :| 0 <= k < |bs| && bs[k] == b;
    }
  }

  lemma MovedCopy(m: seq<byte>, h: HeapState, ptr: nat, newp: nat)
    requires Inv(h) && Linked(m, h.blocks) && IsLive(h.blocks, ptr) && IsLive(h.blocks, newp) && ptr != newp
    requires BlockAt(h, ptr).size <= BlockAt(h, newp).size
    ensures PayloadOf(Copied(m, ptr, newp, BlockAt(h, ptr).size), Moved(h, ptr, newp)) == PayloadOf(m, BlockAt(h, ptr))
    ensures Inside(m, newp, BlockAt(h, newp).size) && newp >= HEADER
  {
    var i, j := IndexOf(h.blocks, ptr), IndexOf(h.blocks, newp);
    hide Linked, Copied, IndexOf, Tiles, Slice, GoodSizes, Coalesced;
    PayloadInside(m, h.blocks, i);
    PayloadInside(m, h.blocks, j);
    CopyOutside(m, ptr, newp, BlockAt(h, ptr).size);
  }

  lemma PayloadInside(m: seq<byte>, bs: seq<Block>, i: nat)
    requires Linked(m, bs) && i < |bs|
    ensures Inside(m, bs[i].Payload(), bs[i].size)
  {
    LinkedMeans(m, bs);
  }

  /** Bytes at the start of an unchanged block are unchanged. */
  lemma MovedBytes(q: seq<byte>, r: seq<byte>, b: Block, c: Block)
    requires PayloadOf(r, b) == PayloadOf(q, b) && c.addr == b.addr && c.size <= b.size && |q| <= |r|
      && Inside(q, b.Payload(), b.size)
    ensures PayloadOf(r, c) == PayloadOf(q, c)
  {
    SameInside(q, r, b.Payload(), b.End(), c.Payload(), c.End());
  }

  lemma OthersLive(bs: seq<Block>, hi: nat, ptr: nat, newp: nat)
    requires Tiles(bs, HEAP_START, hi)
    ensures Live(Without(Without(bs, ptr), newp)) == set b | b in Live(bs) && b.Payload() != ptr && b.Payload() != newp
  {
    WithoutLive(bs, HEAP_START, hi, ptr);
    MarkedTiles(bs, HEAP_START, hi, ptr);
    WithoutLive(Without(bs, ptr), HEAP_START, hi, newp);
  }

  lemma {:induction false} MarkedTiles(bs: seq<Block>, lo: nat, hi: nat, ptr: nat)
    requires Tiles(bs, lo, hi)
    ensures Tiles(Without(bs, ptr), lo, hi)
  {
    if bs != [] && bs[0].Payload() != ptr {
      MarkedTiles(bs[1..], bs[0].End(), hi, ptr);
      assert Without(bs, ptr)[1..] == Without(bs[1..], ptr);
    }
  }

  /** A reallocation that cannot stay in place is a kmalloc and a kfree of two different blocks. */
  lemma ReallocMoves(h: HeapState, ptr: nat, size: nat)
    requires Inv(h) && IsLive(h.blocks, ptr) && BlockAt(h, ptr).size < size
    ensures var (g, newp) := Malloc(h, size);
      && Inv(g) && IsLive(g.blocks, ptr) && IsLive(g.blocks, newp) && newp != ptr && BlockAt(g, ptr) == BlockAt(h, ptr)
      && BlockAt(g, newp).size >= size && Realloc(h, ptr, size) == (Free(g, ptr), newp)
        && Live(h.blocks) <= Live(g.blocks)
      && (forall b <- Live(h.blocks) :: b.Payload() != newp)
  {
    MallocKeepsInv(h, size);
    LiveSurvivesMalloc(h, size, ptr);
    var b := MallocMeaning(h, size);
    var (g, newp) := Malloc(h, size);
    hide Malloc, Release;
    assert b in Live(g.blocks);
    SamePayload(g, b, BlockAt(g, newp));
    forall c | c in Live(h.blocks) ensures c.Payload() != newp {
      if c.Payload() == newp { SamePayload(g, b, c); }
    }
  }

  lemma SamePayload(h: HeapState, b: Block, c: Block)
    requires Inv(h) && b in h.blocks && c in h.blocks && b.Payload() == c.Payload()
    ensures b == c
  {
    var i :| 0 <= i < |h.blocks| && h.blocks[i] == b;
    var j :| 0 <= j < |h.blocks| && h.blocks[j] == c;
    PayloadsDistinct(h.blocks, HEAP_START, h.brk, i);
    PayloadsDistinct(h.blocks, HEAP_START, h.brk, j);
  }

  /** What kmalloc and the move after it leave of each block live before. */
  lemma ReallocKeeps(m: seq<byte>, m1: seq<byte>, r: seq<byte>, h: HeapState, g: HeapState, ptr: nat, newp: nat)
    requires Inv(h) && Inv(g) && IsLive(h.blocks, ptr) && IsLive(g.blocks, ptr) && BlockAt(g, ptr) == BlockAt(h, ptr)
    requires Live(h.blocks) <= Live(g.blocks) && forall b <- Live(h.blocks) :: b.Payload() != newp
    requires LivePayloads(m1, h.blocks) == LivePayloads(m, h.blocks)
    requires PayloadOf(r, Moved(g, ptr, newp)) == PayloadOf(m1, BlockAt(g, ptr))
    requires var others := Without(Without(g.blocks, ptr), newp); LivePayloads(r, others) == LivePayloads(m1, others)
    ensures PayloadOf(r, Moved(h, ptr, newp)) == PayloadOf(m, BlockAt(h, ptr))
    ensures LivePayloads(r, Without(h.blocks, ptr)) == LivePayloads(m, Without(h.blocks, ptr))
  {
    OthersLive(g.blocks, g.brk, ptr, newp);
    WithoutLive(h.blocks, HEAP_START, h.brk, ptr);
    var others := Without(Without(g.blocks, ptr), newp);
    LiveEach(m, m1, h.blocks);
    LiveEach(m1, r, others);
    LiveEach(m, r, Without(h.blocks, ptr));
    assert BlockAt(h, ptr) in Live(h.blocks);
  }

  /** The bytes of some live blocks. */
  ghost function Contents(m: seq<byte>, kept: set<Block>): map<Block, seq<byte>> {
    map b | b in kept :: PayloadOf(m, b)
  }

  lemma SameContents(m: seq<byte>, r: seq<byte>, bs: seq<Block>, kept: set<Block>)
    requires LivePayloads(r, bs) == LivePayloads(m, bs) && kept <= Live(bs)
    ensures Contents(r, kept) == Contents(m, kept)
  {
    hide PayloadOf, LivePayloads;
    LiveEach(m, r, bs);
  }

  lemma SparedWithout(h: HeapState, ptr: nat, kept: set<Block>)
    requires Inv(h) && kept <= Live(h.blocks) && forall b <- kept :: b.Payload() != ptr
    ensures kept <= Live(Without(h.blocks, ptr))
  {
    WithoutLive(h.blocks, HEAP_START, h.brk, ptr);
  }

  // ---- kmalloc_aligned

  /** `(addr + align - 1) & ~(align - 1)` */
  function AlignUp(addr: nat, align: nat): nat
    requires align > 0
  {
    AndNot(addr + align - 1, align - 1)
  }

  function Misaligned(ptr: nat, align: nat): nat
    requires align > 0
  {
    ptr % align
  }

  /** Rounding up to a multiple of `align` stays within the slack of `align` bytes. */
  lemma AlignsWithin(p: nat, align: nat, k: nat)
    requires align == Pow2(k)
    ensures align > 0 && Misaligned(AlignUp(p, align), align) == 0 && p <= AlignUp(p, align) < p + align
  {
    MaskRoundsDown(p + align - 1, k);
    RoundedDown(p + align - 1, align);
  }

  lemma RoundedDown(a: nat, n: nat)
    requires n > 0
    ensures (a - a % n) % n == 0 && a - n < a - a % n <= a
  {
    var q := a / n;
    assert a - a % n == q * n + 0;
    DivModUnique(a - a % n, n, q, 0);
  }
}
