/**
 The kernel's memory from power-on: the frame allocator, paging and the heap are set up in the
 order of kernel/main.c, and then serve any run of heap calls.
 */
module Boot {
  import opened HeapRuns
  import F = Frames
  import opened Paging
  import opened PagingLaws
  import opened PagingAccess
  import opened PagingHeap
  import opened PagingLimit
  import opened VmmCode
  import opened HeapCode

  /** First frame after the kernel. */
  function KernelFrames(kernelEnd: nat): nat { (kernelEnd + 4095) / 4096 }

  /** After `vmm_init` an empty heap is mapped and supplied up to `to`, at most 4 MB on. */
  lemma ReadyForHeap(s: Phys, a: nat, to: nat)
    requires Booted(s, a) && FIRST_HEAP_PAGE < to <= 5120 && s.pmm.used + 2 <= 1024
    requires s.pmm.used + (to - FIRST_HEAP_PAGE) + 1 <= s.pmm.total
    ensures HeapMapped(s, {a}, a, FIRST_HEAP_PAGE) && Supply(s.pmm, FIRST_HEAP_PAGE, to)
  {
    var low := F.Low(s.pmm);
    F.CountPrefix(s.pmm.bitmap, s.pmm.used, low);
    assert (to + 1023) / 1024 == 5;
    assert NewTables(FIRST_HEAP_PAGE, to) == 1 && LastBegun(to) == FIRST_HEAP_PAGE;
  }

  /** `pmm_init`, `vmm_init`, `heap_init`: nothing faults if the kernel leaves four low frames. */
  method PowerOn(memSize: nat, kernelEnd: nat, ghost to: nat) returns (heap: Heap)
    requires 0 < kernelEnd && memSize <= 0x1000_0000 && KernelFrames(kernelEnd) + 4 <= 1024
    requires FIRST_HEAP_PAGE < to <= 5120 && KernelFrames(kernelEnd) + 3 + (to - FIRST_HEAP_PAGE) <= memSize / 4096
    ensures fresh(heap) && fresh(heap.vm) && fresh(heap.vm.bitmap) && fresh(heap.vm.mem)
    ensures heap.Valid() && heap.Mapped() && heap.Supplied(4096 * to) && heap.List() == INITIAL
  {
    var vm := new Vmm(1024 * (memSize / 4096));
    vm.PmmInit(memSize, kernelEnd);
    NothingGivenBack(vm.Allocator());
    vm.VmmInit();
    ReadyForHeap(vm.State(), vm.Active(), to);
    hide HeapMapped, Supply, Booted, PagingLaws.Inv, OnlyLow;
    heap := new Heap(vm, {vm.Active()});
    PagesOnly(to);
    heap.HeapInit(4096 * to);
  }

  lemma PagesOnly(to: nat)
    ensures 4096 * to % 4096 == 0 && 4096 * to / 4096 == to
  {
  }

  lemma NothingGivenBack(p: F.Pmm)
    requires F.Counted(p) && 0 <= p.used <= p.total
    requires forall q :: 0 <= q < F.MAX_FRAMES ==> (F.Test(p.bitmap, q) <==> q < p.used || p.total <= q)
    ensures Packed(p) && (p.used + 2 <= F.Low(p) ==> F.LowRoom(p, 2))
  {
    if p.used <= F.Low(p) { F.CountPrefix(p.bitmap, p.used, F.Low(p)); }
  }

  /**
   Power-on, then any legal run of heap calls and callers' writes that ends within 4 MB: on a machine
   with enough frames nothing faults, and the heap in memory ends as the list semantics says.
   */
  method BootAndRun(memSize: nat, kernelEnd: nat, uses: seq<Use>, ghost to: nat) returns (heap: Heap)
    requires 0 < kernelEnd && memSize <= 0x1000_0000 && KernelFrames(kernelEnd) + 4 <= 1024
    requires FIRST_HEAP_PAGE < to <= 5120 && KernelFrames(kernelEnd) + 3 + (to - FIRST_HEAP_PAGE) <= memSize / 4096
    requires UsesFromStart(uses) && FinalAfter(uses).brk <= 4096 * to
    ensures heap.Valid() && heap.Mapped() && heap.List() == FinalAfter(uses)
  {
    heap := PowerOn(memSize, kernelEnd, to);
    UsesAreCalls(INITIAL, uses);
    heap.Run(uses, map[], 4096 * to, {});
  }
}
