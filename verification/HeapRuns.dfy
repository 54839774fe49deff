/**
 Every run of kmalloc, kfree of live pointers and krealloc, starting from heap_init, with a
 ledger of what the callers asked for.
 */
module HeapRuns {
  import opened Bits
  import opened HeapBlocks
  import opened HeapLaws

  const INITIAL := HeapState([Block(HEAP_START, PAGE_SIZE - HEADER, true)], HEAP_START + PAGE_SIZE)

  datatype Call =
    | Kmalloc(size: nat)
    | Kfree(ptr: nat)
    | Krealloc(ptr: nat, size: nat)

  /** Callers may pass null or a pointer they still hold. */
  predicate Legal(h: HeapState, c: Call) {
    match c
    case Kmalloc(_) => true
    case Kfree(ptr) => ptr == 0 || IsLive(h.blocks, ptr)
    case Krealloc(ptr, _) => ptr == 0 || IsLive(h.blocks, ptr)
  }

  function BlockAt(h: HeapState, ptr: nat): Block
    requires IsLive(h.blocks, ptr)
  {
    h.blocks[IndexOf(h.blocks, ptr)]
  }

  function Realloc(h: HeapState, ptr: nat, size: nat): (HeapState, nat)
    requires Inv(h) && (ptr == 0 || IsLive(h.blocks, ptr))
  {
    if ptr == 0 then Malloc(h, size)
    else if BlockAt(h, ptr).size >= size then (h, ptr)
    else
      var (m, p) := Malloc(h, size);
      LiveSurvivesMalloc(h, size, ptr);
      (Free(m, ptr), p)
  }

  lemma LiveSurvivesMalloc(h: HeapState, size: nat, ptr: nat)
    requires Inv(h) && IsLive(h.blocks, ptr)
    ensures IsLive(Malloc(h, size).0.blocks, ptr)
    ensures BlockAt(Malloc(h, size).0, ptr) == BlockAt(h, ptr)
    ensures size > 0 ==> Malloc(h, size).1 != ptr
  {
    if size > 0 {
      var b := MallocMeaning(h, size);
      MallocKeepsInv(h, size);
      var m, c := Malloc(h, size).0, BlockAt(h, ptr);
      assert c in Live(h.blocks) && c in Live(m.blocks) && c != b;
      var k :| 0 <= k < |m.blocks| && m.blocks[k] == c;
      PayloadsDistinct(m.blocks, HEAP_START, m.brk, k);
      var j :| 0 <= j < |m.blocks| && m.blocks[j] == b;
      PayloadsDistinct(m.blocks, HEAP_START, m.brk, j);
    }
  }

  /** What one call leaves behind: the heap, and the pointer it returns (0 for kfree). */
  function Step(h: HeapState, c: Call): (HeapState, nat)
    requires Inv(h) && Legal(h, c)
  {
    match c
    case Kmalloc(size) => Malloc(h, size)
    case Kfree(ptr) => (if ptr == 0 then h else Free(h, ptr), 0)
    case Krealloc(ptr, size) => Realloc(h, ptr, size)
  }

  lemma StepKeepsInv(h: HeapState, c: Call)
    requires Inv(h) && Legal(h, c)
    ensures Inv(Step(h, c).0)
  {
    match c
    case Kmalloc(size) => MallocKeepsInv(h, size);
    case Kfree(ptr) => if ptr != 0 { FreeKeepsInv(h, ptr); }
    case Krealloc(ptr, size) =>
      MallocKeepsInv(h, size);
      if ptr != 0 && BlockAt(h, ptr).size < size {
        LiveSurvivesMalloc(h, size, ptr);
        FreeKeepsInv(Malloc(h, size).0, ptr);
      }
  }

  // ---- the ledger

  type Ledger = map<nat, nat>

  /** What the callers hold after a call: pointer to requested length. */
  function Book(l: Ledger, c: Call, result: nat): Ledger {
    match c
    case Kmalloc(size) => if result == 0 then l else l[result := size]
    case Kfree(ptr) => l - {ptr}
    case Krealloc(ptr, size) =>
      if result == 0 then l
      else if result == ptr then l[ptr := size]
      else l[result := size] - {ptr}
  }

  /** The ledger names exactly the live blocks, each at least as long as promised. */
  ghost predicate Honest(h: HeapState, l: Ledger) {
    && (forall b <- Live(h.blocks) :: b.Payload() in l && l[b.Payload()] <= b.size)
    && (forall p <- l :: IsLive(h.blocks, p))
  }

  lemma HonestAlloc(h: HeapState, l: Ledger, size: nat)
    requires Inv(h) && Honest(h, l) && size > 0
    ensures Honest(Malloc(h, size).0, l[Malloc(h, size).1 := size])
    ensures Malloc(h, size).1 !in l && Malloc(h, size).1 != 0
  {
    var (m, p) := Malloc(h, size);
    var b := MallocMeaning(h, size);
    forall q <- l ensures q != p && IsLive(m.blocks, q) {
      assert IsLive(h.blocks, q);
      LiveSurvivesMalloc(h, size, q);
    }
    var l' := l[p := size];
    forall c <- Live(m.blocks) ensures c.Payload() in l' && l'[c.Payload()] <= c.size {
      if c != b { assert c in Live(h.blocks); }
    }
  }

  lemma HonestRelease(h: HeapState, l: Ledger, ptr: nat)
    requires Inv(h) && Honest(h, l) && IsLive(h.blocks, ptr)
    ensures Honest(Free(h, ptr), l - {ptr})
  {
    FreeMeaning(h, ptr);
    forall q <- l - {ptr} ensures IsLive(Free(h, ptr).blocks, q) {
      OtherStaysLive(h, ptr, q);
    }
  }

  lemma HonestShrink(h: HeapState, l: Ledger, ptr: nat, size: nat)
    requires Inv(h) && Honest(h, l) && IsLive(h.blocks, ptr) && BlockAt(h, ptr).size >= size
    ensures Honest(h, l[ptr := size])
  {
    forall b <- Live(h.blocks) | b.Payload() == ptr ensures b.size >= size {
      var k :| 0 <= k < |h.blocks| && h.blocks[k] == b;
      PayloadsDistinct(h.blocks, HEAP_START, h.brk, k);
    }
  }

  lemma HonestMove(h: HeapState, l: Ledger, ptr: nat, size: nat, m: HeapState, p: nat)
    requires Inv(h) && Honest(h, l) && IsLive(h.blocks, ptr) && BlockAt(h, ptr).size < size
    requires (m, p) == Malloc(h, size)
    ensures p != 0 && IsLive(m.blocks, ptr) && p != ptr && Honest(Free(m, ptr), l[p := size] - {ptr})
  {
    assert p != ptr && IsLive(m.blocks, ptr) by { LiveSurvivesMalloc(h, size, ptr); }
    assert Inv(m) by { MallocKeepsInv(h, size); }
    var l' := l[p := size];
    assert Honest(m, l') && p != 0 by { HonestAlloc(h, l, size); }
    HonestRelease(m, l', ptr);
  }

  lemma StepKeepsHonest(h: HeapState, l: Ledger, c: Call)
    requires Inv(h) && Legal(h, c) && Honest(h, l)
    ensures Honest(Step(h, c).0, Book(l, c, Step(h, c).1))
  {
    match c
    case Kmalloc(size) =>
      if size > 0 { HonestAlloc(h, l, size); }
    case Kfree(ptr) =>
      if ptr != 0 { HonestRelease(h, l, ptr); } else { NullNotLive(h); assert l - {0} == l; }
    case Krealloc(ptr, size) =>
      NullNotLive(h);
      if ptr == 0 {
        if size > 0 {
          HonestAlloc(h, l, size);
          var l' := l[Malloc(h, size).1 := size];
          assert l' - {0} == l';
        }
      } else if BlockAt(h, ptr).size >= size {
        HonestShrink(h, l, ptr, size);
      } else {
        var (m, p) := Malloc(h, size);
        HonestMove(h, l, ptr, size, m, p);
      }
  }

  lemma NullNotLive(h: HeapState)
    requires Inv(h)
    ensures !IsLive(h.blocks, 0)
  {
    var i := IndexOf(h.blocks, 0);
    if i < |h.blocks| { TilesBounds(h.blocks, HEAP_START, h.brk, i); }
  }

  // ---- whole runs

  /** A run in which every call is legal when it is made. */
  ghost predicate LegalRun(h: HeapState, calls: seq<Call>)
    requires Inv(h)
    decreases |calls|
  {
    calls != [] ==>
      && Legal(h, calls[0])
      && (StepKeepsInv(h, calls[0]); LegalRun(Step(h, calls[0]).0, calls[1..]))
  }

  /** The heap and the ledger at the end of a run. */
  ghost function RunFrom(h: HeapState, l: Ledger, calls: seq<Call>): (HeapState, Ledger)
    requires Inv(h) && LegalRun(h, calls)
    decreases |calls|
  {
    if calls == [] then (h, l)
    else
      StepKeepsInv(h, calls[0]);
      var (h', p) := Step(h, calls[0]);
      RunFrom(h', Book(l, calls[0], p), calls[1..])
  }

  /** A run that is legal from `heap_init` on, and the heap it ends with. */
  ghost predicate LegalFromStart(calls: seq<Call>) { Inv(INITIAL) && LegalRun(INITIAL, calls) }

  ghost function FinalHeap(calls: seq<Call>): HeapState
    requires LegalFromStart(calls)
  {
    RunFrom(INITIAL, map[], calls).0
  }

  /** Whether a call is handed the pointer of block b. */
  predicate Names(c: Call, b: Block) {
    match c
    case Kmalloc(_) => false
    case Kfree(ptr) => ptr == b.Payload()
    case Krealloc(ptr, _) => ptr == b.Payload()
  }

  /** The live blocks `kept` are not handed to any of the calls. */
  ghost predicate Spared(calls: seq<Call>, kept: set<Block>) {
    forall i, b :: 0 <= i < |calls| && b in kept ==> !Names(calls[i], b)
  }

  /** A call leaves every live block it is not handed live, at its place and size. */
  lemma SparedStaysLive(h: HeapState, c: Call, kept: set<Block>)
    requires Inv(h) && Legal(h, c) && kept <= Live(h.blocks) && forall b <- kept :: !Names(c, b)
    ensures kept <= Live(Step(h, c).0.blocks)
  {
    hide Inv, Malloc, Free, Live;
    match c
    case Kmalloc(size) => SparedMalloc(h, size, kept);
    case Kfree(ptr) => if ptr != 0 { SparedFree(h, ptr, kept); }
    case Krealloc(ptr, size) =>
      SparedMalloc(h, size, kept);
      if ptr != 0 && BlockAt(h, ptr).size < size {
        MallocKeepsInv(h, size);
        LiveSurvivesMalloc(h, size, ptr);
        SparedFree(Malloc(h, size).0, ptr, kept);
      }
  }

  lemma SparedMalloc(h: HeapState, size: nat, kept: set<Block>)
    requires Inv(h) && kept <= Live(h.blocks)
    ensures kept <= Live(Malloc(h, size).0.blocks)
  {
    if size > 0 { var b := MallocMeaning(h, size); }
  }

  lemma SparedFree(h: HeapState, ptr: nat, kept: set<Block>)
    requires Inv(h) && IsLive(h.blocks, ptr) && kept <= Live(h.blocks) && forall b <- kept :: b.Payload() != ptr
    ensures kept <= Live(Free(h, ptr).blocks)
  {
    hide Live, Inv, Free;
    FreeMeaning(h, ptr);
  }

  // ---- callers at work: calls, and writes into what they hold

  datatype Use = Invoke(call: Call) | Write(ptr: nat, off: nat, b: byte)

  /** Callers write within blocks that are live. */
  predicate LegalUse(h: HeapState, u: Use) {
    match u
    case Invoke(c) => Legal(h, c)
    case Write(ptr, off, _) => IsLive(h.blocks, ptr) && off < BlockAt(h, ptr).size
  }

  function UseStep(h: HeapState, l: Ledger, u: Use): (HeapState, Ledger)
    requires Inv(h) && LegalUse(h, u)
  {
    match u
    case Invoke(c) => (Step(h, c).0, Book(l, c, Step(h, c).1))
    case Write(_, _, _) => (h, l)
  }

  lemma UseKeepsInv(h: HeapState, l: Ledger, u: Use)
    requires Inv(h) && LegalUse(h, u)
    ensures Inv(UseStep(h, l, u).0)
  {
    if u.Invoke? { StepKeepsInv(h, u.call); }
  }

  ghost predicate LegalUses(h: HeapState, uses: seq<Use>)
    requires Inv(h)
    decreases |uses|
  {
    uses != [] ==>
      && LegalUse(h, uses[0])
      && (UseKeepsInv(h, map[], uses[0]); LegalUses(UseStep(h, map[], uses[0]).0, uses[1..]))
  }

  function CallsOf(uses: seq<Use>): seq<Call>
    decreases |uses|
  {
    if uses == [] then [] else (if uses[0].Invoke? then [uses[0].call] else []) + CallsOf(uses[1..])
  }

  /** What a write makes of the contents of some blocks. */
  function WriteTo(held: map<Block, seq<byte>>, ptr: nat, off: nat, b: byte): map<Block, seq<byte>> {
    map k | k in held :: if k.Payload() == ptr && off < |held[k]| then held[k][off := b] else held[k]
  }

  /** What the writes among the uses make of them, in order. */
  function Written(held: map<Block, seq<byte>>, uses: seq<Use>): map<Block, seq<byte>>
    decreases |uses|
  {
    if uses == [] then held
    else if uses[0].Write? then Written(WriteTo(held, uses[0].ptr, uses[0].off, uses[0].b), uses[1..])
    else Written(held, uses[1..])
  }

  /** Legal uses make a legal run of calls. */
  lemma {:induction false} UsesAreCalls(h: HeapState, uses: seq<Use>)
    requires Inv(h) && LegalUses(h, uses)
    ensures LegalRun(h, CallsOf(uses))
    decreases |uses|
  {
    if uses != [] {
      hide Inv, Step, Legal, BlockAt, IsLive;
      UseKeepsInv(h, map[], uses[0]);
      UsesAreCalls(UseStep(h, map[], uses[0]).0, uses[1..]);
      var rest := CallsOf(uses[1..]);
      if uses[0].Invoke? {
        var cs := [uses[0].call] + rest;
        assert cs[1..] == rest && cs[0] == uses[0].call;
        StepKeepsInv(h, uses[0].call);
      } else {
        assert [] + rest == rest;
      }
    }
  }

  ghost predicate UsesFromStart(uses: seq<Use>) { Inv(INITIAL) && LegalUses(INITIAL, uses) }

  /** The heap after uses that are legal from `heap_init` on. */
  ghost function FinalAfter(uses: seq<Use>): HeapState
    requires UsesFromStart(uses)
  {
    UsesAreCalls(INITIAL, uses);
    FinalHeap(CallsOf(uses))
  }

  lemma {:induction false} RunIsHonest(h: HeapState, l: Ledger, calls: seq<Call>)
    requires Inv(h) && LegalRun(h, calls) && Honest(h, l)
    ensures Inv(RunFrom(h, l, calls).0) && Honest(RunFrom(h, l, calls).0, RunFrom(h, l, calls).1)
    decreases |calls|
  {
    if calls != [] {
      StepKeepsInv(h, calls[0]);
      StepKeepsHonest(h, l, calls[0]);
      var (h', p) := Step(h, calls[0]);
      RunIsHonest(h', Book(l, calls[0], p), calls[1..]);
    }
  }

  /** The range [p, p + n) lies in the heap and meets no block header and no other entry's range. */
  ghost predicate Exclusive(h: HeapState, l: Ledger, p: nat)
    requires p in l
  {
    && HEAP_START + HEADER <= p && p + l[p] <= h.brk
    && (forall q <- l :: q != p ==> p + l[p] <= q - HEADER || q + l[q] <= p - HEADER)
    && (forall b <- h.blocks :: p + l[p] <= b.addr || b.Payload() <= p)
  }

  /**
   The heap's safety over every run from heap_init: the chain tiles the heap exactly and is fully
   coalesced, what callers hold are exactly the live blocks, and their ranges are as long as
   requested, inside the heap, and disjoint from each other and from every header.
   */
  lemma EveryRunIsSafe(calls: seq<Call>)
    requires LegalRun(INITIAL, calls)
    ensures var (h, l) := RunFrom(INITIAL, map[], calls);
            && Inv(h) && HEAP_START + TotalSize(h.blocks) == h.brk
            && l.Keys == (set b <- Live(h.blocks) :: b.Payload())
            && forall p <- l :: Exclusive(h, l, p)
  {
    var (h, l) := RunFrom(INITIAL, map[], calls);
    assert Live(INITIAL.blocks) == {};
    RunIsHonest(INITIAL, map[], calls);
    SizesAddUp(h.blocks, HEAP_START, h.brk);
    forall p <- l ensures p in set b <- Live(h.blocks) :: b.Payload() {
      assert BlockAt(h, p) in Live(h.blocks);
    }
    forall p <- l ensures Exclusive(h, l, p) {
      HeldIsExclusive(h, l, p);
    }
  }

  lemma HeldIsExclusive(h: HeapState, l: Ledger, p: nat)
    requires Inv(h) && Honest(h, l) && p in l
    ensures Exclusive(h, l, p)
  {
    var i := IndexOf(h.blocks, p);
    assert h.blocks[i] in Live(h.blocks);
    TilesBounds(h.blocks, HEAP_START, h.brk, i);
    forall q <- l | q != p ensures p + l[p] <= q - HEADER || q + l[q] <= p - HEADER {
      var j := IndexOf(h.blocks, q);
      assert h.blocks[j] in Live(h.blocks);
      BlocksDisjoint(h.blocks, HEAP_START, h.brk, i, j);
    }
    forall b | b in h.blocks ensures p + l[p] <= b.addr || b.Payload() <= p {
      var j :| 0 <= j < |h.blocks| && h.blocks[j] == b;
      if j != i { BlocksDisjoint(h.blocks, HEAP_START, h.brk, i, j); }
    }
  }

  /** When the callers hold nothing any more, one free block spans the heap, whatever the run did. */
  lemma AllReturnedOneBlock(calls: seq<Call>)
    requires LegalRun(INITIAL, calls) && RunFrom(INITIAL, map[], calls).1 == map[]
    ensures var h := RunFrom(INITIAL, map[], calls).0;
            h.brk > HEAP_START + HEADER && h.blocks == [Block(HEAP_START, h.brk - HEAP_START - HEADER, true)]
  {
    var (h, l) := RunFrom(INITIAL, map[], calls);
    EveryRunIsSafe(calls);
    assert forall b <- Live(h.blocks) :: b.Payload() in l.Keys;
    NothingLiveOneBlock(h);
    assert h.blocks[0].size >= 8;
  }

  /** Runs that end with the same live blocks and the same extent end with the same free list. */
  lemma FreeListHasNoHistory(calls: seq<Call>, others: seq<Call>)
    requires LegalRun(INITIAL, calls) && LegalRun(INITIAL, others)
    requires var h, k := RunFrom(INITIAL, map[], calls).0, RunFrom(INITIAL, map[], others).0;
             h.brk == k.brk && Live(h.blocks) == Live(k.blocks)
    ensures RunFrom(INITIAL, map[], calls).0 == RunFrom(INITIAL, map[], others).0
  {
    EveryRunIsSafe(calls);
    EveryRunIsSafe(others);
    SameLiveSameHeap(RunFrom(INITIAL, map[], calls).0, RunFrom(INITIAL, map[], others).0);
  }
}
