/**
 The heap's memory seen as a whole: the headers in list order, and the payloads.  These views
 carry the facts that `HeapLinks` establishes block by block from one step to the next.
 */
module HeapView {
  import opened Bits
  import opened HeapBlocks
  import opened HeapLaws
  import opened HeapMemory
  import opened HeapLinks

  const NO_HEADER := Header(0, 0, 0, 0, 0)

  ghost function HeaderOf(m: seq<byte>, b: Block): Header {
    if Inside(m, b.addr, HEADER) then HeaderAt(m, b.addr) else NO_HEADER
  }

  ghost function PayloadOf(m: seq<byte>, b: Block): seq<byte> {
    if Inside(m, b.Payload(), b.size) then Slice(m, b.Payload(), b.End()) else []
  }

  /** The headers the memory holds for bs. */
  ghost function Headers(m: seq<byte>, bs: seq<Block>): seq<Header> {
    seq(|bs|, k requires 0 <= k < |bs| => HeaderOf(m, bs[k]))
  }

  ghost function ExpectedHeaders(bs: seq<Block>): seq<Header>
    requires Within(bs, WORD_LIMIT - 1)
  {
    AllWithin(bs, WORD_LIMIT - 1);
    seq(|bs|, k requires 0 <= k < |bs| => Expected(bs, k))
  }

  /** The payload bytes of each block of bs. */
  ghost function Payloads(m: seq<byte>, bs: seq<Block>): seq<seq<byte>> {
    seq(|bs|, k requires 0 <= k < |bs| => PayloadOf(m, bs[k]))
  }

  /** The payload bytes of each live block of bs. */
  ghost function LivePayloads(m: seq<byte>, bs: seq<Block>): seq<seq<byte>> {
    seq(|bs|, k requires 0 <= k < |bs| => if bs[k].free then [] else PayloadOf(m, bs[k]))
  }

  /** Every block of bs lies in [HEAP_START, limit]. */
  ghost predicate Within(bs: seq<Block>, limit: nat) {
    bs == [] || (HEAP_START <= bs[0].addr && bs[0].End() <= limit && Within(bs[1..], limit))
  }

  lemma {:induction false} AllWithin(bs: seq<Block>, limit: nat)
    ensures Within(bs, limit) <==> forall k :: 0 <= k < |bs| ==> HEAP_START <= bs[k].addr && bs[k].End() <= limit
  {
    if bs != [] {
      AllWithin(bs[1..], limit);
      var t := bs[1..];
      assert forall k :: 1 <= k < |bs| ==> bs[k] == t[k - 1];
      assert forall k :: 0 <= k < |t| ==> t[k] == bs[k + 1];
    }
  }

  /** m holds exactly the headers of bs, linked in list order in both directions. */
  ghost predicate Linked(m: seq<byte>, bs: seq<Block>) {
    Within(bs, WORD_LIMIT - 1) && Within(bs, HEAP_START + |m|) && Headers(m, bs) == ExpectedHeaders(bs)
  }

  lemma LinkedMeans(m: seq<byte>, bs: seq<Block>)
    ensures Linked(m, bs) <==> LinkedAll(m, bs)
    ensures Linked(m, bs) ==> Fitting(m, bs)
  {
    AllWithin(bs, WORD_LIMIT - 1);
    AllWithin(bs, HEAP_START + |m|);
    hide HeaderAt, Within;
    if Linked(m, bs) {
      forall k | 0 <= k < |bs| ensures HeaderAt(m, bs[k].addr) == Expected(bs, k) {
        assert Headers(m, bs)[k] == ExpectedHeaders(bs)[k];
      }
    }
    if LinkedAll(m, bs) {
      var x, y := Headers(m, bs), ExpectedHeaders(bs);
      assert forall k :: 0 <= k < |bs| ==> x[k] == y[k];
    }
  }

  lemma PayloadsMean(m: seq<byte>, r: seq<byte>, bs: seq<Block>)
    requires Fitting(m, bs) && |m| <= |r|
    ensures Payloads(m, bs) == Payloads(r, bs) <==> KeepsPayloads(m, r, bs)
    ensures LivePayloads(m, bs) == LivePayloads(r, bs) <==> KeepsLive(m, r, bs)
  {
    hide Slice;
    var x, y, u, v := Payloads(m, bs), Payloads(r, bs), LivePayloads(m, bs), LivePayloads(r, bs);
    forall k | 0 <= k < |bs|
      ensures x[k] == y[k] <==> SameBytes(m, r, bs[k].Payload(), bs[k].End())
      ensures u[k] == v[k] <==> (bs[k].free || SameBytes(m, r, bs[k].Payload(), bs[k].End()))
    {
    }
  }

  // ---- reading

  /** The fields of block i's header, as the list says them. */
  lemma ReadHeader(m: seq<byte>, bs: seq<Block>, i: nat)
    requires Linked(m, bs) && i < |bs|
    ensures Inside(m, bs[i].addr, HEADER)
    ensures Get(m, bs[i].addr, MAGIC) == HEAP_MAGIC && Get(m, bs[i].addr, SIZE) == bs[i].size
    ensures Get(m, bs[i].addr, FREE) != 0 <==> bs[i].free
    ensures Get(m, bs[i].addr, NEXT) == (if i + 1 < |bs| then bs[i + 1].addr else 0)
    ensures Get(m, bs[i].addr, PREV) == (if i > 0 then bs[i - 1].addr else 0)
    ensures Get(m, bs[i].addr, NEXT) == 0 <==> i + 1 == |bs|
    ensures Get(m, bs[i].addr, PREV) == 0 <==> i == 0
  {
    hide Get, HeaderAt;
    LinkedMeans(m, bs);
    BlockHeader(m, bs, i);
  }

  /** In front of a live pointer there is a header with the magic number and the block's size. */
  lemma ReadLive(m: seq<byte>, bs: seq<Block>, ptr: nat)
    requires Linked(m, bs) && IsLive(bs, ptr)
    ensures ptr >= HEADER && Inside(m, ptr - HEADER, HEADER) && bs[IndexOf(bs, ptr)].addr == ptr - HEADER
    ensures Get(m, ptr - HEADER, MAGIC) == HEAP_MAGIC && Get(m, ptr - HEADER, SIZE) == bs[IndexOf(bs, ptr)].size
  {
    hide Get, HeaderAt, IndexOf;
    ReadHeader(m, bs, IndexOf(bs, ptr));
  }

  // ---- the steps

  lemma SwallowView(m: seq<byte>, bs: seq<Block>, hi: nat, i: nat)
    requires Linked(m, bs) && Tiles(bs, HEAP_START, hi) && i + 1 < |bs|
    ensures CanSwallow(m, bs[i].addr, bs[i + 1].addr)
    ensures var r := Swallowed(m, bs[i].addr, bs[i + 1].addr);
      |r| == |m| && Linked(r, Join(bs, i)) && Payloads(r, bs) == Payloads(m, bs)
  {
    LinkedMeans(m, bs);
    hide Linked, Swallowed, Join, Tiles, HeaderAt;
    SwallowLinks(m, bs, HEAP_START, hi, i);
    var r := Swallowed(m, bs[i].addr, bs[i + 1].addr);
    LinkedMeans(r, Join(bs, i));
    PayloadsMean(m, r, bs);
  }

  lemma PlaceView(m: seq<byte>, bs: seq<Block>, hi: nat, i: nat, n: word)
    requires Linked(m, bs) && Tiles(bs, HEAP_START, hi) && i < |bs| && Fits(bs[i], n)
    ensures CanPlace(m, bs[i].addr, n)
    ensures var r := Placed(m, bs[i].addr, n);
      |r| == |m| && Linked(r, Carve(bs, i, n)) && LivePayloads(r, bs) == LivePayloads(m, bs)
  {
    LinkedMeans(m, bs);
    hide Linked, Placed, Carve, Tiles, HeaderAt;
    PlaceLinks(m, bs, HEAP_START, hi, i, n);
    var r := Placed(m, bs[i].addr, n);
    LinkedMeans(r, Carve(bs, i, n));
    PayloadsMean(m, r, bs);
  }

  lemma FreeMarkView(m: seq<byte>, bs: seq<Block>, hi: nat, i: nat)
    requires Linked(m, bs) && Tiles(bs, HEAP_START, hi) && GoodSizes(bs) && i < |bs|
    ensures Inside(m, bs[i].addr, HEADER)
    ensures var r, cs := SetField(m, bs[i].addr, FREE, 1), bs[i := bs[i].(free := true)];
      Linked(r, cs) && Tiles(cs, HEAP_START, hi) && GoodSizes(cs) && Payloads(r, bs) == Payloads(m, bs)
  {
    LinkedMeans(m, bs);
    hide Linked, SetField, Tiles, HeaderAt, GoodSizes;
    FreeMarkLinks(m, bs, HEAP_START, hi, i);
    var r, cs := SetField(m, bs[i].addr, FREE, 1), bs[i := bs[i].(free := true)];
    LinkedMeans(r, cs);
    PayloadsMean(m, r, bs);
  }

  /** Memory added behind changes nothing in front. */
  lemma GrownView(m: seq<byte>, g: seq<byte>, bs: seq<Block>)
    requires Linked(m, bs) && m <= g
    ensures Linked(g, bs) && Payloads(g, bs) == Payloads(m, bs)
  {
    LinkedMeans(m, bs);
    GrownKeeps(m, g, bs);
    LinkedMeans(g, bs);
    PayloadsMean(m, g, bs);
  }

  lemma AppendedView(m: seq<byte>, bs: seq<Block>, hi: nat, b: Block)
    requires bs != [] && Linked(m, bs) && Tiles(bs, HEAP_START, hi) && b.addr == hi && b.free && b.End() < WORD_LIMIT
    requires HEAP_START <= b.addr && b.End() <= HEAP_START + |m|
    ensures var last := bs[|bs| - 1].addr;
      Inside(m, last, HEADER) && last < WORD_LIMIT && b.addr < WORD_LIMIT && b.size < WORD_LIMIT
      && Linked(Appended(m, last, b.addr, b.size), bs + [b])
      && Payloads(Appended(m, last, b.addr, b.size), bs) == Payloads(m, bs)
  {
    LinkedMeans(m, bs);
    hide Linked, Appended, Tiles, HeaderAt;
    AppendedLinks(m, bs, HEAP_START, hi, b);
    var r := Appended(m, bs[|bs| - 1].addr, b.addr, b.size);
    LinkedMeans(r, bs + [b]);
    PayloadsMean(m, r, bs);
  }

  // ---- payloads from one list to another

  lemma LiveAmongAll(m: seq<byte>, r: seq<byte>, bs: seq<Block>)
    requires Payloads(r, bs) == Payloads(m, bs)
    ensures LivePayloads(r, bs) == LivePayloads(m, bs)
  {
    forall k | 0 <= k < |bs| ensures PayloadOf(r, bs[k]) == PayloadOf(m, bs[k]) {
      assert Payloads(r, bs)[k] == Payloads(m, bs)[k];
    }
  }

  /** The payloads of bs do not depend on which of its blocks are marked free. */
  lemma MarkedPayloads(m: seq<byte>, r: seq<byte>, bs: seq<Block>, i: nat)
    requires i < |bs| && Payloads(r, bs[i := bs[i].(free := true)]) == Payloads(m, bs[i := bs[i].(free := true)])
    ensures Payloads(r, bs) == Payloads(m, bs)
  {
    var b1 := bs[i := bs[i].(free := true)];
    forall k | 0 <= k < |bs| ensures Payloads(r, bs)[k] == Payloads(m, bs)[k] {
      assert Payloads(r, b1)[k] == Payloads(m, b1)[k];
    }
  }

  lemma PrefixPayloads(m: seq<byte>, r: seq<byte>, bs: seq<Block>, b: Block)
    requires Payloads(r, bs + [b]) == Payloads(m, bs + [b])
    ensures Payloads(r, bs) == Payloads(m, bs)
  {
    forall k | 0 <= k < |bs| ensures Payloads(r, bs)[k] == Payloads(m, bs)[k] {
      assert Payloads(r, bs + [b])[k] == Payloads(m, bs + [b])[k];
    }
  }

  /** Blocks that stay live through a release keep their bytes if all blocks did. */
  lemma ReleasedPayloads(m: seq<byte>, r: seq<byte>, bs: seq<Block>, hi: nat, i: nat)
    requires Span(bs, HEAP_START, hi) && i < |bs| && !bs[i].free && Payloads(r, bs) == Payloads(m, bs)
    ensures LivePayloads(r, Release(bs, i)) == LivePayloads(m, Release(bs, i))
  {
    var cs := Release(bs, i);
    ReleaseLive(bs, HEAP_START, hi, i);
    hide Release;
    forall k | 0 <= k < |cs| ensures LivePayloads(r, cs)[k] == LivePayloads(m, cs)[k] {
      if !cs[k].free {
        assert cs[k] in Live(cs) && cs[k] in Live(bs);
        var j :| 0 <= j < |bs| && bs[j] == cs[k];
        assert Payloads(r, bs)[j] == Payloads(m, bs)[j];
      }
    }
  }

  lemma LiveEach(m: seq<byte>, r: seq<byte>, bs: seq<Block>)
    ensures LivePayloads(r, bs) == LivePayloads(m, bs) <==> forall b <- Live(bs) :: PayloadOf(r, b) == PayloadOf(m, b)
  {
    var x, y := LivePayloads(r, bs), LivePayloads(m, bs);
    if x == y {
      forall b | b in Live(bs) ensures PayloadOf(r, b) == PayloadOf(m, b) {
        var k :| 0 <= k < |bs| && bs[k] == b;
        assert x[k] == y[k];
      }
    }
    if forall b <- Live(bs) :: PayloadOf(r, b) == PayloadOf(m, b) {
      forall k | 0 <= k < |bs| ensures x[k] == y[k] {
        if !bs[k].free { assert bs[k] in Live(bs); }
      }
    }
  }

  // ---- the byte copy of `krealloc`

  /** m with the n bytes at `from` copied to `to`. */
  ghost function Copied(m: seq<byte>, from: nat, to: nat, n: nat): (r: seq<byte>)
    ensures |r| == |m|
  {
    if Inside(m, from, n) && Inside(m, to, n) then
      m[..to - HEAP_START] + Slice(m, from, from + n) + m[to + n - HEAP_START..]
    else m
  }

  /** `d[i] = s[i]` */
  function CopyByte(m: seq<byte>, from: nat, to: nat): (r: seq<byte>)
    requires Inside(m, from, 1) && Inside(m, to, 1)
    ensures |r| == |m|
  {
    StoreByte(m, to, At(m, from))
  }

  predicate Apart(from: nat, to: nat, n: nat) { from + n <= to || to + n <= from }

  lemma CopyNone(m: seq<byte>, from: nat, to: nat)
    ensures Copied(m, from, to, 0) == m
  {
  }

  /** One turn of the copy loop copies one byte more. */
  lemma CopyStep(m: seq<byte>, from: nat, to: nat, n: nat)
    requires Inside(m, from, n + 1) && Inside(m, to, n + 1) && Apart(from, to, n + 1)
    ensures CopyByte(Copied(m, from, to, n), from + n, to + n) == Copied(m, from, to, n + 1)
  {
    var r, q := Copied(m, from, to, n), Copied(m, from, to, n + 1);
    assert r[to + n - HEAP_START := r[from + n - HEAP_START]] == q;
  }

  lemma CopyOutside(m: seq<byte>, from: nat, to: nat, n: nat)
    requires Inside(m, from, n) && Inside(m, to, n)
    ensures var r := Copied(m, from, to, n);
      SameOutside(m, r, to, n) && Slice(r, to, to + n) == Slice(m, from, from + n)
  {
    var r := Copied(m, from, to, n);
    assert r[..to - HEAP_START] == m[..to - HEAP_START] && r[to + n - HEAP_START..] == m[to + n - HEAP_START..];
    assert r[to - HEAP_START..to + n - HEAP_START] == Slice(m, from, from + n);
    assert m[0..to - HEAP_START] == m[..to - HEAP_START] && r[0..to - HEAP_START] == r[..to - HEAP_START];
    assert m[to + n - HEAP_START..|m|] == m[to + n - HEAP_START..]
      && r[to + n - HEAP_START..|m|] == r[to + n - HEAP_START..];
  }

  /** What lies outside block j's payload is as before a change inside it. */
  lemma InnerChangeKeeps(m: seq<byte>, r: seq<byte>, bs: seq<Block>, hi: nat, j: nat, off: nat, n: nat, k: nat)
    requires Fitting(m, bs) && Tiles(bs, HEAP_START, hi) && j < |bs| && k < |bs| && off + n <= bs[j].size
    requires SameOutside(m, r, bs[j].Payload() + off, n)
    ensures HeaderAt(r, bs[k].addr) == HeaderAt(m, bs[k].addr)
    ensures k != j ==> PayloadOf(r, bs[k]) == PayloadOf(m, bs[k])
  {
    hide HeaderAt, Slice;
    var at := bs[j].Payload() + off;
    if k != j { BlocksDisjoint(bs, HEAP_START, hi, k, j); }
    OutsideSame(m, r, at, n, bs[k].addr, bs[k].addr + HEADER);
    HeaderElsewhere(m, r, bs[k].addr);
    if k != j { OutsideSame(m, r, at, n, bs[k].Payload(), bs[k].End()); }
  }

  /** A change inside block j's payload leaves every header and every other block alone. */
  lemma InnerChangeView(m: seq<byte>, r: seq<byte>, bs: seq<Block>, hi: nat, j: nat, off: nat, n: nat)
    requires Linked(m, bs) && Tiles(bs, HEAP_START, hi) && j < |bs| && off + n <= bs[j].size
    requires SameOutside(m, r, bs[j].Payload() + off, n)
    ensures Linked(r, bs) && forall k :: 0 <= k < |bs| && k != j ==> PayloadOf(r, bs[k]) == PayloadOf(m, bs[k])
  {
    LinkedMeans(m, bs);
    hide Linked, HeaderAt, Tiles, PayloadOf, SameBytes;
    forall k: nat | k < |bs|
      ensures HeaderAt(r, bs[k].addr) == HeaderAt(m, bs[k].addr)
        && (k != j ==> PayloadOf(r, bs[k]) == PayloadOf(m, bs[k]))
    {
      InnerChangeKeeps(m, r, bs, hi, j, off, n, k);
    }
    LinkedMeans(r, bs);
  }

  /** Two blocks of the heap, the second at least as large: where their payloads lie. */
  lemma CopyReach(m: seq<byte>, bs: seq<Block>, hi: nat, i: nat, j: nat)
    requires Linked(m, bs) && Tiles(bs, HEAP_START, hi) && i < |bs| && j < |bs| && i != j && bs[i].size <= bs[j].size
    ensures Inside(m, bs[i].addr, HEADER) && Inside(m, bs[i].Payload(), bs[i].size)
      && Inside(m, bs[j].Payload(), bs[i].size)
    ensures Apart(bs[i].Payload(), bs[j].Payload(), bs[i].size)
  {
    LinkedMeans(m, bs);
    BlocksDisjoint(bs, HEAP_START, hi, i, j);
  }

  /** Copying block i's bytes into block j leaves every header and every other block alone. */
  lemma CopyView(m: seq<byte>, bs: seq<Block>, hi: nat, i: nat, j: nat, n: nat)
    requires Linked(m, bs) && Tiles(bs, HEAP_START, hi) && i < |bs| && j < |bs| && n <= bs[j].size
    requires Inside(m, bs[i].Payload(), n)
    ensures Linked(Copied(m, bs[i].Payload(), bs[j].Payload(), n), bs)
    ensures forall k :: 0 <= k < |bs| && k != j ==>
      PayloadOf(Copied(m, bs[i].Payload(), bs[j].Payload(), n), bs[k]) == PayloadOf(m, bs[k])
  {
    LinkedMeans(m, bs);
    CopyOutside(m, bs[i].Payload(), bs[j].Payload(), n);
    hide Linked, Copied, Tiles, PayloadOf;
    InnerChangeView(m, Copied(m, bs[i].Payload(), bs[j].Payload(), n), bs, hi, j, 0, n);
  }

  /** While bytes are copied, the size the loop runs up to is still the old block's. */
  lemma CopySize(m: seq<byte>, bs: seq<Block>, hi: nat, i: nat, j: nat, k: nat)
    requires Linked(m, bs) && Tiles(bs, HEAP_START, hi) && i < |bs| && j < |bs| && i != j
      && k <= bs[i].size <= bs[j].size
    ensures Inside(m, bs[i].addr, HEADER)
    ensures Get(Copied(m, bs[i].Payload(), bs[j].Payload(), k), bs[i].addr, SIZE) == bs[i].size
  {
    CopyReach(m, bs, hi, i, j);
    hide Linked, Get, Tiles, PayloadOf, Copied, LoadWord, HeaderAt, StoreByte;
    CopyView(m, bs, hi, i, j, k);
    ReadHeader(Copied(m, bs[i].Payload(), bs[j].Payload(), k), bs, i);
  }

  lemma CopySizes(m: seq<byte>, bs: seq<Block>, hi: nat, i: nat, j: nat)
    requires Linked(m, bs) && Tiles(bs, HEAP_START, hi) && i < |bs| && j < |bs| && i != j && bs[i].size <= bs[j].size
    ensures Inside(m, bs[i].addr, HEADER) && Inside(m, bs[i].Payload(), bs[i].size)
      && Inside(m, bs[j].Payload(), bs[i].size)
    ensures Apart(bs[i].Payload(), bs[j].Payload(), bs[i].size)
    ensures forall k: nat :: k <= bs[i].size ==>
      Get(Copied(m, bs[i].Payload(), bs[j].Payload(), k), bs[i].addr, SIZE) == bs[i].size
  {
    CopyReach(m, bs, hi, i, j);
    hide Linked, Tiles, Copied, Get;
    forall k: nat | k <= bs[i].size
      ensures Get(Copied(m, bs[i].Payload(), bs[j].Payload(), k), bs[i].addr, SIZE) == bs[i].size
    {
      CopySize(m, bs, hi, i, j, k);
    }
  }
}
