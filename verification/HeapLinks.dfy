/**
 Which header updates turn the linked headers of one block list into those of another.
 */
module HeapLinks {
  import opened Bits
  import opened HeapBlocks
  import opened HeapLaws
  import opened HeapMemory

  /** All payload bytes of bs are the same in m and r. */
  ghost predicate KeepsPayloads(m: seq<byte>, r: seq<byte>, bs: seq<Block>)
    requires Fitting(m, bs) && |m| <= |r|
  {
    forall k :: 0 <= k < |bs| ==> SameBytes(m, r, bs[k].Payload(), bs[k].End())
  }

  /** The payload bytes of the live blocks of bs are the same in m and r. */
  ghost predicate KeepsLive(m: seq<byte>, r: seq<byte>, bs: seq<Block>)
    requires Fitting(m, bs) && |m| <= |r|
  {
    forall k :: 0 <= k < |bs| && !bs[k].free ==> SameBytes(m, r, bs[k].Payload(), bs[k].End())
  }

  /** Storing a header of block i touches no other header and no payload. */
  lemma StoreKeeps(m: seq<byte>, r: seq<byte>, bs: seq<Block>, lo: nat, hi: nat, i: nat)
    requires Fitting(m, bs) && Tiles(bs, lo, hi) && i < |bs| && SameOutside(m, r, bs[i].addr, HEADER)
    ensures OthersKept(m, r, bs, i, i + 1) && KeepsPayloads(m, r, bs) && KeepsLive(m, r, bs)
  {
    assert |r| == |m|;
    hide HeaderAt, SameBytes, SameOutside;
    HeadersApart(bs, lo, hi);
    forall k | 0 <= k < |bs| && k != i ensures HeaderAt(r, bs[k].addr) == HeaderAt(m, bs[k].addr) {
      OutsideSame(m, r, bs[i].addr, HEADER, bs[k].addr, bs[k].addr + HEADER);
      HeaderElsewhere(m, r, bs[k].addr);
    }
    forall k | 0 <= k < |bs| ensures SameBytes(m, r, bs[k].Payload(), bs[k].End()) {
      OutsideSame(m, r, bs[i].addr, HEADER, bs[k].Payload(), bs[k].End());
    }
  }

  lemma KeepsTwice(m: seq<byte>, n: seq<byte>, r: seq<byte>, bs: seq<Block>)
    requires Fitting(m, bs) && |m| == |n| == |r| && KeepsPayloads(m, n, bs) && KeepsPayloads(n, r, bs)
    ensures KeepsPayloads(m, r, bs)
  {
  }

  lemma KeepsLiveTwice(m: seq<byte>, n: seq<byte>, r: seq<byte>, bs: seq<Block>)
    requires Fitting(m, bs) && |m| == |n| == |r| && KeepsLive(m, n, bs) && KeepsLive(n, r, bs)
    ensures KeepsLive(m, r, bs)
  {
  }

  /** Two stores into the same header amount to one. */
  lemma OutsideTwice(m: seq<byte>, n: seq<byte>, r: seq<byte>, a: nat)
    requires SameOutside(m, n, a, HEADER) && SameOutside(n, r, a, HEADER)
    ensures SameOutside(m, r, a, HEADER)
  {
  }

  /** A header stored inside the payload of a free block disturbs no header and no live payload. */
  lemma StoreInsideFree(m: seq<byte>, r: seq<byte>, bs: seq<Block>, lo: nat, hi: nat, i: nat, s: nat)
    requires Fitting(m, bs) && Tiles(bs, lo, hi) && i < |bs| && bs[i].free
    requires bs[i].Payload() <= s && s + HEADER <= bs[i].End() && SameOutside(m, r, s, HEADER)
    ensures OthersKept(m, r, bs, 0, 0) && KeepsLive(m, r, bs)
  {
    assert |r| == |m|;
    hide HeaderAt, SameBytes, SameOutside;
    HeadersApart(bs, lo, hi);
    forall k | 0 <= k < |bs| ensures HeaderAt(r, bs[k].addr) == HeaderAt(m, bs[k].addr) {
      OutsideSame(m, r, s, HEADER, bs[k].addr, bs[k].addr + HEADER);
      HeaderElsewhere(m, r, bs[k].addr);
    }
    forall k | 0 <= k < |bs| && !bs[k].free ensures SameBytes(m, r, bs[k].Payload(), bs[k].End()) {
      OutsideSame(m, r, s, HEADER, bs[k].Payload(), bs[k].End());
    }
  }

  /** Two different blocks of a tiling have non-overlapping headers. */
  lemma HeadersApart(bs: seq<Block>, lo: nat, hi: nat)
    requires Tiles(bs, lo, hi)
    ensures forall i, j :: 0 <= i < j < |bs| ==> bs[i].End() <= bs[j].addr
  {
    forall i, j | 0 <= i < j < |bs| ensures bs[i].End() <= bs[j].addr { TilesOrdered(bs, lo, hi, i, j); }
  }

  /** The headers of bs at the indices other than the given ones. */
  ghost predicate OthersKept(m: seq<byte>, r: seq<byte>, bs: seq<Block>, lo: nat, hi: nat)
    requires Fitting(m, bs) && |r| == |m|
  {
    forall k :: 0 <= k < |bs| && !(lo <= k < hi) ==> HeaderAt(r, bs[k].addr) == HeaderAt(m, bs[k].addr)
  }

  /** The header of block i when it has taken over its successor. */
  ghost function WidenedHeader(bs: seq<Block>, i: nat): Header
    requires Addressable(bs) && i + 1 < |bs| && bs[i].size + HEADER + bs[i + 1].size < WORD_LIMIT
  {
    Expected(bs, i).(size := bs[i].size + HEADER + bs[i + 1].size, next := Expected(bs, i + 1).next)
  }

  lemma JoinLinks(m: seq<byte>, r: seq<byte>, bs: seq<Block>, lo: nat, hi: nat, i: nat)
    requires LinkedAll(m, bs) && Tiles(bs, lo, hi) && i + 1 < |bs| && |r| == |m| && OthersKept(m, r, bs, i, i + 3)
    requires bs[i].size + HEADER + bs[i + 1].size < WORD_LIMIT
    requires HeaderAt(r, bs[i].addr) == WidenedHeader(bs, i)
    requires i + 2 < |bs| ==> HeaderAt(r, bs[i + 2].addr) == Expected(bs, i + 2).(prev := bs[i].addr)
    ensures LinkedAll(r, Join(bs, i))
  {
    JoinFits(r, bs, lo, hi, i);
    hide HeaderAt, Join, Tiles, OthersKept, Expected;
    var cs := Join(bs, i);
    forall k | 0 <= k < |cs| ensures HeaderAt(r, cs[k].addr) == Expected(cs, k) {
      JoinAt(bs, i, k);
      ExpectedJoined(bs, i, k);
      JoinedHeader(m, r, bs, i, k);
    }
  }

  lemma ExpectedJoined(bs: seq<Block>, i: nat, k: nat)
    requires Addressable(bs) && i + 1 < |bs| && k < |bs| - 1 && bs[i].size + HEADER + bs[i + 1].size < WORD_LIMIT
    requires Addressable(Join(bs, i))
    ensures var o := if k <= i then k else k + 1;
      |Join(bs, i)| == |bs| - 1 &&
      Expected(Join(bs, i), k) ==
        if k == i then WidenedHeader(bs, i)
        else if k == i + 1 then Expected(bs, o).(prev := bs[i].addr)
        else Expected(bs, o)
  {
    hide Join;
    JoinAt(bs, i, k);
    if k > 0 { JoinAt(bs, i, k - 1); }
    if k + 1 < |bs| - 1 { JoinAt(bs, i, k + 1); }
  }

  /** The header of block k of the joined list, read off the old list. */
  lemma JoinedHeader(m: seq<byte>, r: seq<byte>, bs: seq<Block>, i: nat, k: nat)
    requires LinkedAll(m, bs) && i + 1 < |bs| && |r| == |m| && OthersKept(m, r, bs, i, i + 3) && k < |bs| - 1
    requires bs[i].size + HEADER + bs[i + 1].size < WORD_LIMIT
    requires HeaderAt(r, bs[i].addr) == WidenedHeader(bs, i)
    requires i + 2 < |bs| ==> HeaderAt(r, bs[i + 2].addr) == Expected(bs, i + 2).(prev := bs[i].addr)
    ensures var o := if k <= i then k else k + 1;
      HeaderAt(r, bs[o].addr) ==
        if k == i then WidenedHeader(bs, i)
        else if k == i + 1 then Expected(bs, o).(prev := bs[i].addr)
        else Expected(bs, o)
  {
    hide HeaderAt;
    var o := if k <= i then k else k + 1;
    assert HeaderAt(m, bs[o].addr) == Expected(bs, o);
  }

  lemma JoinFits(m: seq<byte>, bs: seq<Block>, lo: nat, hi: nat, i: nat)
    requires Fitting(m, bs) && Tiles(bs, lo, hi) && i + 1 < |bs|
    ensures Fitting(m, Join(bs, i)) && |Join(bs, i)| == |bs| - 1
  {
    TilesOrdered(bs, lo, hi, i, i + 1);
    hide Join, Tiles;
    JoinAt(bs, i, 0);
    var cs := Join(bs, i);
    forall k | 0 <= k < |cs|
      ensures HEAP_START <= cs[k].addr && cs[k].End() <= HEAP_START + |m| && cs[k].End() < WORD_LIMIT
    {
      JoinAt(bs, i, k);
    }
  }

  /** Marking block i as live or free only touches its free field. */
  lemma MarkLinks(m: seq<byte>, r: seq<byte>, bs: seq<Block>, i: nat, free: bool)
    requires LinkedAll(m, bs) && i < |bs| && |r| == |m| && OthersKept(m, r, bs, i, i + 1)
    requires HeaderAt(r, bs[i].addr) == HeaderAt(m, bs[i].addr).(free := if free then 1 else 0)
    ensures LinkedAll(r, bs[i := bs[i].(free := free)])
  {
    hide HeaderAt;
    var cs := bs[i := bs[i].(free := free)];
    assert Fitting(r, cs);
    forall k | 0 <= k < |cs| ensures HeaderAt(r, cs[k].addr) == Expected(cs, k) {
      assert cs[k].addr == bs[k].addr;
    }
  }

  lemma CarveFits(m: seq<byte>, bs: seq<Block>, i: nat, n: nat)
    requires Fitting(m, bs) && i < |bs| && Fits(bs[i], n) && bs[i].size >= n + HEADER + 8
    ensures Fitting(m, Carve(bs, i, n)) && |Carve(bs, i, n)| == |bs| + 1
  {
    hide Carve;
    CarveAt(bs, i, n, 0);
    var cs := Carve(bs, i, n);
    forall k | 0 <= k < |cs|
      ensures HEAP_START <= cs[k].addr && cs[k].End() <= HEAP_START + |m| && cs[k].End() < WORD_LIMIT
    {
      CarveAt(bs, i, n, k);
    }
  }

  /** The headers after block b was put behind the last one. */
  lemma AppendLinks(m: seq<byte>, r: seq<byte>, bs: seq<Block>, b: Block)
    requires bs != [] && LinkedAll(m, bs) && |r| >= |m| && b.free && b.End() < WORD_LIMIT
    requires HEAP_START <= b.addr && b.End() <= HEAP_START + |r|
    requires forall k :: 0 <= k < |bs| - 1 ==> HeaderAt(r, bs[k].addr) == HeaderAt(m, bs[k].addr)
    requires HeaderAt(r, bs[|bs| - 1].addr) == HeaderAt(m, bs[|bs| - 1].addr).(next := b.addr)
    requires HeaderAt(r, b.addr) == Header(HEAP_MAGIC, b.size, 1, 0, bs[|bs| - 1].addr)
    ensures LinkedAll(r, bs + [b])
  {
    hide HeaderAt;
    var cs, n := bs + [b], |bs|;
    assert Fitting(r, cs);
    forall k | 0 <= k < |cs| ensures HeaderAt(r, cs[k].addr) == Expected(cs, k) {
      if k == n { assert cs[n] == b && cs[n - 1] == bs[n - 1]; }
      else if k == n - 1 { assert cs[k] == bs[k] && cs[n] == b; }
      else { assert cs[k] == bs[k] && cs[k + 1] == bs[k + 1]; }
      if 0 < k < n { assert cs[k - 1] == bs[k - 1]; }
    }
  }

  /** The fields of block i's header, as the list says them. */
  lemma BlockHeader(m: seq<byte>, bs: seq<Block>, i: nat)
    requires LinkedAll(m, bs) && i < |bs|
    ensures Inside(m, bs[i].addr, HEADER) && HeaderAt(m, bs[i].addr) == Expected(bs, i)
    ensures Get(m, bs[i].addr, MAGIC) == HEAP_MAGIC && Get(m, bs[i].addr, SIZE) == bs[i].size
    ensures Get(m, bs[i].addr, FREE) != 0 <==> bs[i].free
    ensures Get(m, bs[i].addr, NEXT) == (if i + 1 < |bs| then bs[i + 1].addr else 0)
    ensures Get(m, bs[i].addr, PREV) == (if i > 0 then bs[i - 1].addr else 0)
  {
    hide HeaderAt, LoadWord;
  }

  lemma MarkKeepsTiling(bs: seq<Block>, lo: nat, hi: nat, i: nat, free: bool)
    requires Tiles(bs, lo, hi) && GoodSizes(bs) && i < |bs|
    ensures Tiles(bs[i := bs[i].(free := free)], lo, hi) && GoodSizes(bs[i := bs[i].(free := free)])
  {
    var cs := bs[i := bs[i].(free := free)];
    assert cs == bs[..i] + [cs[i]] + bs[i + 1..];
    TilesSplice(bs, lo, hi, i, i + 1, [cs[i]]);
  }

  // ---- one block swallows the next

  predicate CanSwallow(m: seq<byte>, prev: nat, b: nat) {
    && Inside(m, prev, HEADER) && Inside(m, b, HEADER)
    && Get(m, prev, SIZE) + HEADER + Get(m, b, SIZE) < WORD_LIMIT && prev < WORD_LIMIT
    && (Get(m, b, NEXT) != 0 ==> Inside(m, Get(m, b, NEXT), HEADER))
  }

  /** `prev->size += sizeof(header) + b->size`, unlink b. */
  function Swallowed(m: seq<byte>, prev: nat, b: nat): seq<byte>
    requires CanSwallow(m, prev, b)
  {
    var next := Get(m, b, NEXT);
    var m1 := SetField(m, prev, SIZE, Get(m, prev, SIZE) + HEADER + Get(m, b, SIZE));
    var m2 := SetField(m1, prev, NEXT, next);
    if next != 0 then SetField(m2, next, PREV, prev) else m2
  }

  lemma SwallowLinks(m: seq<byte>, bs: seq<Block>, lo: nat, hi: nat, i: nat)
    requires LinkedAll(m, bs) && Tiles(bs, lo, hi) && i + 1 < |bs|
    ensures CanSwallow(m, bs[i].addr, bs[i + 1].addr)
    ensures var r := Swallowed(m, bs[i].addr, bs[i + 1].addr);
      |r| == |m| && LinkedAll(r, Join(bs, i)) && KeepsPayloads(m, r, bs)
  {
    SwallowReads(m, bs, lo, hi, i);
    var p, next := bs[i].addr, Expected(bs, i + 1).next;
    hide HeaderAt, LoadWord, SetField, SameBytes, Get, Join, Tiles, KeepsPayloads, Swallowed, CanSwallow;
    SwallowedIs(m, p, bs[i + 1].addr, bs[i].size + HEADER + bs[i + 1].size, next);
    SwallowFront(m, bs, lo, hi, i);
    var r := FrontStored(m, bs, i);
    if i + 2 < |bs| {
      SwallowBack(m, r, bs, lo, hi, i);
      r := SetField(r, bs[i + 2].addr, PREV, p);
    }
    JoinLinks(m, r, bs, lo, hi, i);
  }

  /** The header of block i once the joined size and the next link are stored. */
  ghost function FrontStored(m: seq<byte>, bs: seq<Block>, i: nat): (r: seq<byte>)
    requires LinkedAll(m, bs) && i + 1 < |bs| && bs[i].size + HEADER + bs[i + 1].size < WORD_LIMIT
    ensures |r| == |m|
  {
    SetField(SetField(m, bs[i].addr, SIZE, bs[i].size + HEADER + bs[i + 1].size), bs[i].addr, NEXT,
      Expected(bs, i + 1).next)
  }

  /** What `coalesce` reads. */
  lemma SwallowReads(m: seq<byte>, bs: seq<Block>, lo: nat, hi: nat, i: nat)
    requires LinkedAll(m, bs) && Tiles(bs, lo, hi) && i + 1 < |bs|
    ensures CanSwallow(m, bs[i].addr, bs[i + 1].addr) && bs[i].size + HEADER + bs[i + 1].size < WORD_LIMIT
    ensures Get(m, bs[i].addr, SIZE) == bs[i].size && Get(m, bs[i + 1].addr, SIZE) == bs[i + 1].size
    ensures Get(m, bs[i + 1].addr, NEXT) == Expected(bs, i + 1).next && bs[i].addr < WORD_LIMIT
    ensures i + 2 < |bs| ==> Inside(m, bs[i + 2].addr, HEADER) && Expected(bs, i + 1).next == bs[i + 2].addr != 0
    ensures i + 2 == |bs| ==> Expected(bs, i + 1).next == 0
  {
    hide HeaderAt, LoadWord, Get;
    BlockHeader(m, bs, i);
    BlockHeader(m, bs, i + 1);
    TilesOrdered(bs, lo, hi, i, i + 1);
    hide Tiles;
  }

  lemma SwallowedIs(m: seq<byte>, p: nat, b: nat, size: word, next: word)
    requires CanSwallow(m, p, b) && size == Get(m, p, SIZE) + HEADER + Get(m, b, SIZE) && next == Get(m, b, NEXT)
    ensures Swallowed(m, p, b) ==
      var r := SetField(SetField(m, p, SIZE, size), p, NEXT, next); if next != 0 then SetField(r, next, PREV, p) else r
  {
  }

  /** The two stores into the header of block i. */
  lemma SwallowFront(m: seq<byte>, bs: seq<Block>, lo: nat, hi: nat, i: nat)
    requires LinkedAll(m, bs) && Tiles(bs, lo, hi) && i + 1 < |bs| && bs[i].size + HEADER + bs[i + 1].size < WORD_LIMIT
    ensures var r := FrontStored(m, bs, i);
      && OthersKept(m, r, bs, i, i + 1) && KeepsPayloads(m, r, bs)
      && HeaderAt(r, bs[i].addr) == WidenedHeader(bs, i)
  {
    hide HeaderAt, LoadWord, SetField, SameBytes;
    var p, size, next := bs[i].addr, bs[i].size + HEADER + bs[i + 1].size, Expected(bs, i + 1).next;
    var m1 := SetField(m, p, SIZE, size);
    StoreField(m, p, SIZE, size);
    var r := SetField(m1, p, NEXT, next);
    StoreField(m1, p, NEXT, next);
    OutsideTwice(m, m1, r, p);
    StoreKeeps(m, r, bs, lo, hi, i);
  }

  /** The back link of the block behind. */
  lemma SwallowBack(m: seq<byte>, m2: seq<byte>, bs: seq<Block>, lo: nat, hi: nat, i: nat)
    requires LinkedAll(m, bs) && Tiles(bs, lo, hi) && i + 2 < |bs| && |m2| == |m|
    requires OthersKept(m, m2, bs, i, i + 1) && KeepsPayloads(m, m2, bs) && bs[i].addr < WORD_LIMIT
    ensures Inside(m2, bs[i + 2].addr, HEADER)
    ensures var r := SetField(m2, bs[i + 2].addr, PREV, bs[i].addr);
      && OthersKept(m, r, bs, i, i + 3) && KeepsPayloads(m, r, bs)
        && HeaderAt(r, bs[i].addr) == HeaderAt(m2, bs[i].addr)
      && HeaderAt(r, bs[i + 2].addr) == Expected(bs, i + 2).(prev := bs[i].addr)
  {
    hide HeaderAt, LoadWord, SetField, SameBytes;
    var next, r := bs[i + 2].addr, SetField(m2, bs[i + 2].addr, PREV, bs[i].addr);
    StoreField(m2, next, PREV, bs[i].addr);
    StoreKeeps(m2, r, bs, lo, hi, i + 2);
    KeepsTwice(m, m2, r, bs);
  }

  // ---- handing out a block

  predicate CanPlace(m: seq<byte>, cur: nat, n: nat) {
    && Inside(m, cur, HEADER) && cur + HEADER + n < WORD_LIMIT
    && (Get(m, cur, SIZE) >= n + HEADER + 8 ==>
      Inside(m, cur + HEADER + n, HEADER) && (Get(m, cur, NEXT) != 0 ==> Inside(m, Get(m, cur, NEXT), HEADER)))
  }

  /** A whole header stored field by field. */
  function SetHeader(m: seq<byte>, a: nat, h: Header): (r: seq<byte>)
    requires Inside(m, a, HEADER)
    ensures |r| == |m|
  {
    SetField(SetField(SetField(SetField(SetField(m, a, MAGIC, h.magic), a, SIZE, h.size), a, FREE, h.free), a, NEXT,
      h.next), a, PREV, h.prev)
  }

  lemma SetHeaderStored(m: seq<byte>, a: nat, h: Header)
    requires Inside(m, a, HEADER)
    ensures StoredField(m, SetHeader(m, a, h), a, h)
  {
    hide HeaderAt, LoadWord, SetField, SameBytes;
    var m1 := SetField(m, a, MAGIC, h.magic);
    StoreField(m, a, MAGIC, h.magic);
    var m2 := SetField(m1, a, SIZE, h.size);
    StoreField(m1, a, SIZE, h.size);
    OutsideTwice(m, m1, m2, a);
    var m3 := SetField(m2, a, FREE, h.free);
    StoreField(m2, a, FREE, h.free);
    OutsideTwice(m, m2, m3, a);
    var m4 := SetField(m3, a, NEXT, h.next);
    StoreField(m3, a, NEXT, h.next);
    OutsideTwice(m, m3, m4, a);
    StoreField(m4, a, PREV, h.prev);
    OutsideTwice(m, m4, SetField(m4, a, PREV, h.prev), a);
  }

  /** m with header h at s, and the block behind it, if any, pointing back to s. */
  function Behind(m: seq<byte>, s: word, h: Header): (r: seq<byte>)
    requires Inside(m, s, HEADER) && (h.next != 0 ==> Inside(m, h.next, HEADER))
    ensures |r| == |m|
  {
    if h.next != 0 then SetField(SetHeader(m, s, h), h.next, PREV, s) else SetHeader(m, s, h)
  }

  /** The header `kmalloc` writes for what it splits off. */
  function RestHeader(m: seq<byte>, cur: nat, n: word): Header
    requires CanPlace(m, cur, n) && Get(m, cur, SIZE) >= n + HEADER + 8
  {
    Header(HEAP_MAGIC, Get(m, cur, SIZE) - n - HEADER, 1, Get(m, cur, NEXT), cur)
  }

  /** Header h stored n bytes into block cur and linked in behind it. */
  function SplitWith(m: seq<byte>, cur: nat, n: word, h: Header): (r: seq<byte>)
    requires Inside(m, cur, HEADER) && Inside(m, cur + HEADER + n, HEADER) && cur + HEADER + n < WORD_LIMIT
    requires h.next != 0 ==> Inside(m, h.next, HEADER)
    ensures |r| == |m|
  {
    var s := cur + HEADER + n;
    SetField(SetField(Behind(m, s, h), cur, NEXT, s), cur, SIZE, n)
  }

  /** The block at cur split after n bytes: the rest gets a header of its own and is linked in. */
  function SplitOff(m: seq<byte>, cur: nat, n: word): (r: seq<byte>)
    requires CanPlace(m, cur, n) && Get(m, cur, SIZE) >= n + HEADER + 8
    ensures |r| == |m|
  {
    SplitWith(m, cur, n, RestHeader(m, cur, n))
  }

  /** The search's hit: split if enough remains, then marked used. */
  function Placed(m: seq<byte>, cur: nat, n: word): seq<byte>
    requires CanPlace(m, cur, n)
  {
    SetField(if Get(m, cur, SIZE) >= n + HEADER + 8 then SplitOff(m, cur, n) else m, cur, FREE, 0)
  }

  ghost function SplitHeader(bs: seq<Block>, i: nat, n: word): Header
    requires Addressable(bs) && i < |bs| && bs[i].size >= n + HEADER + 8
  {
    Header(HEAP_MAGIC, bs[i].size - n - HEADER, 1, Expected(bs, i).next, bs[i].addr)
  }

  /** The headers of a list whose block i was split after n bytes and handed out. */
  ghost predicate SplitHeaders(m: seq<byte>, r: seq<byte>, bs: seq<Block>, i: nat, n: word)
    requires LinkedAll(m, bs) && i < |bs| && bs[i].size >= n + HEADER + 8 && |r| == |m|
  {
    var s, cur := bs[i].addr + HEADER + n, bs[i].addr;
    && OthersKept(m, r, bs, i, i + 2)
    && HeaderAt(r, cur) == Expected(bs, i).(next := s, size := n, free := 0)
    && HeaderAt(r, s) == SplitHeader(bs, i, n)
    && (i + 1 < |bs| ==> HeaderAt(r, bs[i + 1].addr) == Expected(bs, i + 1).(prev := s))
  }

  lemma SplitLinks(m: seq<byte>, r: seq<byte>, bs: seq<Block>, i: nat, n: word)
    requires LinkedAll(m, bs) && i < |bs| && Fits(bs[i], n) && bs[i].size >= n + HEADER + 8
    requires |m| == |r| && SplitHeaders(m, r, bs, i, n)
    ensures LinkedAll(r, Carve(bs, i, n))
  {
    hide HeaderAt, Carve;
    var cs := Carve(bs, i, n);
    CarveFits(r, bs, i, n);
    forall k | 0 <= k < |cs| ensures HeaderAt(r, cs[k].addr) == Expected(cs, k) {
      CarveAt(bs, i, n, k);
      ExpectedCarved(bs, i, n, k);
      if k < i { assert HeaderAt(r, bs[k].addr) == HeaderAt(m, bs[k].addr); }
      if k > i + 2 { assert HeaderAt(r, bs[k - 1].addr) == HeaderAt(m, bs[k - 1].addr); }
    }
  }

  lemma ExpectedCarved(bs: seq<Block>, i: nat, n: word, k: nat)
    requires Addressable(bs) && i < |bs| && Fits(bs[i], n) && bs[i].size >= n + HEADER + 8 && k <= |bs|
    requires Addressable(Carve(bs, i, n))
    ensures var s := bs[i].addr + HEADER + n;
      |Carve(bs, i, n)| == |bs| + 1 &&
      Expected(Carve(bs, i, n), k) ==
        if k < i then Expected(bs, k)
        else if k == i then Expected(bs, i).(next := s, size := n, free := 0)
        else if k == i + 1 then SplitHeader(bs, i, n)
        else if k == i + 2 then Expected(bs, i + 1).(prev := s)
        else Expected(bs, k - 1)
  {
    hide Carve;
    CarveAt(bs, i, n, k);
    if k > 0 { CarveAt(bs, i, n, k - 1); }
    if k < |bs| { CarveAt(bs, i, n, k + 1); }
  }

  /** m2 is m after the new header and the back link: everything but block i's own header. */
  ghost predicate RestLinked(m: seq<byte>, m2: seq<byte>, bs: seq<Block>, i: nat, n: word)
    requires LinkedAll(m, bs) && i < |bs| && bs[i].size >= n + HEADER + 8
  {
    var s := bs[i].addr + HEADER + n;
    && |m2| == |m| && OthersKept(m, m2, bs, i + 1, i + 2) && KeepsLive(m, m2, bs)
    && HeaderAt(m2, s) == SplitHeader(bs, i, n)
    && (i + 1 < |bs| ==> HeaderAt(m2, bs[i + 1].addr) == Expected(bs, i + 1).(prev := s))
  }

  lemma SplitBehind(m: seq<byte>, bs: seq<Block>, lo: nat, hi: nat, i: nat, n: word)
    requires LinkedAll(m, bs) && Tiles(bs, lo, hi) && i < |bs| && Fits(bs[i], n) && bs[i].size >= n + HEADER + 8
    ensures var s, next := bs[i].addr + HEADER + n, Expected(bs, i).next;
      Inside(m, s, HEADER) && (next != 0 ==> Inside(m, next, HEADER)) && (next == 0 <==> i + 1 == |bs|)
    ensures RestLinked(m, Behind(m, bs[i].addr + HEADER + n, SplitHeader(bs, i, n)), bs, i, n)
  {
    hide HeaderAt, LoadWord, SetField, SetHeader, SameBytes, Get, Tiles;
    var s, next := bs[i].addr + HEADER + n, Expected(bs, i).next;
    var m1 := SetHeader(m, s, SplitHeader(bs, i, n));
    SetHeaderStored(m, s, SplitHeader(bs, i, n));
    StoreInsideFree(m, m1, bs, lo, hi, i, s);
    if i + 1 < |bs| {
      BlockHeader(m, bs, i + 1);
      TilesOrdered(bs, lo, hi, i, i + 1);
      var r := SetField(m1, next, PREV, s);
      StoreField(m1, next, PREV, s);
      StoreKeeps(m1, r, bs, lo, hi, i + 1);
      OutsideSame(m1, r, next, HEADER, s, s + HEADER);
      HeaderElsewhere(m1, r, s);
      KeepsLiveTwice(m, m1, r, bs);
    }
  }

  /** Block i's own header, last: its link, its size and its free mark. */
  lemma SplitFront(m: seq<byte>, m2: seq<byte>, bs: seq<Block>, lo: nat, hi: nat, i: nat, n: word)
    requires LinkedAll(m, bs) && Tiles(bs, lo, hi) && i < |bs| && Fits(bs[i], n) && bs[i].size >= n + HEADER + 8
    requires RestLinked(m, m2, bs, i, n) && |m2| == |m|
    ensures var s, cur := bs[i].addr + HEADER + n, bs[i].addr;
      var r := SetField(SetField(SetField(m2, cur, NEXT, s), cur, SIZE, n), cur, FREE, 0);
      |r| == |m| && SplitHeaders(m, r, bs, i, n) && KeepsLive(m, r, bs)
  {
    hide HeaderAt, LoadWord, SetField, SameBytes, Tiles;
    var s, cur := bs[i].addr + HEADER + n, bs[i].addr;
    var m3 := SetField(m2, cur, NEXT, s);
    StoreField(m2, cur, NEXT, s);
    var m4 := SetField(m3, cur, SIZE, n);
    StoreField(m3, cur, SIZE, n);
    OutsideTwice(m2, m3, m4, cur);
    var r := SetField(m4, cur, FREE, 0);
    StoreField(m4, cur, FREE, 0);
    OutsideTwice(m2, m4, r, cur);
    StoreKeeps(m2, r, bs, lo, hi, i);
    OutsideSame(m2, r, cur, HEADER, s, s + HEADER);
    HeaderElsewhere(m2, r, s);
    KeepsLiveTwice(m, m2, r, bs);
  }

  /** The header the code writes for the split-off part is the list's. */
  lemma SplitHeaderRead(m: seq<byte>, bs: seq<Block>, i: nat, n: word)
    requires LinkedAll(m, bs) && i < |bs| && bs[i].size >= n + HEADER + 8
    requires Inside(m, bs[i].addr + HEADER + n, HEADER)
      && (Expected(bs, i).next != 0 ==> Inside(m, Expected(bs, i).next, HEADER))
    ensures CanPlace(m, bs[i].addr, n) && Get(m, bs[i].addr, SIZE) >= n + HEADER + 8
    ensures RestHeader(m, bs[i].addr, n) == SplitHeader(bs, i, n)
  {
    BlockHeader(m, bs, i);
    hide HeaderAt, LoadWord, Get;
  }

  /** Handing out block i turns the headers of bs into those of `Carve(bs, i, n)`. */
  lemma PlaceLinks(m: seq<byte>, bs: seq<Block>, lo: nat, hi: nat, i: nat, n: word)
    requires LinkedAll(m, bs) && Tiles(bs, lo, hi) && i < |bs| && Fits(bs[i], n)
    ensures CanPlace(m, bs[i].addr, n)
    ensures var r := Placed(m, bs[i].addr, n); |r| == |m| && LinkedAll(r, Carve(bs, i, n)) && KeepsLive(m, r, bs)
  {
    BlockHeader(m, bs, i);
    hide HeaderAt, LoadWord, SetField, Get, Tiles, Carve, KeepsLive, LinkedAll, SplitOff, Expected;
    if bs[i].size >= n + HEADER + 8 {
      PlaceSplitLinks(m, bs, lo, hi, i, n);
    } else {
      WholeLinks(m, bs, lo, hi, i, n);
    }
  }

  lemma PlaceSplitLinks(m: seq<byte>, bs: seq<Block>, lo: nat, hi: nat, i: nat, n: word)
    requires LinkedAll(m, bs) && Tiles(bs, lo, hi) && i < |bs| && Fits(bs[i], n) && bs[i].size >= n + HEADER + 8
    ensures CanPlace(m, bs[i].addr, n) && Get(m, bs[i].addr, SIZE) >= n + HEADER + 8
    ensures var r := SetField(SplitOff(m, bs[i].addr, n), bs[i].addr, FREE, 0);
      |r| == |m| && LinkedAll(r, Carve(bs, i, n)) && KeepsLive(m, r, bs)
  {
    hide HeaderAt, LoadWord, SetField, SetHeader, SameBytes, Get, Tiles, Carve, KeepsLive, LinkedAll, OthersKept,
      SplitHeaders, SplitOff, Expected;
    PlaceSplitHeaders(m, bs, lo, hi, i, n);
    SplitLinks(m, SetField(SplitOff(m, bs[i].addr, n), bs[i].addr, FREE, 0), bs, i, n);
  }

  lemma PlaceSplitHeaders(m: seq<byte>, bs: seq<Block>, lo: nat, hi: nat, i: nat, n: word)
    requires LinkedAll(m, bs) && Tiles(bs, lo, hi) && i < |bs| && Fits(bs[i], n) && bs[i].size >= n + HEADER + 8
    ensures CanPlace(m, bs[i].addr, n) && Get(m, bs[i].addr, SIZE) >= n + HEADER + 8
    ensures var r := SetField(SplitOff(m, bs[i].addr, n), bs[i].addr, FREE, 0);
      |r| == |m| && SplitHeaders(m, r, bs, i, n) && KeepsLive(m, r, bs)
  {
    SplitBehind(m, bs, lo, hi, i, n);
    SplitHeaderRead(m, bs, i, n);
    hide SplitHeaders, KeepsLive, LinkedAll, SetField, RestHeader, SplitWith, Get, HeaderAt, Tiles, Behind, OthersKept;
    SplitStored(m, bs, lo, hi, i, n, bs[i].addr, SplitHeader(bs, i, n));
  }

  /** All the stores of a split of the block at cur, given the list's header h for the rest. */
  lemma SplitStored(m: seq<byte>, bs: seq<Block>, lo: nat, hi: nat, i: nat, n: word, cur: nat, h: Header)
    requires LinkedAll(m, bs) && Tiles(bs, lo, hi) && i < |bs| && Fits(bs[i], n) && bs[i].size >= n + HEADER + 8
    requires cur == bs[i].addr && h == SplitHeader(bs, i, n)
    requires Inside(m, cur, HEADER) && Inside(m, cur + HEADER + n, HEADER) && cur + HEADER + n < WORD_LIMIT
    requires h.next != 0 ==> Inside(m, h.next, HEADER)
    ensures var r := SetField(SplitWith(m, cur, n, h), cur, FREE, 0);
      |r| == |m| && SplitHeaders(m, r, bs, i, n) && KeepsLive(m, r, bs)
  {
    hide HeaderAt, LoadWord, SetField, SetHeader, Behind, SameBytes, Get, Tiles, KeepsLive, OthersKept, SplitHeaders,
      RestLinked, LinkedAll;
    hide SplitHeader, StoreWord, StoreByte, At;
    SplitBehind(m, bs, lo, hi, i, n);
    SplitFront(m, Behind(m, cur + HEADER + n, h), bs, lo, hi, i, n);
  }

  lemma WholeLinks(m: seq<byte>, bs: seq<Block>, lo: nat, hi: nat, i: nat, n: nat)
    requires LinkedAll(m, bs) && Tiles(bs, lo, hi) && i < |bs| && Fits(bs[i], n) && bs[i].size < n + HEADER + 8
    ensures var r := SetField(m, bs[i].addr, FREE, 0);
      |r| == |m| && LinkedAll(r, Carve(bs, i, n)) && KeepsLive(m, r, bs)
  {
    hide HeaderAt, SetField, SameBytes;
    var r := SetField(m, bs[i].addr, FREE, 0);
    StoreField(m, bs[i].addr, FREE, 0);
    StoreKeeps(m, r, bs, lo, hi, i);
    MarkLinks(m, r, bs, i, false);
  }

  // ---- freeing

  /** Payloads of bs survive a join of bs's blocks followed by a second join. */
  lemma KeepsThroughJoin(m: seq<byte>, n: seq<byte>, r: seq<byte>, bs: seq<Block>, i: nat, lo: nat, hi: nat)
    requires Fitting(m, bs) && i + 1 < |bs| && |m| == |n| == |r| && Tiles(bs, lo, hi) && Fitting(n, Join(bs, i))
    requires KeepsPayloads(m, n, bs) && KeepsPayloads(n, r, Join(bs, i))
    ensures KeepsPayloads(m, r, bs)
  {
    var cs := Join(bs, i);
    TilesOrdered(bs, lo, hi, i, i + 1);
    hide SameBytes, Join, Tiles;
    forall k | 0 <= k < |bs| ensures SameBytes(m, r, bs[k].Payload(), bs[k].End()) {
      var o := if k <= i then k else k - 1;
      JoinAt(bs, i, o);
      assert SameBytes(n, r, cs[o].Payload(), cs[o].End());
      SameInside(n, r, cs[o].Payload(), cs[o].End(), bs[k].Payload(), bs[k].End());
      SameTwice(m, n, r, bs[k].Payload(), bs[k].End());
    }
  }

  lemma SameTwice(m: seq<byte>, n: seq<byte>, r: seq<byte>, lo: nat, hi: nat)
    requires HEAP_START <= lo <= hi <= HEAP_START + |m| && |m| == |n| == |r| && SameBytes(m, n, lo, hi)
      && SameBytes(n, r, lo, hi)
    ensures SameBytes(m, r, lo, hi)
  {
  }

  /** `hdr->free = 1` on block i. */
  lemma FreeMarkLinks(m: seq<byte>, bs: seq<Block>, lo: nat, hi: nat, i: nat)
    requires LinkedAll(m, bs) && Tiles(bs, lo, hi) && GoodSizes(bs) && i < |bs|
    ensures var r, cs := SetField(m, bs[i].addr, FREE, 1), bs[i := bs[i].(free := true)];
      LinkedAll(r, cs) && Tiles(cs, lo, hi) && GoodSizes(cs) && KeepsPayloads(m, r, bs)
  {
    hide HeaderAt, SetField, SameBytes;
    var r := SetField(m, bs[i].addr, FREE, 1);
    StoreField(m, bs[i].addr, FREE, 1);
    StoreKeeps(m, r, bs, lo, hi, i);
    MarkLinks(m, r, bs, i, true);
    MarkKeepsTiling(bs, lo, hi, i, true);
  }

  // ---- growth

  /** m with new memory behind it, a header for that memory, and the last block linked to it. */
  function Appended(m: seq<byte>, last: nat, b: word, size: word): (r: seq<byte>)
    requires Inside(m, last, HEADER) && Inside(m, b, HEADER) && last < WORD_LIMIT
    ensures |r| == |m|
  {
    var m1 := SetHeader(m, b, Header(HEAP_MAGIC, size, 1, 0, 0));
    SetField(SetField(m1, last, NEXT, b), b, PREV, last)
  }

  /** Old blocks keep their headers and bytes when memory is added behind them. */
  lemma GrownKeeps(m: seq<byte>, g: seq<byte>, bs: seq<Block>)
    requires LinkedAll(m, bs) && m <= g
    ensures LinkedAll(g, bs) && KeepsPayloads(m, g, bs)
  {
    hide HeaderAt, SameBytes;
    assert Fitting(g, bs);
    forall k | 0 <= k < |bs| ensures HeaderAt(g, bs[k].addr) == Expected(bs, k) {
      PrefixSame(m, g, bs[k].addr, bs[k].addr + HEADER);
      HeaderElsewhere(m, g, bs[k].addr);
    }
    forall k | 0 <= k < |bs| ensures SameBytes(m, g, bs[k].Payload(), bs[k].End()) {
      PrefixSame(m, g, bs[k].Payload(), bs[k].End());
    }
  }

  lemma PrefixSame(m: seq<byte>, g: seq<byte>, lo: nat, hi: nat)
    requires m <= g && HEAP_START <= lo <= hi <= HEAP_START + |m|
    ensures SameBytes(m, g, lo, hi)
  {
  }

  /** The new free block b, behind the last block of bs. */
  lemma AppendedLinks(m: seq<byte>, bs: seq<Block>, lo: nat, hi: nat, b: Block)
    requires bs != [] && LinkedAll(m, bs) && Tiles(bs, lo, hi) && b.addr == hi && b.free && b.End() < WORD_LIMIT
    requires HEAP_START <= b.addr && b.End() <= HEAP_START + |m|
    ensures var last := bs[|bs| - 1].addr;
      Inside(m, last, HEADER) && last < WORD_LIMIT && b.addr < WORD_LIMIT && b.size < WORD_LIMIT
      && LinkedAll(Appended(m, last, b.addr, b.size), bs + [b])
      && KeepsPayloads(m, Appended(m, last, b.addr, b.size), bs)
  {
    hide HeaderAt, LoadWord, SetField, SetHeader, SameBytes;
    var n := |bs| - 1;
    var last := bs[n].addr;
    var h := Header(HEAP_MAGIC, b.size, 1, 0, 0);
    TilesConcat(bs, [b], lo, hi, b.End());
    var cs := bs + [b];
    assert Fitting(m, cs);
    BlockHeader(m, bs, n);
    var m1 := SetHeader(m, b.addr, h);
    SetHeaderStored(m, b.addr, h);
    StoreKeeps(m, m1, cs, lo, b.End(), n + 1);
    var m2 := SetField(m1, last, NEXT, b.addr);
    StoreField(m1, last, NEXT, b.addr);
    StoreKeeps(m1, m2, cs, lo, b.End(), n);
    var r := SetField(m2, b.addr, PREV, last);
    StoreField(m2, b.addr, PREV, last);
    StoreKeeps(m2, r, cs, lo, b.End(), n + 1);
    AppendedHeaders(m, m1, m2, r, bs, b);
    AppendLinks(m, r, bs, b);
    KeepsTwice(m, m1, m2, cs);
    KeepsTwice(m, m2, r, cs);
    KeepsPrefix(m, r, bs, b);
  }

  lemma KeepsPrefix(m: seq<byte>, r: seq<byte>, bs: seq<Block>, b: Block)
    requires |m| == |r| && Fitting(m, bs + [b]) && KeepsPayloads(m, r, bs + [b])
    ensures Fitting(m, bs) && KeepsPayloads(m, r, bs)
  {
    hide SameBytes;
    var cs := bs + [b];
    assert forall k :: 0 <= k < |bs| ==> cs[k] == bs[k];
  }

  /** Reading the three stores of `Appended` off the headers. */
  lemma AppendedHeaders(m: seq<byte>, m1: seq<byte>, m2: seq<byte>, r: seq<byte>, bs: seq<Block>, b: Block)
    requires bs != [] && LinkedAll(m, bs) && |m| == |m1| == |m2| == |r| && Fitting(m, bs + [b]) && b.free
    requires Inside(m, b.addr, HEADER) && b.addr < WORD_LIMIT
    requires var n, cs := |bs| - 1, bs + [b];
      && OthersKept(m, m1, cs, n + 1, n + 2) && OthersKept(m1, m2, cs, n, n + 1) && OthersKept(m2, r, cs, n + 1, n + 2)
      && b.End() < WORD_LIMIT
      && HeaderAt(m1, b.addr) == Header(HEAP_MAGIC, b.size, 1, 0, 0)
      && HeaderAt(m2, bs[n].addr) == HeaderAt(m1, bs[n].addr).(next := b.addr)
      && HeaderAt(r, b.addr) == HeaderAt(m2, b.addr).(prev := bs[n].addr)
    ensures forall k :: 0 <= k < |bs| - 1 ==> HeaderAt(r, bs[k].addr) == HeaderAt(m, bs[k].addr)
    ensures HeaderAt(r, bs[|bs| - 1].addr) == HeaderAt(m, bs[|bs| - 1].addr).(next := b.addr)
    ensures HeaderAt(r, b.addr) == Header(HEAP_MAGIC, b.size, 1, 0, bs[|bs| - 1].addr)
  {
    hide HeaderAt;
    var n, cs := |bs| - 1, bs + [b];
    assert cs[n + 1] == b && cs[n] == bs[n];
    forall k | 0 <= k < n ensures HeaderAt(r, bs[k].addr) == HeaderAt(m, bs[k].addr) { assert cs[k] == bs[k]; }
  }
}
