/**
 The heap as bytes: headers of five little-endian words stored in front of the payload they
 describe, in the same memory the payload lives in.
 */
module HeapMemory {
  import opened Bits
  import opened HeapBlocks

  const HEAP_MAGIC: word := 0xCAFE_BABE

  /** [a, a + n) lies in the heap's memory m, which starts at HEAP_START. */
  predicate Inside(m: seq<byte>, a: nat, n: nat) { HEAP_START <= a && a + n <= HEAP_START + |m| }

  function At(m: seq<byte>, a: nat): byte
    requires Inside(m, a, 1)
  {
    m[a - HEAP_START]
  }

  function LoadWord(m: seq<byte>, a: nat): word
    requires Inside(m, a, 4)
  {
    At(m, a) + 256 * At(m, a + 1) + 65536 * At(m, a + 2) + 16777216 * At(m, a + 3)
  }

  function StoreByte(m: seq<byte>, a: nat, b: byte): (r: seq<byte>)
    requires Inside(m, a, 1)
    ensures |r| == |m|
    ensures forall x: nat :: Inside(m, x, 1) ==> At(r, x) == if x == a then b else At(m, x)
  {
    m[a - HEAP_START := b]
  }

  function StoreWord(m: seq<byte>, a: nat, w: word): (r: seq<byte>)
    requires Inside(m, a, 4)
    ensures |r| == |m|
    ensures forall x: nat :: Inside(m, x, 1) && !(a <= x < a + 4) ==> At(r, x) == At(m, x)
    ensures LoadWord(r, a) == w
  {
    var r := StoreByte(StoreByte(StoreByte(StoreByte(m, a, w % 256), a + 1, w / 256 % 256), a + 2, w / 65536 % 256),
      a + 3, w / 16777216);
    FourBytes(w);
    r
  }

  lemma FourBytes(w: word)
    ensures w == w % 256 + 256 * (w / 256 % 256) + 65536 * (w / 65536 % 256) + 16777216 * (w / 16777216)
    ensures w / 16777216 < 256
  {
    assert w / 65536 == w / 256 / 256 && w / 16777216 == w / 65536 / 256;
  }

  /** A word is unaffected by a store that does not overlap it. */
  lemma LoadElsewhere(m: seq<byte>, r: seq<byte>, a: nat)
    requires |m| <= |r| && Inside(m, a, 4) && forall x: nat :: a <= x < a + 4 ==> At(r, x) == At(m, x)
    ensures LoadWord(r, a) == LoadWord(m, a)
  {
  }

  // ---- headers: five fields, numbered in storage order

  const MAGIC: nat := 0
  const SIZE: nat := 1
  const FREE: nat := 2
  const NEXT: nat := 3
  const PREV: nat := 4

  datatype Header = Header(magic: word, size: word, free: word, next: word, prev: word)

  function HeaderAt(m: seq<byte>, a: nat): Header
    requires Inside(m, a, HEADER)
  {
    Header(LoadWord(m, a), LoadWord(m, a + 4), LoadWord(m, a + 8), LoadWord(m, a + 12), LoadWord(m, a + 16))
  }

  ghost predicate Addressable(bs: seq<Block>) {
    forall i :: 0 <= i < |bs| ==> bs[i].End() < WORD_LIMIT
  }

  /** The header block i of the list must have: sizes and links as C stores them. */
  ghost function Expected(bs: seq<Block>, i: nat): Header
    requires i < |bs| && Addressable(bs)
  {
    Header(HEAP_MAGIC, bs[i].size, if bs[i].free then 1 else 0,
           if i + 1 < |bs| then bs[i + 1].addr else 0, if i > 0 then bs[i - 1].addr else 0)
  }

  ghost predicate Fitting(m: seq<byte>, bs: seq<Block>) {
    Addressable(bs) && forall i :: 0 <= i < |bs| ==> HEAP_START <= bs[i].addr && bs[i].End() <= HEAP_START + |m|
  }

  /** m holds the headers of bs, linked in list order in both directions. */
  ghost predicate LinkedAll(m: seq<byte>, bs: seq<Block>) {
    Fitting(m, bs) && forall i :: 0 <= i < |bs| ==> HeaderAt(m, bs[i].addr) == Expected(bs, i)
  }

  // ---- stretches of memory

  function Slice(m: seq<byte>, lo: nat, hi: nat): seq<byte>
    requires HEAP_START <= lo <= hi <= HEAP_START + |m|
  {
    m[lo - HEAP_START..hi - HEAP_START]
  }

  /** m and r agree on [lo, hi). */
  ghost predicate SameBytes(m: seq<byte>, r: seq<byte>, lo: nat, hi: nat)
    requires HEAP_START <= lo <= hi <= HEAP_START + |m| && |m| <= |r|
  {
    Slice(m, lo, hi) == Slice(r, lo, hi)
  }

  /** r is m with new bytes in [a, a + n). */
  ghost predicate SameOutside(m: seq<byte>, r: seq<byte>, a: nat, n: nat) {
    |r| == |m| && Inside(m, a, n) && SameBytes(m, r, HEAP_START, a) && SameBytes(m, r, a + n, HEAP_START + |m|)
  }

  lemma SliceOfSlice(m: seq<byte>, lo: nat, hi: nat, a: nat, b: nat)
    requires HEAP_START <= lo <= a <= b <= hi <= HEAP_START + |m|
    ensures Slice(m, a, b) == Slice(m, lo, hi)[a - lo..b - lo]
  {
    var s, t := Slice(m, a, b), Slice(m, lo, hi);
    assert forall k :: 0 <= k < b - a ==> s[k] == m[a - HEAP_START + k] && t[a - lo + k] == m[a - HEAP_START + k];
  }

  /** Agreement on a stretch is agreement on each of its parts. */
  lemma SameInside(m: seq<byte>, r: seq<byte>, lo: nat, hi: nat, a: nat, b: nat)
    requires HEAP_START <= lo <= a <= b <= hi <= HEAP_START + |m| && |m| <= |r| && SameBytes(m, r, lo, hi)
    ensures SameBytes(m, r, a, b)
  {
    SliceOfSlice(m, lo, hi, a, b);
    SliceOfSlice(r, lo, hi, a, b);
  }

  lemma OutsideSame(m: seq<byte>, r: seq<byte>, a: nat, n: nat, lo: nat, hi: nat)
    requires SameOutside(m, r, a, n) && HEAP_START <= lo <= hi <= HEAP_START + |m| && (hi <= a || a + n <= lo)
    ensures SameBytes(m, r, lo, hi)
  {
    if hi <= a { SameInside(m, r, HEAP_START, a, lo, hi); } else { SameInside(m, r, a + n, HEAP_START + |m|, lo, hi); }
  }

  lemma HeaderElsewhere(m: seq<byte>, r: seq<byte>, a: nat)
    requires |m| <= |r| && Inside(m, a, HEADER) && SameBytes(m, r, a, a + HEADER)
    ensures HeaderAt(r, a) == HeaderAt(m, a)
  {
    forall x: nat | a <= x < a + HEADER ensures At(r, x) == At(m, x) {
      assert At(m, x) == Slice(m, a, a + HEADER)[x - a] && At(r, x) == Slice(r, a, a + HEADER)[x - a];
    }
    hide HeaderAt, LoadWord;
    forall j: nat | j < 5 ensures Field(HeaderAt(r, a), j) == Field(HeaderAt(m, a), j) {
      LoadElsewhere(m, r, a + 4 * j);
      FieldAt(m, a, j);
      FieldAt(r, a, j);
    }
    FieldsDetermine(HeaderAt(r, a), HeaderAt(m, a));
  }

  /** r is m with header h at a. */
  ghost predicate StoredField(m: seq<byte>, r: seq<byte>, a: nat, h: Header) {
    SameOutside(m, r, a, HEADER) && HeaderAt(r, a) == h
  }

  function With(h: Header, k: nat, w: word): Header
    requires k < 5
  {
    if k == MAGIC then h.(magic := w) else if k == SIZE then h.(size := w) else if k == FREE then h.(free := w)
    else if k == NEXT then h.(next := w) else h.(prev := w)
  }

  function Field(h: Header, k: nat): word
    requires k < 5
  {
    if k == MAGIC then h.magic else if k == SIZE then h.size else if k == FREE then h.free
    else if k == NEXT then h.next else h.prev
  }

  lemma FieldAt(m: seq<byte>, a: nat, k: nat)
    requires Inside(m, a, HEADER) && k < 5
    ensures Field(HeaderAt(m, a), k) == LoadWord(m, a + 4 * k)
  {
    assert k == 0 || k == 1 || k == 2 || k == 3 || k == 4;
  }

  /** `hdr->field = w` */
  function SetField(m: seq<byte>, a: nat, k: nat, w: word): (r: seq<byte>)
    requires Inside(m, a, HEADER) && k < 5
    ensures |r| == |m|
  {
    StoreWord(m, a + 4 * k, w)
  }

  lemma StoreField(m: seq<byte>, a: nat, k: nat, w: word)
    requires Inside(m, a, HEADER) && k < 5
    ensures StoredField(m, SetField(m, a, k, w), a, With(HeaderAt(m, a), k, w))
  {
    hide LoadWord, HeaderAt, StoreWord;
    var r := SetField(m, a, k, w);
    SetFieldOutside(m, a, k, w);
    forall j: nat | j < 5 ensures Field(HeaderAt(r, a), j) == if j == k then w else Field(HeaderAt(m, a), j) {
      FieldAt(m, a, j);
      FieldAt(r, a, j);
      if j != k { LoadElsewhere(m, r, a + 4 * j); }
    }
    FieldsDetermine(HeaderAt(r, a), With(HeaderAt(m, a), k, w));
  }

  lemma SetFieldOutside(m: seq<byte>, a: nat, k: nat, w: word)
    requires Inside(m, a, HEADER) && k < 5
    ensures SameOutside(m, SetField(m, a, k, w), a, HEADER)
  {
    hide LoadWord, StoreWord;
    var r := SetField(m, a, k, w);
    assert forall x: nat :: Inside(m, x, 1) && !(a <= x < a + HEADER) ==> At(r, x) == At(m, x);
    assert forall i :: 0 <= i < a - HEAP_START ==> m[i] == At(m, i + HEAP_START) && r[i] == At(r, i + HEAP_START);
    assert forall i :: a + HEADER - HEAP_START <= i < |m| ==>
      m[i] == At(m, i + HEAP_START) && r[i] == At(r, i + HEAP_START);
  }

  lemma FieldsDetermine(g: Header, h: Header)
    requires forall j: nat :: j < 5 ==> Field(g, j) == Field(h, j)
    ensures g == h
  {
    assert Field(g, 0) == Field(h, 0) && Field(g, 1) == Field(h, 1) && Field(g, 2) == Field(h, 2);
    assert Field(g, 3) == Field(h, 3) && Field(g, 4) == Field(h, 4);
  }

  /** Field k of the header at a, as the code reads it. */
  function Get(m: seq<byte>, a: nat, k: nat): (w: word)
    requires Inside(m, a, HEADER) && k < 5
    ensures w == Field(HeaderAt(m, a), k)
  {
    FieldAt(m, a, k);
    LoadWord(m, a + 4 * k)
  }
}
