/**
 File contents of fs/ramfs.c behind the file operations of fs/vfs.c: a growable buffer that
 behaves as a byte sequence, however it is written and read in pieces.
 */
module RamFile {
  import opened Bits

  const RAMFS_BLOCK: nat := 4096
  const EISDIR: int := -21

  // ---- byte sequences

  /** The sequence c with the bytes b at off, overwriting or extending. */
  function WriteAt(c: seq<byte>, off: nat, b: seq<byte>): (r: seq<byte>)
    requires off <= |c|
    ensures |r| == if off + |b| > |c| then off + |b| else |c|
  {
    c[..off] + b + if off + |b| < |c| then c[off + |b|..] else []
  }

  /** At most n bytes from off on. */
  function ReadAt(c: seq<byte>, off: nat, n: nat): seq<byte> {
    if off >= |c| then [] else if off + n <= |c| then c[off..off + n] else c[off..]
  }

  function Concat(chunks: seq<seq<byte>>): seq<byte> {
    if chunks == [] then [] else chunks[0] + Concat(chunks[1..])
  }

  /** Byte for byte: the written bytes from off on, in front of it and behind what was there, and no gap. */
  lemma WriteAtMeaning(c: seq<byte>, off: nat, b: seq<byte>)
    requires off <= |c|
    ensures var r := WriteAt(c, off, b);
      && |r| == (if off + |b| > |c| then off + |b| else |c|)
      && (forall k :: 0 <= k < |r| ==> r[k] == if off <= k < off + |b| then b[k - off] else c[k])
  {
  }

  /** All that was asked for, or all that is left from off on, which is nothing at or behind the end. */
  lemma ReadAtMeaning(c: seq<byte>, off: nat, n: nat)
    ensures var r := ReadAt(c, off, n);
      && |r| == (if off >= |c| then 0 else if n <= |c| - off then n else |c| - off)
      && (forall k :: 0 <= k < |r| ==> r[k] == c[off + k])
  {
  }

  /** Writing on where the last write ended is writing both pieces at once. */
  lemma WriteTwice(c: seq<byte>, off: nat, a: seq<byte>, b: seq<byte>)
    requires off <= |c|
    ensures WriteAt(WriteAt(c, off, a), off + |a|, b) == WriteAt(c, off, a + b)
  {
    var r, q := WriteAt(WriteAt(c, off, a), off + |a|, b), WriteAt(c, off, a + b);
    forall k | 0 <= k < |r| ensures r[k] == q[k] {}
  }

  /** What was written is read back, and the bytes around it are as before. */
  lemma WriteThenRead(c: seq<byte>, off: nat, b: seq<byte>, at: nat, n: nat)
    requires off <= |c|
    ensures ReadAt(WriteAt(c, off, b), off, |b|) == b
    ensures (at + n <= off || off + |b| <= at) && at + n <= |c| ==>
      ReadAt(WriteAt(c, off, b), at, n) == ReadAt(c, at, n)
  {
    var r := WriteAt(c, off, b);
    assert r[off..off + |b|] == b;
    if at + n <= |c| && (at + n <= off || off + |b| <= at) { assert r[at..at + n] == c[at..at + n]; }
  }

  /** Reading on: what was read so far, and the next piece, which is empty only at the end. */
  lemma ReadOn(c: seq<byte>, from: nat, off: nat, n: nat)
    requires from <= off <= |c| && n > 0
    ensures var piece := ReadAt(c, off, n);
      off + |piece| <= |c| && c[from..off] + piece == c[from..off + |piece|] && (|piece| == 0 <==> off == |c|)
  {
  }

  /** Chunk by chunk or all at once: the same contents. */
  lemma {:induction false} WriteChunks(c: seq<byte>, off: nat, chunks: seq<seq<byte>>)
    requires off <= |c| && chunks != []
    ensures WriteAt(WriteAt(c, off, chunks[0]), off + |chunks[0]|, Concat(chunks[1..])) ==
      WriteAt(c, off, Concat(chunks))
  {
    WriteTwice(c, off, chunks[0], Concat(chunks[1..]));
  }

  // ---- fs/ramfs.c

  class RamNode {
    var isFile: bool
    var data: array<byte>
    var size: word
    var capacity: word
    /** `vnode.size` */
    var vsize: word

    ghost predicate Valid()
      reads this
    {
      data.Length == capacity && size <= capacity && vsize == size
    }

    ghost function Contents(): seq<byte>
      requires Valid()
      reads this, data
    {
      data[..size]
    }

    constructor (isFile: bool)
      ensures Valid() && Contents() == [] && this.isFile == isFile && fresh(data)
    {
      this.isFile, size, capacity, vsize := isFile, 0, 0, 0;
      data := new byte[0];
    }

    /** `krealloc(n->data, cap)`: the old bytes, and more that hold anything. */
    method Grow(cap: word)
      requires Valid() && capacity <= cap
      modifies this`data, this`capacity
      ensures Valid() && fresh(data) && capacity == cap
      ensures data[..old(capacity)] == old(data[..])
    {
      var more := new byte[cap];
      var i := 0;
      while i < capacity
        invariant Valid() && capacity == old(capacity) && data == old(data) && data[..] == old(data[..])
        invariant i <= capacity && more[..i] == data[..i]
      {
        more[i] := data[i];
        i := i + 1;
      }
      assert more[..capacity] == data[..];
      data := more;
      capacity := cap;
    }

    /** `kmemcpy(n->data + off, buf, sz)` */
    method CopyIn(off: nat, bytes: seq<byte>)
      requires Valid() && off + |bytes| <= capacity
      modifies data
      ensures data[..] == old(data[..off]) + bytes + old(data[off + |bytes|..])
    {
      var i := 0;
      while i < |bytes|
        invariant i <= |bytes|
        invariant forall k :: 0 <= k < data.Length ==>
          data[k] == if off <= k < off + i then bytes[k - off] else old(data[k])
      {
        data[off + i] := bytes[i];
        i := i + 1;
      }
    }

    method RamfsWrite(off: nat, bytes: seq<byte>) returns (n: int)
      requires Valid() && off + |bytes| + RAMFS_BLOCK < WORD_LIMIT
      modifies this`data, this`capacity, this`size, this`vsize, data
      ensures Valid() && (data == old(data) || fresh(data))
      ensures !isFile ==> n == -21 && Contents() == old(Contents())
      ensures isFile ==> n == |bytes| && |Contents()| == if off + |bytes| > old(size) then off + |bytes| else old(size)
      ensures isFile && off <= old(size) ==> Contents() == WriteAt(old(Contents()), off, bytes)
      ensures isFile && off > old(size) ==> Contents()[..old(size)] == old(Contents()) && Contents()[off..] == bytes
      ensures capacity ==
        if isFile && off + |bytes| > old(capacity) then off + |bytes| + 4096 else old(capacity)
    {
      if !isFile { return EISDIR; }
      var needed := off + |bytes|;
      if needed > capacity { Grow(needed + RAMFS_BLOCK); }
      ghost var before := data[..];
      assert before[..old(size)] == old(Contents());
      CopyIn(off, bytes);
      if needed > size { size := needed; }
      vsize := size;
      n := |bytes|;
      WrittenContents(before, off, bytes, old(size), size);
    }

    method RamfsRead(off: int, sz: nat) returns (n: int, out: seq<byte>)
      requires Valid() && -0x8000_0000 <= off < 0x8000_0000
      ensures !isFile ==> n == -21 && out == []
      ensures isFile ==> n == |out| && out == ReadAt(Contents(), if off < 0 then 0x1_0000_0000 + off else off, sz)
    {
      out := [];
      if !isFile { return EISDIR, []; }
      var at := Unsigned(off);
      if at >= size { return 0, []; }
      var avail := size - at;
      var toRead := if sz < avail then sz else avail;
      var i := 0;
      while i < toRead
        invariant i <= toRead && out == data[at..at + i]
      {
        out := out + [data[at + i]];
        i := i + 1;
      }
      n := toRead;
      assert data[at..at + toRead] == Contents()[at..at + toRead];
    }

    method RamfsTruncate(newSize: word)
      requires Valid()
      modifies this`data, this`capacity, this`size, this`vsize
      ensures Valid() && (data == old(data) || fresh(data))
      ensures Contents() == if newSize < old(size) then old(Contents())[..newSize] else old(Contents())
      ensures capacity == if newSize == 0 then 0 else old(capacity)
    {
      if newSize == 0 {
        data := new byte[0];
        size, capacity := 0, 0;
      } else if newSize < size {
        size := newSize;
      }
      vsize := size;
    }
  }

  /** `(uint32_t)off` */
  function Unsigned(off: int): nat
    requires -0x8000_0000 <= off < 0x8000_0000
  {
    if off < 0 then off + 0x1_0000_0000 else off
  }

  /** The new contents, read off the buffer. */
  lemma WrittenContents(before: seq<byte>, off: nat, b: seq<byte>, size: nat, size': nat)
    requires size <= |before| && off + |b| <= |before| && size' == if off + |b| > size then off + |b| else size
    ensures var r := (before[..off] + b + before[off + |b|..])[..size'];
      && (off <= size ==> r == WriteAt(before[..size], off, b))
      && (off > size ==> r[..size] == before[..size] && r[off..] == b)
  {
  }

  // ---- fs/vfs.c

  class OpenFile {
    const node: RamNode
    var offset: int

    ghost predicate Valid()
      reads this, node
    {
      node.Valid() && node.isFile && -0x8000_0000 <= offset < 0x8000_0000
    }

    constructor (node: RamNode)
      ensures this.node == node && offset == 0
    {
      this.node, offset := node, 0;
    }

    method FileWrite(bytes: seq<byte>) returns (n: int)
      requires Valid() && 0 <= offset && offset + |bytes| < 0x8000_0000
      modifies this`offset, node`data, node`capacity, node`size, node`vsize, node.data
      ensures Valid() && (node.data == old(node.data) || fresh(node.data))
      ensures n == |bytes| && offset == old(offset) + n <= node.size
      ensures old(offset <= node.size) ==> node.Contents() == WriteAt(old(node.Contents()), old(offset), bytes)
      ensures old(offset > node.size) ==>
        node.Contents()[..old(node.size)] == old(node.Contents()) && node.Contents()[old(offset)..] == bytes
    {
      n := node.RamfsWrite(offset, bytes);
      if n > 0 { offset := offset + n; }
    }

    method FileRead(sz: nat) returns (n: int, out: seq<byte>)
      requires Valid() && node.size < 0x8000_0000
      modifies this`offset
      ensures Valid() && n == |out|
      ensures var at := old(offset); out == ReadAt(node.Contents(), if at < 0 then 0x1_0000_0000 + at else at, sz)
      ensures offset == old(offset) + n
    {
      n, out := node.RamfsRead(offset, sz);
      if n > 0 { offset := offset + n; }
    }

    /** `file_seek` with SEEK_SET */
    method SeekSet(off: int) returns (at: int)
      requires Valid() && -0x8000_0000 <= off < 0x8000_0000
      modifies this`offset
      ensures Valid() && offset == off == at
    {
      offset := off;
      at := offset;
    }

    /** A series of writes. */
    method WriteAll(chunks: seq<seq<byte>>)
      requires Valid() && 0 <= offset <= node.size && offset + |Concat(chunks)| < 0x8000_0000
      modifies this`offset, node`data, node`capacity, node`size, node`vsize, node.data
      ensures Valid() && (node.data == old(node.data) || fresh(node.data))
      ensures offset == old(offset) + |Concat(chunks)| && offset <= node.size
      ensures node.Contents() == WriteAt(old(node.Contents()), old(offset), Concat(chunks))
      decreases |chunks|
    {
      if chunks == [] { return; }
      WriteChunks(node.Contents(), offset, chunks);
      var n := FileWrite(chunks[0]);
      WriteAll(chunks[1..]);
    }

    /** Reads of any sizes but zero, until one returns nothing. */
    method ReadAll(sizes: nat -> nat) returns (out: seq<byte>)
      requires Valid() && 0 <= offset <= node.size < 0x8000_0000 && forall k :: sizes(k) > 0
      modifies this`offset
      ensures Valid() && out == node.Contents()[old(offset)..]
    {
      hide ReadAt;
      ghost var c, from := node.Contents(), offset;
      out := [];
      var k, n := 0, 1;
      while n > 0
        invariant Valid() && node.Contents() == c && from <= offset <= node.size && out == c[from..offset]
        invariant n >= 0 && (n == 0 ==> offset == node.size)
        decreases node.size - offset, n
      {
        ReadOn(c, from, offset, sizes(k));
        var piece;
        n, piece := FileRead(sizes(k));
        out := out + piece;
        k := k + 1;
      }
    }

    /**
     Whatever is written in pieces from an offset on is read back in pieces, of any other sizes,
     after a seek to the start, with the bytes around it as they were.
     */
    method WriteSeekRead(chunks: seq<seq<byte>>, sizes: nat -> nat) returns (out: seq<byte>)
      requires Valid() && 0 <= offset <= node.size < 0x8000_0000 && offset + |Concat(chunks)| < 0x8000_0000
      requires forall k :: sizes(k) > 0
      modifies this`offset, node`data, node`capacity, node`size, node`vsize, node.data
      ensures Valid() && (node.data == old(node.data) || fresh(node.data))
      ensures out == WriteAt(old(node.Contents()), old(offset), Concat(chunks)) == node.Contents()
      ensures old(node.size) == 0 ==> out == Concat(chunks)
    {
      WriteAll(chunks);
      var at := SeekSet(0);
      out := ReadAll(sizes);
    }
  }
}
