/**
 File descriptors of one process: slots holding open files, each with a count of its holders,
 and a count of open files on each vnode (syscall/syscall.c over fs/vfs.c).
 */
module Fds {

  const MAX_FDS: nat := 32
  const EBADF: int := -9
  const EMFILE: int := -24

  datatype File = File(vnode: nat, ref: int)

  /** A slot holds the number of an open file, or 0. */
  type Slots = s: seq<nat> | |s| == 32 witness seq(32, _ => 0)

  /** The live `file_t`s, the vnodes' reference counts, and the next unused file number. */
  datatype Table = Table(slots: Slots, files: map<nat, File>, refs: map<nat, int>, next: nat)

  const EMPTY := Table(seq(32, _ => 0), map[], map[], 1)

  /** A call returns, or it goes on to use a file that has been given back to the heap. */
  datatype Outcome = Returned(table: Table, result: int) | UsesFreed

  function RefCount(t: Table, v: nat): int { if v in t.refs then t.refs[v] else 0 }

  // ---- fs/vfs.c

  /** The end of `file_open`: a new file with one reference on its vnode. */
  function FileOpen(t: Table, v: nat): Table {
    t.(files := t.files[t.next := File(v, 1)], refs := t.refs[v := RefCount(t, v) + 1], next := t.next + 1)
  }

  /** `file_close` */
  function FileClose(t: Table, id: nat): Table
    requires id in t.files
  {
    var f := t.files[id];
    if f.ref - 1 <= 0 then t.(files := t.files - {id}, refs := t.refs[f.vnode := RefCount(t, f.vnode) - 1])
    else t.(files := t.files[id := f.(ref := f.ref - 1)])
  }

  // ---- syscall/syscall.c

  /** `fd_alloc`: the first empty slot at or after i, or 32. */
  function FirstEmpty(s: Slots, i: nat): (k: nat)
    requires i <= 32
    ensures i <= k <= 32 && (k < 32 ==> s[k] == 0)
    ensures forall j :: i <= j < k ==> s[j] != 0
    decreases 32 - i
  {
    if i == 32 || s[i] == 0 then i else FirstEmpty(s, i + 1)
  }

  /** `fd_get` */
  function Get(t: Table, fd: int): nat { if 0 <= fd < 32 then t.slots[fd] else 0 }

  /** `sys_open` once the node is found: with no slot left the file is closed again. */
  function Open(t: Table, v: nat): (Table, int) {
    var o := FileOpen(t, v);
    var i := FirstEmpty(t.slots, 0);
    if i == 32 then (FileClose(o, t.next), EMFILE) else (o.(slots := t.slots[i := t.next]), i)
  }

  /** `sys_close` */
  function Close(t: Table, fd: int): Outcome {
    var id := Get(t, fd);
    if id == 0 then Returned(t, EBADF)
    else if id !in t.files then UsesFreed
    else Returned(FileClose(t.(slots := t.slots[fd := 0]), id), 0)
  }

  /** `sys_dup2`; the count is raised after the close, which may already have released the file. */
  function Dup2(t: Table, oldfd: int, newfd: int): Outcome {
    var id := Get(t, oldfd);
    if id == 0 || !(0 <= newfd < 32) then Returned(t, EBADF)
    else if t.slots[newfd] != 0 && t.slots[newfd] !in t.files then UsesFreed
    else
      var c := if t.slots[newfd] != 0 then FileClose(t, t.slots[newfd]) else t;
      if id !in c.files then UsesFreed
      else
        var files := c.files[id := c.files[id].(ref := c.files[id].ref + 1)];
        Returned(c.(slots := c.slots[newfd := id], files := files), newfd)
  }

  // ---- the counts

  /** Slots that hold file id. */
  function Holders(s: seq<nat>, id: nat): (n: nat)
    ensures n <= |s|
  {
    if s == [] then 0 else (if s[0] == id then 1 else 0) + Holders(s[1..], id)
  }

  lemma {:induction false} HoldersUpdate(s: seq<nat>, i: nat, x: nat, id: nat)
    requires i < |s|
    ensures Holders(s[i := x], id) == Holders(s, id) - (if s[i] == id then 1 else 0) + (if x == id then 1 else 0)
  {
    if i == 0 {
      assert s[0 := x][1..] == s[1..];
    } else {
      assert s[i := x][1..] == s[1..][i - 1 := x];
      HoldersUpdate(s[1..], i - 1, x, id);
    }
  }

  lemma {:induction false} HeldSomewhere(s: seq<nat>, id: nat)
    ensures Holders(s, id) > 0 <==> exists i :: 0 <= i < |s| && s[i] == id
  {
    if s != [] {
      HeldSomewhere(s[1..], id);
      assert forall i :: 1 <= i < |s| ==> s[i] == s[1..][i - 1];
      assert forall i :: 0 <= i < |s[1..]| ==> s[1..][i] == s[i + 1];
    }
  }

  ghost function FilesOn(t: Table, v: nat): set<nat> { set id | id in t.files && t.files[id].vnode == v }

  /** Every file is held by as many slots as it counts, and every vnode counts its files. */
  ghost predicate Counted(t: Table) {
    && t.next > 0
    && (forall i :: 0 <= i < 32 && t.slots[i] != 0 ==> t.slots[i] in t.files)
    && (forall id <- t.files :: 0 < id < t.next && t.files[id].ref == Holders(t.slots, id) > 0)
    && (forall v: nat :: RefCount(t, v) == |FilesOn(t, v)|)
  }

  lemma EmptyIsCounted()
    ensures Counted(EMPTY)
  {
    assert forall v: nat :: FilesOn(EMPTY, v) == {};
  }

  /** The counts while one slot's share of file id is missing or in excess by `extra`. */
  ghost predicate CountedBut(t: Table, id: nat, extra: int) {
    && (forall i :: 0 <= i < 32 && t.slots[i] != 0 ==> t.slots[i] in t.files || t.slots[i] == id)
    && (forall k <- t.files :: 0 < k < t.next && t.files[k].ref > 0)
    && (forall k <- t.files :: t.files[k].ref == Holders(t.slots, k) + (if k == id then extra else 0))
    && (forall v: nat :: RefCount(t, v) == |FilesOn(t, v)|)
  }

  lemma FileOpenCounts(t: Table, v: nat)
    requires Counted(t)
    ensures CountedBut(FileOpen(t, v), t.next, 1) && Holders(t.slots, t.next) == 0
  {
    hide Holders, RefCount, FilesOn;
    var o := FileOpen(t, v);
    NotHeld(t);
    forall w: nat ensures RefCount(o, w) == |FilesOn(o, w)| { VnodeGains(t, v, w); }
  }

  lemma VnodeGains(t: Table, v: nat, w: nat)
    requires t.next !in t.files && RefCount(t, w) == |FilesOn(t, w)|
    ensures RefCount(FileOpen(t, v), w) == |FilesOn(FileOpen(t, v), w)|
  {
    assert t.next !in FilesOn(t, w);
    assert FilesOn(FileOpen(t, v), w) == if w == v then FilesOn(t, w) + {t.next} else FilesOn(t, w);
  }

  /** A number not yet given out is nowhere. */
  lemma NotHeld(t: Table)
    requires Counted(t)
    ensures t.next !in t.files && Holders(t.slots, t.next) == 0
  {
    HeldSomewhere(t.slots, t.next);
  }

  /** Closing takes back one count, and the file with the last one. */
  lemma FileCloseCounts(t: Table, id: nat)
    requires CountedBut(t, id, 1) && id in t.files
    ensures Counted(FileClose(t, id))
    ensures id in FileClose(t, id).files <==> Holders(t.slots, id) > 0
    ensures FileClose(t, id).slots == t.slots
  {
    hide Holders;
    var c, v := FileClose(t, id), t.files[id].vnode;
    HeldSomewhere(t.slots, id);
    forall w: nat ensures RefCount(c, w) == |FilesOn(c, w)| {
      if t.files[id].ref - 1 <= 0 {
        assert FilesOn(c, w) == if w == v then FilesOn(t, w) - {id} else FilesOn(t, w);
        assert id in FilesOn(t, v);
      } else {
        assert FilesOn(c, w) == FilesOn(t, w);
      }
    }
    forall i | 0 <= i < 32 && t.slots[i] != 0 ensures t.slots[i] in c.files { assert t.slots[i] in t.slots; }
  }

  // ---- what each call keeps

  /** Filling an empty slot with a file supplies its missing holder. */
  lemma SlotFilled(t: Table, i: nat, id: nat)
    requires CountedBut(t, id, 1) && i < 32 && t.slots[i] == 0 && id in t.files && t.next > 0
    ensures Counted(t.(slots := t.slots[i := id]))
  {
    hide Holders;
    var r := t.(slots := t.slots[i := id]);
    forall k | k in t.files ensures Holders(r.slots, k) == Holders(t.slots, k) + (if k == id then 1 else 0) {
      HoldersUpdate(t.slots, i, id, k);
    }
    assert forall v: nat :: FilesOn(r, v) == FilesOn(t, v);
  }

  /** Emptying or overwriting a slot leaves the file it held with one count too many. */
  lemma SlotLost(t: Table, i: nat)
    requires Counted(t) && i < 32 && t.slots[i] != 0
    ensures CountedBut(t.(slots := t.slots[i := 0]), t.slots[i], 1)
  {
    hide Holders;
    var r, id := t.(slots := t.slots[i := 0]), t.slots[i];
    forall k | k in t.files ensures Holders(r.slots, k) == Holders(t.slots, k) - (if k == id then 1 else 0) {
      HoldersUpdate(t.slots, i, 0, k);
    }
    assert forall v: nat :: FilesOn(r, v) == FilesOn(t, v);
  }

  /** Opening keeps the counts, and with no slot left it gives back file and reference alike. */
  lemma OpenKeeps(t: Table, v: nat)
    requires Counted(t)
    ensures Counted(Open(t, v).0)
    ensures Open(t, v).1 == EMFILE ==>
      Open(t, v).0.slots == t.slots && Open(t, v).0.files == t.files
      && forall w: nat :: RefCount(Open(t, v).0, w) == RefCount(t, w)
    ensures Open(t, v).1 != EMFILE ==> t.next in Open(t, v).0.files && t.next !in t.files
  {
    hide Holders, CountedBut, Counted;
    FileOpenCounts(t, v);
    NotHeld(t);
    var o, i := FileOpen(t, v), FirstEmpty(t.slots, 0);
    NextPositive(t);
    if i < 32 { SlotFilled(o, i, t.next); } else {
      FileCloseCounts(o, t.next);
      assert o.files - {t.next} == t.files;
    }
  }

  lemma NextPositive(t: Table)
    requires Counted(t)
    ensures t.next > 0
  {
  }

  /** Closing keeps the counts; the file goes exactly when no other slot holds it. */
  lemma CloseKeeps(t: Table, fd: int)
    requires Counted(t)
    ensures var c := Close(t, fd);
      && c.Returned? && Counted(c.table) && (c.result == 0 <==> Get(t, fd) != 0) && (c.result != 0 ==> c.table == t)
      && (c.result == 0 ==>
        (Get(t, fd) in c.table.files <==> exists i :: 0 <= i < 32 && i != fd && t.slots[i] == Get(t, fd)))
  {
    hide Holders, CountedBut;
    HeldIsOpen(t, fd);
    if Get(t, fd) != 0 {
      var id, r := Get(t, fd), t.(slots := t.slots[fd := 0]);
      SlotLost(t, fd);
      FileCloseCounts(r, id);
      HeldSomewhere(r.slots, id);
      assert forall i :: 0 <= i < 32 ==> (r.slots[i] == id <==> i != fd && t.slots[i] == id);
    }
  }

  /** One more holder and one more count. */
  lemma SlotShared(t: Table, i: nat, id: nat)
    requires Counted(t) && i < 32 && t.slots[i] == 0 && id in t.files
    ensures Counted(t.(slots := t.slots[i := id], files := t.files[id := t.files[id].(ref := t.files[id].ref + 1)]))
  {
    hide Holders;
    var r := t.(slots := t.slots[i := id], files := t.files[id := t.files[id].(ref := t.files[id].ref + 1)]);
    forall k | k in t.files ensures Holders(r.slots, k) == Holders(t.slots, k) + (if k == id then 1 else 0) {
      HoldersUpdate(t.slots, i, id, k);
    }
    assert forall v: nat :: FilesOn(r, v) == FilesOn(t, v);
  }

  /** `dup2` to another descriptor: first a close of it, if it was open, then one more holder. */
  lemma Dup2IsCloseAndShare(t: Table, oldfd: int, newfd: int)
    requires Counted(t) && Get(t, oldfd) != 0 && 0 <= newfd < 32 && newfd != oldfd && Close(t, newfd).Returned?
    ensures var id, c := Get(t, oldfd), Close(t, newfd).table;
      && Counted(c) && c.slots[newfd] == 0 && id in c.files
      && Dup2(t, oldfd, newfd) == Returned(
        c.(slots := c.slots[newfd := id], files := c.files[id := c.files[id].(ref := c.files[id].ref + 1)]), newfd)
  {
    hide Holders, CountedBut;
    CloseKeeps(t, newfd);
    HeldIsOpen(t, oldfd);
    var id, c := Get(t, oldfd), Close(t, newfd).table;
    if t.slots[newfd] != 0 {
      assert t.slots[newfd] in t.files && c.slots == t.slots[newfd := 0];
      assert c.slots[oldfd] == id && id in c.files;
      assert c.slots[newfd := id] == t.slots[newfd := id];
    }
  }

  lemma HeldIsOpen(t: Table, fd: int)
    requires Counted(t)
    ensures (Get(t, fd) != 0 <==> Get(t, fd) in t.files) && 0 !in t.files
  {
  }

  /** The slot is the only holder of its file. */
  predicate SoleHolder(t: Table, fd: int) { Get(t, fd) in t.files && t.files[Get(t, fd)].ref == 1 }

  /**
   `dup2` stays clear of freed memory, and then keeps the counts, if and only if it does not name
   one descriptor twice, the only holder of its file: such a file is released before its count is
   raised.
   */
  lemma Dup2Keeps(t: Table, oldfd: int, newfd: int)
    requires Counted(t)
    ensures Dup2(t, oldfd, newfd).Returned? <==> !(oldfd == newfd && SoleHolder(t, oldfd))
    ensures Dup2(t, oldfd, newfd).Returned? ==> Counted(Dup2(t, oldfd, newfd).table)
  {
    hide Counted, Dup2, Close;
    HeldIsOpen(t, oldfd);
    if newfd == oldfd {
      Dup2Self(t, oldfd);
    } else if Get(t, oldfd) != 0 && 0 <= newfd < 32 {
      CloseKeeps(t, newfd);
      Dup2IsCloseAndShare(t, oldfd, newfd);
      SlotShared(Close(t, newfd).table, newfd, Get(t, oldfd));
    } else {
      Dup2Refused(t, oldfd, newfd);
    }
  }

  lemma Dup2Refused(t: Table, oldfd: int, newfd: int)
    requires Get(t, oldfd) == 0 || !(0 <= newfd < 32)
    ensures Dup2(t, oldfd, newfd) == Returned(t, EBADF)
  {
  }

  /** Lowered and raised again, the count is as before, unless the file went in between. */
  lemma Dup2Self(t: Table, fd: int)
    requires Counted(t)
    ensures Dup2(t, fd, fd) == if SoleHolder(t, fd) then UsesFreed
      else Returned(t, if Get(t, fd) == 0 then EBADF else fd)
  {
    HeldIsOpen(t, fd);
    var id := Get(t, fd);
    if id != 0 && t.files[id].ref != 1 {
      var r := Dup2(t, fd, fd).table;
      assert r.slots == t.slots && r.files == t.files;
    }
  }

  // ---- whole runs

  datatype Call = Opens(vnode: nat) | Closes(fd: int) | Dups(oldfd: int, newfd: int)

  function After(t: Table, c: Call): Outcome {
    match c
    case Opens(v) => Returned(Open(t, v).0, Open(t, v).1)
    case Closes(fd) => Close(t, fd)
    case Dups(o, n) => Dup2(t, o, n)
  }

  function Run(t: Table, calls: seq<Call>): Outcome
    decreases |calls|
  {
    if calls == [] then Returned(t, 0)
    else
      match After(t, calls[0])
      case UsesFreed => UsesFreed
      case Returned(r, _) => Run(r, calls[1..])
  }

  /** No call of the run is a `dup2` of a descriptor that alone holds its file onto itself. */
  predicate NoSelfDup(t: Table, calls: seq<Call>)
    decreases |calls|
  {
    calls != [] ==>
      && !(calls[0].Dups? && calls[0].oldfd == calls[0].newfd && SoleHolder(t, calls[0].oldfd))
      && (After(t, calls[0]).Returned? ==> NoSelfDup(After(t, calls[0]).table, calls[1..]))
  }

  /**
   Over every run of open, close and dup2: no freed file is used if and only if no sole holder is
   duplicated onto itself, and then each open file counts the slots that hold it, it is open exactly
   as long as one does, and each vnode counts its open files.
   */
  lemma {:induction false} EveryRunCounts(t: Table, calls: seq<Call>)
    requires Counted(t)
    ensures Run(t, calls).Returned? <==> NoSelfDup(t, calls)
    ensures Run(t, calls).Returned? ==> Counted(Run(t, calls).table)
    decreases |calls|
  {
    hide Counted, Open, Close, Dup2, SoleHolder;
    if calls != [] {
      var c := calls[0];
      match c {
        case Opens(v) => OpenKeeps(t, v);
        case Closes(fd) => CloseKeeps(t, fd);
        case Dups(o, n) => Dup2Keeps(t, o, n);
      }
      if After(t, c).Returned? { EveryRunCounts(After(t, c).table, calls[1..]); }
    }
  }

  /** Such a run: a file opened and its descriptor duplicated onto itself. */
  lemma SelfDupUsesFreed(v: nat)
    ensures Run(EMPTY, [Opens(v), Dups(0, 0)]) == UsesFreed
  {
    EmptyIsCounted();
    OpenKeeps(EMPTY, v);
    var t := Open(EMPTY, v).0;
    assert FirstEmpty(EMPTY.slots, 0) == 0;
    assert Get(t, 0) == 1 && SoleHolder(t, 0);
    Dup2Keeps(t, 0, 0);
    var calls := [Opens(v), Dups(0, 0)];
    assert calls[1..] == [Dups(0, 0)];
    assert After(EMPTY, calls[0]) == Returned(t, 0);
    assert Run(t, calls[1..]) == UsesFreed;
  }
}
