/**
 What each descriptor call leaves: which slot holds which file, the file's vnode and count, the
 vnode's count, and that no other slot, file or vnode is touched.
 */
module FdsMeaning {
  import opened Fds

  /** Slot fd is the first empty one. */
  predicate LowestFree(t: Table, fd: int) {
    0 <= fd < 32 && t.slots[fd] == 0 && forall i :: 0 <= i < fd ==> t.slots[i] != 0
  }

  predicate InUse(t: Table, fd: int) { 0 <= fd < 32 && t.slots[fd] != 0 }

  /** Only the files and the vnode named may have changed. */
  ghost predicate Untouched(t: Table, r: Table, ids: set<nat>, vs: set<nat>) {
    && (forall k: nat :: k !in ids ==> (k in r.files <==> k in t.files) && (k in t.files ==> r.files[k] == t.files[k]))
    && (forall w: nat :: w !in vs ==> RefCount(r, w) == RefCount(t, w))
  }

  /** `open` answers with the lowest free descriptor, which then holds a new file on that vnode, counted once. */
  lemma OpenMeaning(t: Table, v: nat, fd: nat)
    requires Counted(t) && LowestFree(t, fd)
    ensures var (r, got) := Open(t, v);
      && got == fd && r.slots == t.slots[fd := t.next] && r.next == t.next + 1
      && t.next !in t.files && t.next in r.files && r.files[t.next] == File(v, 1)
      && RefCount(r, v) == RefCount(t, v) + 1 && Untouched(t, r, {t.next}, {v})
  {
    NotHeld(t);
    hide Counted, Holders;
    assert FirstEmpty(t.slots, 0) == fd;
  }

  /** With no descriptor left it answers EMFILE, and slots, files and vnodes are as they were. */
  lemma OpenRefused(t: Table, v: nat)
    requires Counted(t) && forall i :: 0 <= i < 32 ==> t.slots[i] != 0
    ensures var (r, got) := Open(t, v);
      got == -24 && r.slots == t.slots && r.next == t.next + 1 && Untouched(t, r, {}, {})
  {
    hide Counted, Holders, Open;
    NoneFree(t, v);
    OpenKeeps(t, v);
  }

  lemma NoneFree(t: Table, v: nat)
    requires forall i :: 0 <= i < 32 ==> t.slots[i] != 0
    ensures Open(t, v).1 == -24 && Open(t, v).0.next == t.next + 1
  {
    assert FirstEmpty(t.slots, 0) == 32;
  }

  /** r is t after one holder of file id has let go of it. */
  ghost predicate LetGo(t: Table, r: Table, id: nat)
    requires id in t.files
  {
    var f := t.files[id];
    && Untouched(t, r, {id}, {f.vnode})
    && (if f.ref > 1 then
          id in r.files && r.files[id] == f.(ref := f.ref - 1) && RefCount(r, f.vnode) == RefCount(t, f.vnode)
        else id !in r.files && RefCount(r, f.vnode) == RefCount(t, f.vnode) - 1)
  }

  lemma FileCloseLetsGo(t: Table, id: nat)
    requires id in t.files
    ensures LetGo(t, FileClose(t, id), id) && FileClose(t, id).slots == t.slots && FileClose(t, id).next == t.next
  {
  }

  /** `close` empties the slot and lets go of its file, or answers EBADF and changes nothing. */
  lemma CloseMeaning(t: Table, fd: int)
    requires Counted(t)
    ensures InUse(t, fd) ==>
      var c := Close(t, fd);
      && c.Returned? && c.result == 0 && c.table.slots == t.slots[fd := 0] && c.table.next == t.next
      && t.slots[fd] in t.files && LetGo(t, c.table, t.slots[fd])
    ensures !InUse(t, fd) ==> Close(t, fd) == Returned(t, -9)
  {
    HeldIsOpen(t, fd);
    if InUse(t, fd) { FileCloseLetsGo(t.(slots := t.slots[fd := 0]), t.slots[fd]); }
  }

  /** r is t with one holder more on file id. */
  ghost predicate TakenUp(t: Table, r: Table, id: nat)
    requires id in t.files
  {
    id in r.files && r.files[id] == t.files[id].(ref := t.files[id].ref + 1) && Untouched(t, r, {id}, {})
  }

  /** A bad descriptor on either side of `dup2` is refused and changes nothing. */
  lemma Dup2Bad(t: Table, oldfd: int, newfd: int)
    requires !InUse(t, oldfd) || !(0 <= newfd < 32)
    ensures Dup2(t, oldfd, newfd) == Returned(t, -9)
  {
    Dup2Refused(t, oldfd, newfd);
  }

  /**
   `dup2` to another descriptor: that one holds the file of the first, which counts one holder more,
   once whatever it held before has been let go.
   */
  lemma Dup2Meaning(t: Table, oldfd: int, newfd: int)
    requires Counted(t) && InUse(t, oldfd) && 0 <= newfd < 32 && newfd != oldfd
    ensures var d, c := Dup2(t, oldfd, newfd), Close(t, newfd);
      && d.Returned? && d.result == newfd && d.table.slots == t.slots[newfd := t.slots[oldfd]] && d.table.next == t.next
      && c.Returned? && t.slots[oldfd] in c.table.files && TakenUp(c.table, d.table, t.slots[oldfd])
  {
    hide Holders, Counted, Dup2, Close, LetGo;
    CloseKeeps(t, newfd);
    Dup2IsCloseAndShare(t, oldfd, newfd);
    CloseSlots(t, newfd);
    Overwritten(t, Close(t, newfd).table, newfd, t.slots[oldfd]);
  }

  lemma CloseSlots(t: Table, fd: int)
    requires Counted(t) && 0 <= fd < 32
    ensures var c := Close(t, fd);
      c.Returned? && c.table.next == t.next && (c.table.slots == t.slots[fd := 0] || c.table.slots == t.slots)
  {
    hide Counted, Close, LetGo;
    CloseMeaning(t, fd);
  }

  lemma Overwritten(t: Table, c: Table, i: nat, id: nat)
    requires i < 32 && (c.slots == t.slots[i := 0] || c.slots == t.slots)
    ensures c.slots[i := id] == t.slots[i := id]
  {
  }
}
