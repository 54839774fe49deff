/**
 The descriptor calls of syscall/syscall.c as they run, on a slot array and counted files.
 */
module FdsCode {
  import opened Fds

  class Process {
    const fds: array<nat>
    var files: map<nat, File>
    var refs: map<nat, int>
    var next: nat

    ghost predicate Ok() { fds.Length == 32 }

    ghost function View(): Table
      requires Ok()
      reads this, fds
    {
      Table(fds[..], files, refs, next)
    }

    constructor ()
      ensures Ok() && View() == EMPTY
    {
      fds := new nat[32](_ => 0);
      files, refs, next := map[], map[], 1;
    }

    method FdGet(fd: int) returns (id: nat)
      requires Ok()
      ensures id == Get(View(), fd)
    {
      if fd < 0 || fd >= MAX_FDS { return 0; }
      id := fds[fd];
    }

    method FdAlloc(id: nat) returns (fd: int)
      requires Ok()
      modifies fds
      ensures var i := FirstEmpty(old(fds[..]), 0);
        if i == 32 then fd == EMFILE && fds[..] == old(fds[..]) else fd == i && fds[..] == old(fds[..])[i := id]
    {
      var i := 0;
      while i < MAX_FDS
        invariant i <= 32 && fds[..] == old(fds[..]) && FirstEmpty(fds[..], 0) == FirstEmpty(fds[..], i)
      {
        if fds[i] == 0 {
          fds[i] := id;
          return i;
        }
        i := i + 1;
      }
      fd := EMFILE;
    }

    /** The end of `file_open`. */
    method FileOpen(v: nat) returns (id: nat)
      requires Ok()
      modifies `files, `refs, `next
      ensures View() == Fds.FileOpen(old(View()), v) && id == old(next)
    {
      id := next;
      next := next + 1;
      files := files[id := File(v, 1)];
      refs := refs[v := (if v in refs then refs[v] else 0) + 1];
    }

    method FileClose(id: nat)
      requires Ok() && id in files
      modifies `files, `refs
      ensures View() == Fds.FileClose(old(View()), id)
    {
      var f := files[id];
      f := f.(ref := f.ref - 1);
      if f.ref <= 0 {
        refs := refs[f.vnode := (if f.vnode in refs then refs[f.vnode] else 0) - 1];
        files := files - {id};
      } else {
        files := files[id := f];
      }
    }

    method SysOpen(v: nat) returns (fd: int)
      requires Ok()
      modifies this, fds
      ensures Open(old(View()), v) == (View(), fd)
    {
      var id := FileOpen(v);
      hide FirstEmpty;
      fd := FdAlloc(id);
      if fd < 0 { FileClose(id); }
    }

    method SysClose(fd: int) returns (r: int)
      requires Ok() && Close(View(), fd).Returned?
      modifies this, fds
      ensures Close(old(View()), fd) == Returned(View(), r)
    {
      var id := FdGet(fd);
      if id == 0 { return EBADF; }
      fds[fd] := 0;
      FileClose(id);
      r := 0;
    }

    method SysDup2(oldfd: int, newfd: int) returns (r: int)
      requires Ok() && Dup2(View(), oldfd, newfd).Returned?
      modifies this, fds
      ensures Dup2(old(View()), oldfd, newfd) == Returned(View(), r)
    {
      var id := FdGet(oldfd);
      if id == 0 { return EBADF; }
      if newfd < 0 || newfd >= MAX_FDS { return EBADF; }
      if fds[newfd] != 0 { FileClose(fds[newfd]); }
      fds[newfd] := id;
      files := files[id := files[id].(ref := files[id].ref + 1)];
      r := newfd;
    }
  }
}
