/**
 The name side of fs/vfs.c, fs/ramfs.c and syscall/syscall.c as it runs: the lookup loop with its
 part buffer, the scans over children, and the scans for the last slash.
 */
module FsCode {
  import opened FsPath
  import opened FsTree

  class Vfs {
    var nodes: seq<Node>
    var root: nat
    var freed: set<nat>

    ghost function View(): Tree
      reads this
    {
      Tree(nodes, root, freed)
    }

    /** `vfs_mount("/", ramfs_create_root())` */
    constructor ()
      ensures View() == Tree([Node("/", true, [], NoMount)], 0, {})
    {
      nodes, root, freed := [Node("/", true, [], NoMount)], 0, {};
    }

    // ---- fs/vfs.c

    /** Copies characters up to the next slash and passes over that slash. */
    method CutPart(path: string, start: nat) returns (part: string, p: nat)
      requires start < |path|
      ensures start < p <= |path| && Components(path[start..]) == Part(part) + Components(path[p..])
    {
      hide Components, Part;
      part, p := "", start;
      while p < |path| && path[p] != '/'
        invariant start <= p <= |path| && part == path[start..p] && NoSlash(part)
      {
        part := part + [path[p]];
        p := p + 1;
      }
      CutIs(path, start, p);
      if p < |path| { p := p + 1; }
    }

    /** One part: passed over, or looked up below what is mounted at the node. */
    method VisitPart(node: nat, part: string) returns (f: Found)
      ensures f == Visited(View(), node, part)
    {
      if part == "" || part == "." || part == ".." { return Found(node); }
      var n := node;
      if n < |nodes| && nodes[n].mount.MountedOn? { n := nodes[n].mount.root; }
      f := RamfsFindDir(n, part);
    }

    method VfsLookup(path: string) returns (r: Found)
      ensures r == Lookup(View(), path)
    {
      ghost var t := View();
      var node: nat, p: nat := root, 0;
      if |path| > 0 && path[0] == '/' { p := 1; }
      StartOf(path, p);
      NoMore(path[|path|..]);
      hide Components, Walk, Visited;
      while p < |path|
        invariant p <= |path| && Walk(t, t.root, Components(path)) == Walk(t, node, Components(path[p..]))
      {
        var part;
        part, p := CutPart(path, p);
        WalkPart(t, node, part, Components(path[p..]));
        var f := VisitPart(node, part);
        if f.Missing? { return Missing; }
        node := f.node;
      }
      WalkDone(t, node);
      if node < |nodes| && nodes[node].mount.MountedOn? { node := nodes[node].mount.root; }
      r := Found(node);
    }

    /** The length of the path in front of the last name. */
    method FindLastSlash(path: string) returns (k: nat)
      requires path != ""
      ensures k == Cut(path)
    {
      k := |path| - 1;
      while k > 0 && path[k] != '/'
        invariant k < |path| && LastSlash(path, |path| - 1) == LastSlash(path, k)
      {
        k := k - 1;
      }
    }

    /** The node `file_open` opens, created if it is absent and `create` is asked for. */
    method OpenNode(path: string, create: bool) returns (f: Found)
      requires path != ""
      modifies this
      ensures FsTree.OpenNode(old(View()), path, create) == (View(), f)
    {
      hide Lookup, Create, Components, FindDir;
      ghost var t := View();
      f := VfsLookup(path);
      if f.Found? || !create { return; }
      var slash := FindLastSlash(path);
      var plen := if slash == 0 then 1 else slash;
      var parent := VfsLookup(if plen > 1 then path[..plen] else "/");
      if parent.Missing? { return; }
      var e := RamfsCreate(parent.node, path[slash + 1..], false);
      FailedCreate(t, parent.node, path[slash + 1..], false);
      if !e.Ok? { return; }
      f := RamfsFindDir(parent.node, path[slash + 1..]);
    }

    method VfsMount(path: string, fsRoot: nat) returns (e: Error)
      requires path != ""
      modifies this
      ensures MountAt(old(View()), path, fsRoot) == (View(), e)
    {
      if path == "/" {
        root := fsRoot;
        return Ok;
      }
      var f := VfsLookup(path);
      if f.Missing? || f.node >= |nodes| { return NoEntry; }
      nodes := nodes[f.node := nodes[f.node].(mount := MountedOn(fsRoot))];
      e := Ok;
    }

    // ---- fs/ramfs.c

    method RamfsFindDir(n: nat, name: string) returns (f: Found)
      ensures f == FindDir(View(), n, name)
    {
      if n >= |nodes| || !nodes[n].dir { return Missing; }
      var cs, i := nodes[n].children, 0;
      while i < |cs|
        invariant i <= |cs| && IndexOf(View(), cs, name, 0) == IndexOf(View(), cs, name, i)
      {
        if (if cs[i] < |nodes| then nodes[cs[i]].name else "/") == name { return Found(cs[i]); }
        i := i + 1;
      }
      f := Missing;
    }

    method RamfsCreate(parent: nat, name: string, dir: bool) returns (e: Error)
      modifies this
      ensures Create(old(View()), parent, name, dir) == (View(), e)
    {
      if parent >= |nodes| || !nodes[parent].dir { return NotDir; }
      if |nodes[parent].children| >= MAX_CHILDREN { return NoSpace; }
      var child := |nodes|;
      var p := nodes[parent];
      nodes := nodes[parent := p.(children := p.children + [child])] + [Node(name, dir, [], NoMount)];
      e := Ok;
    }

    method RamfsUnlink(parent: nat, name: string) returns (e: Error)
      modifies this
      ensures Unlink(old(View()), parent, name) == (View(), e)
    {
      if parent >= |nodes| { return NoEntry; }
      var p, i := nodes[parent], 0;
      var cs := p.children;
      while i < |cs|
        invariant i <= |cs| && View() == old(View()) && IndexOf(View(), cs, name, 0) == IndexOf(View(), cs, name, i)
      {
        if (if cs[i] < |nodes| then nodes[cs[i]].name else "/") == name {
          freed := freed + {cs[i]};
          nodes := nodes[parent := p.(children := cs[i := cs[|cs| - 1]][..|cs| - 1])];
          return Ok;
        }
        i := i + 1;
      }
      e := NoEntry;
    }

    // ---- syscall/syscall.c

    method SysMkdir(path: string) returns (e: Error)
      requires path != ""
      modifies this
      ensures Mkdir(old(View()), path) == (View(), e)
    {
      hide Lookup, Create, Components;
      var slash := FindLastSlash(path);
      var parent := VfsLookup(if slash == 0 then "/" else path[..slash]);
      if parent.Missing? { return NoEntry; }
      e := RamfsCreate(parent.node, if path[slash] == '/' then path[slash + 1..] else path[slash..], true);
    }

    method SysUnlink(path: string) returns (e: Error)
      requires path != ""
      modifies this
      ensures UnlinkPath(old(View()), path) == (View(), e)
    {
      hide Lookup, Unlink, Components;
      var slash := FindLastSlash(path);
      var parent := VfsLookup(if slash == 0 then "/" else path[..slash]);
      if parent.Missing? { return NoEntry; }
      e := RamfsUnlink(parent.node, if path[slash] == '/' then path[slash + 1..] else path);
    }
  }

  lemma NoMore(s: string)
    requires s == ""
    ensures Components(s) == []
  {
  }

  /** A part without a slash, up to a slash or the end, is the first of the path from there on. */
  lemma CutIs(path: string, start: nat, p: nat)
    requires start < |path| && start <= p <= |path| && NoSlash(path[start..p]) && (p < |path| ==> path[p] == '/')
    ensures Components(path[start..]) == Part(path[start..p]) + Components(path[if p < |path| then p + 1 else p..])
  {
    var rest := path[start..];
    assert rest[..p - start] == path[start..p];
    SlashIs(rest, p - start);
    if p < |path| { assert rest[p - start + 1..] == path[p + 1..]; }
  }

  /** Where one part leads from node n. */
  function Visited(t: Tree, n: nat, part: string): Found {
    if Skipped(part) then Found(n) else FindDir(t, Enter(t, n), part)
  }

  lemma WalkPart(t: Tree, n: nat, part: string, names: seq<string>)
    ensures Walk(t, n, Part(part) + names) ==
      match Visited(t, n, part) case Missing => Missing case Found(m) => Walk(t, m, names)
  {
    if Skipped(part) { assert Part(part) + names == names; } else { assert (Part(part) + names)[1..] == names; }
  }

  /** A leading slash may be passed over. */
  lemma StartOf(path: string, p: nat)
    requires p == if |path| > 0 && path[0] == '/' then 1 else 0
    ensures Components(path) == Components(path[p..])
  {
    if p == 1 {
      assert path == "/" + path[1..];
      LeadingSlash(path[1..]);
    } else {
      assert path[0..] == path;
    }
  }

  lemma FailedCreate(t: Tree, parent: nat, name: string, dir: bool)
    ensures !Create(t, parent, name, dir).1.Ok? ==> Create(t, parent, name, dir).0 == t
  {
  }

  lemma WalkDone(t: Tree, n: nat)
    ensures Walk(t, n, []) == Found(n)
  {
  }
}
