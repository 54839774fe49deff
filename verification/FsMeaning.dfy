/**
 What each name operation leaves in the nodes, for every tree, mounted or not: which node is added,
 taken out or mounted on, and that no other node changes.
 */
module FsMeaning {
  import opened FsPath
  import opened FsTree

  /** A name alone has one component, itself, and "", "." and ".." have none. */
  lemma NameComponents(name: string)
    requires forall i :: 0 <= i < |name| ==> name[i] != '/'
    ensures Components(name) == if name in {"", ".", ".."} then [] else [name]
  {
    OneName(name);
  }

  /** Child k of node n is the first with that name. */
  ghost predicate FirstNamed(t: Tree, n: nat, name: string, k: nat) {
    && n < |t.nodes| && k < |t.nodes[n].children| && NameAt(t, t.nodes[n].children[k]) == name
    && forall j :: 0 <= j < k ==> NameAt(t, t.nodes[n].children[j]) != name
  }

  ghost predicate Holds(t: Tree, n: nat, name: string) {
    n < |t.nodes| && exists k :: 0 <= k < |t.nodes[n].children| && NameAt(t, t.nodes[n].children[k]) == name
  }

  /** A search finds the first child of that name in a directory, and nothing in a file. */
  lemma FindDirMeaning(t: Tree, n: nat, name: string, k: nat)
    ensures FirstNamed(t, n, name, k) && t.nodes[n].dir ==> FindDir(t, n, name) == Found(t.nodes[n].children[k])
    ensures FindDir(t, n, name).Found? <==> Holds(t, n, name) && t.nodes[n].dir
  {
    if n < |t.nodes| { IndexMeaning(t, n, name, k); }
  }

  lemma IndexMeaning(t: Tree, n: nat, name: string, k: nat)
    requires n < |t.nodes|
    ensures FirstNamed(t, n, name, k) ==> IndexOf(t, t.nodes[n].children, name, 0) == k
    ensures IndexOf(t, t.nodes[n].children, name, 0) < |t.nodes[n].children| <==> Holds(t, n, name)
  {
    var i := IndexOf(t, t.nodes[n].children, name, 0);
  }

  // ---- create

  /** r is t with one node more, the last child of `parent`. */
  ghost predicate Adds(t: Tree, r: Tree, parent: nat, name: string, dir: bool) {
    && parent < |t.nodes| && |r.nodes| == |t.nodes| + 1 && r.root == t.root && r.freed == t.freed
    && r.nodes[|t.nodes|] == Node(name, dir, [], NoMount)
    && r.nodes[parent] == t.nodes[parent].(children := t.nodes[parent].children + [|t.nodes|])
    && forall n: nat :: n < |t.nodes| && n != parent ==> r.nodes[n] == t.nodes[n]
  }

  /** Why a directory does not take another child; Ok if it does. */
  function Refusal(t: Tree, parent: Found): Error {
    if parent.Missing? then NoEntry
    else if parent.node >= |t.nodes| || !t.nodes[parent.node].dir then NotDir
    else if |t.nodes[parent.node].children| >= 64 then NoSpace
    else Ok
  }

  /** `ramfs_create` adds a file or an empty directory to a directory with fewer than 64 children, and else nothing. */
  lemma CreateAdds(t: Tree, parent: nat, name: string, dir: bool)
    ensures var (r, e) := Create(t, parent, name, dir);
      e == Refusal(t, Found(parent)) && if e.Ok? then Adds(t, r, parent, name, dir) else r == t
  {
  }

  /** `mkdir` adds an empty directory where the parent path leads, or says why not and changes nothing. */
  lemma MkdirAdds(t: Tree, path: string)
    requires path != ""
    ensures var ((r, e), p) := (Mkdir(t, path), Lookup(t, ParentPath(path)));
      e == Refusal(t, p) && if e.Ok? then Adds(t, r, p.node, NameOf(path), true) else r == t
  {
    hide Create, Lookup, Components;
    var p := Lookup(t, ParentPath(path));
    if p.Found? { CreateAdds(t, p.node, NameOf(path), true); }
  }

  /**
   `open` of a path that resolves gives its node and changes nothing; one that does not is refused
   without O_CREAT, changing nothing; with it a file is added where the parent path leads if that
   takes a child, and the answer is the first child there of that name.
   */
  lemma OpenAdds(t: Tree, path: string, create: bool)
    requires path != ""
    ensures var ((r, f), p) := (OpenNode(t, path, create), Lookup(t, OpenParent(path)));
      if Lookup(t, path).Found? || !create then r == t && f == Lookup(t, path)
      else if Refusal(t, p).Ok? then
        && Adds(t, r, p.node, LastName(path), false)
        && (exists k: nat :: FirstNamed(r, p.node, LastName(path), k) && f == Found(r.nodes[p.node].children[k]))
      else r == t && f.Missing?
  {
    hide Create, Lookup, Components, FindDir, IndexOf;
    var p := Lookup(t, OpenParent(path));
    if Lookup(t, path).Missing? && create && p.Found? {
      CreateAdds(t, p.node, LastName(path), false);
      if Refusal(t, p).Ok? { LastChildFound(t, Create(t, p.node, LastName(path), false).0, p.node, LastName(path)); }
    }
  }

  /** The search for the name just added finds its first bearer. */
  lemma LastChildFound(t: Tree, r: Tree, parent: nat, name: string)
    requires Adds(t, r, parent, name, false) && t.nodes[parent].dir
    ensures exists k: nat ::
      FirstNamed(r, parent, name, k) && FindDir(r, parent, name) == Found(r.nodes[parent].children[k])
  {
    var cs := r.nodes[parent].children;
    assert cs[|t.nodes[parent].children|] == |t.nodes| && NameAt(r, |t.nodes|) == name;
    var k := IndexOf(r, cs, name, 0);
    assert FirstNamed(r, parent, name, k);
  }

  // ---- unlink

  /** r is t without child k of `parent`, whose place the last child takes; the child itself is freed. */
  ghost predicate TakesOut(t: Tree, r: Tree, parent: nat, k: nat)
    requires parent < |t.nodes| && k < |t.nodes[parent].children|
  {
    var cs := t.nodes[parent].children;
    && |r.nodes| == |t.nodes| && r.root == t.root
    && (forall m: nat :: m in r.freed <==> m in t.freed || m == cs[k])
    && (forall n: nat :: n < |t.nodes| && n != parent ==> r.nodes[n] == t.nodes[n])
    && r.nodes[parent] == t.nodes[parent].(children := r.nodes[parent].children)
    && |r.nodes[parent].children| == |cs| - 1
    && (forall j :: 0 <= j < |cs| - 1 ==> r.nodes[parent].children[j] == if j == k then cs[|cs| - 1] else cs[j])
  }

  /** `ramfs_unlink` takes out the first child of that name and frees it, or finds none and changes nothing. */
  lemma UnlinkTakesOut(t: Tree, parent: nat, name: string, k: nat)
    ensures FirstNamed(t, parent, name, k) ==>
      Unlink(t, parent, name).1 == Ok && TakesOut(t, Unlink(t, parent, name).0, parent, k)
    ensures !Holds(t, parent, name) ==> Unlink(t, parent, name) == (t, NoEntry)
  {
    if parent < |t.nodes| { IndexMeaning(t, parent, name, k); }
  }

  /** `unlink` does so where the parent path leads. */
  lemma UnlinkPathTakesOut(t: Tree, path: string, k: nat)
    requires path != ""
    ensures var ((r, e), p) := (UnlinkPath(t, path), Lookup(t, ParentPath(path)));
      && (p.Found? && FirstNamed(t, p.node, NameOf(path), k) ==> e == Ok && TakesOut(t, r, p.node, k))
      && (p.Missing? || !Holds(t, p.node, NameOf(path)) ==> r == t && e == NoEntry)
  {
    hide Unlink, Lookup, Components;
    var p := Lookup(t, ParentPath(path));
    if p.Found? { UnlinkTakesOut(t, p.node, NameOf(path), k); }
  }

  // ---- mount

  /** `vfs_mount` replaces the root, or hangs the file system over the node the path leads to, or finds none. */
  lemma MountHangs(t: Tree, path: string, root: nat)
    requires path != ""
    ensures var ((r, e), f) := (MountAt(t, path, root), Lookup(t, path));
      if path == "/" then e == Ok && r == t.(root := root)
      else if f.Missing? || f.node >= |t.nodes| then e == NoEntry && r == t
      else
        && e == Ok && r == t.(nodes := r.nodes) && |r.nodes| == |t.nodes|
        && (forall n: nat :: n < |t.nodes| ==>
          r.nodes[n] == if n == f.node then t.nodes[n].(mount := MountedOn(root)) else t.nodes[n])
  {
    hide Lookup, Components;
  }
}
