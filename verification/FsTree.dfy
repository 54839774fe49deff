/**
 The file tree of fs/ramfs.c under the lookup of fs/vfs.c: nodes, path resolution as a walk
 from the root, and what create, unlink and mount do to the namespace.
 */
module FsTree {
  import opened FsPath

  const MAX_CHILDREN: nat := 64

  /** Nodes are numbered; a mount point stands for the root of what is mounted on it. */
  datatype Node = Node(name: string, dir: bool, children: seq<nat>, mount: Mount)
  datatype Mount = NoMount | MountedOn(root: nat)
  datatype Found = Missing | Found(node: nat)
  datatype Error = Ok | NotDir | NoSpace | NoEntry

  /** All nodes ever allocated, the root, and the nodes given back to the heap. */
  datatype Tree = Tree(nodes: seq<Node>, root: nat, freed: set<nat>)

  /** Links lead to nodes, and only directories have any. */
  ghost predicate Closed(t: Tree) {
    && t.root < |t.nodes|
    && (forall n: nat :: n < |t.nodes| && !t.nodes[n].dir ==> t.nodes[n].children == [])
    && (forall n: nat, i :: n < |t.nodes| && 0 <= i < |t.nodes[n].children| ==> t.nodes[n].children[i] < |t.nodes|)
    && (forall n: nat :: n < |t.nodes| && t.nodes[n].mount.MountedOn? ==> t.nodes[n].mount.root < |t.nodes|)
  }

  // ---- resolution

  /** Index of the first child with that name at or after i, or the number of children. */
  function IndexOf(t: Tree, cs: seq<nat>, name: string, i: nat): (k: nat)
    requires i <= |cs|
    ensures i <= k <= |cs| && (k < |cs| ==> NameAt(t, cs[k]) == name)
    ensures forall j :: i <= j < k ==> NameAt(t, cs[j]) != name
    decreases |cs| - i
  {
    if i == |cs| || NameAt(t, cs[i]) == name then i else IndexOf(t, cs, name, i + 1)
  }

  /** A name no path part has stands for nodes that do not exist. */
  function NameAt(t: Tree, n: nat): string { if n < |t.nodes| then t.nodes[n].name else "/" }

  /** `ramfs_finddir` */
  function FindDir(t: Tree, n: nat, name: string): Found {
    if n >= |t.nodes| || !t.nodes[n].dir then Missing
    else
      var cs := t.nodes[n].children;
      var k := IndexOf(t, cs, name, 0);
      if k < |cs| then Found(cs[k]) else Missing
  }

  /** Through a mount point to what is mounted there. */
  function Enter(t: Tree, n: nat): nat {
    if n < |t.nodes| && t.nodes[n].mount.MountedOn? then t.nodes[n].mount.root else n
  }

  /** From node n along a list of names. */
  function Walk(t: Tree, n: nat, names: seq<string>): Found
    decreases |names|
  {
    if names == [] then Found(n)
    else
      match FindDir(t, Enter(t, n), names[0])
      case Missing => Missing
      case Found(m) => Walk(t, m, names[1..])
  }

  /** `vfs_lookup` */
  function Lookup(t: Tree, path: string): Found {
    match Walk(t, t.root, Components(path))
    case Missing => Missing
    case Found(n) => Found(Enter(t, n))
  }

  lemma {:induction false} WalkJoin(t: Tree, n: nat, p: seq<string>, q: seq<string>)
    ensures Walk(t, n, p + q) == match Walk(t, n, p) case Missing => Missing case Found(m) => Walk(t, m, q)
    decreases |p|
  {
    if p == [] {
      assert p + q == q;
    } else {
      assert (p + q)[1..] == p[1..] + q && (p + q)[0] == p[0];
      match FindDir(t, Enter(t, n), p[0])
      case Missing =>
      case Found(m) => WalkJoin(t, m, p[1..], q);
    }
  }

  /** Resolution composes: a joined path resolves from where its first half leads. */
  lemma LookupJoins(t: Tree, p: string, q: string)
    ensures Lookup(t, p + "/" + q) ==
      match Walk(t, t.root, Components(p))
      case Missing => Missing
      case Found(m) => (match Walk(t, m, Components(q)) case Missing => Missing case Found(n) => Found(Enter(t, n)))
  {
    ComponentsJoin(p, q);
    WalkJoin(t, t.root, Components(p), Components(q));
  }

  // ---- the operations

  /** `ramfs_create`; names are not checked against those already there. */
  function Create(t: Tree, parent: nat, name: string, dir: bool): (Tree, Error) {
    if parent >= |t.nodes| || !t.nodes[parent].dir then (t, NotDir)
    else if |t.nodes[parent].children| >= MAX_CHILDREN then (t, NoSpace)
    else
      var p := t.nodes[parent];
      (t.(nodes := t.nodes[parent := p.(children := p.children + [|t.nodes|])] + [Node(name, dir, [], NoMount)]), Ok)
  }

  /** Child k gives way to the last child. */
  function Without(cs: seq<nat>, k: nat): seq<nat>
    requires k < |cs|
  {
    cs[k := cs[|cs| - 1]][..|cs| - 1]
  }

  /** `ramfs_unlink`; the node itself is freed, what hangs below it is not. */
  function Unlink(t: Tree, parent: nat, name: string): (Tree, Error) {
    if parent >= |t.nodes| then (t, NoEntry)
    else
      var p := t.nodes[parent];
      var k := IndexOf(t, p.children, name, 0);
      if k == |p.children| then (t, NoEntry)
      else
        var nodes := t.nodes[parent := p.(children := Without(p.children, k))];
        (t.(nodes := nodes, freed := t.freed + {p.children[k]}), Ok)
  }

  /** `sys_mkdir` */
  function Mkdir(t: Tree, path: string): (Tree, Error)
    requires path != ""
  {
    match Lookup(t, ParentPath(path))
    case Missing => (t, NoEntry)
    case Found(n) => Create(t, n, NameOf(path), true)
  }

  /** `sys_unlink` */
  function UnlinkPath(t: Tree, path: string): (Tree, Error)
    requires path != ""
  {
    match Lookup(t, ParentPath(path))
    case Missing => (t, NoEntry)
    case Found(n) => Unlink(t, n, NameOf(path))
  }

  /** The part of `file_open` that finds or creates the node. */
  function OpenNode(t: Tree, path: string, create: bool): (Tree, Found)
    requires path != ""
  {
    match Lookup(t, path)
    case Found(n) => (t, Found(n))
    case Missing =>
      if !create then (t, Missing)
      else
        match Lookup(t, OpenParent(path))
        case Missing => (t, Missing)
        case Found(n) =>
          var (r, e) := Create(t, n, LastName(path), false);
          if e.Ok? then (r, FindDir(r, n, LastName(path))) else (t, Missing)
  }

  /** `vfs_mount` of a file system with that root. */
  function MountAt(t: Tree, path: string, root: nat): (Tree, Error)
    requires path != ""
  {
    if path == "/" then (t.(root := root), Ok)
    else
      match Lookup(t, path)
      case Missing => (t, NoEntry)
      case Found(n) => if n < |t.nodes| then (t.(nodes := t.nodes[n := t.nodes[n].(mount := MountedOn(root))]), Ok)
        else (t, NoEntry)
  }
}
