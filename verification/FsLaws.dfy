/**
 The namespace as a map from component lists to nodes: what create, unlink and mount change in
 it, and when they undo each other.
 */
module FsLaws {
  import opened FsPath
  import opened FsTree

  // ---- trees

  ghost predicate NoMounts(t: Tree) { forall n: nat :: n < |t.nodes| ==> t.nodes[n].mount.NoMount? }

  predicate IsChild(t: Tree, n: nat, i: nat, m: nat) {
    n < |t.nodes| && i < |t.nodes[n].children| && t.nodes[n].children[i] == m
  }

  /** Every node hangs at one place only, and the root nowhere. */
  ghost predicate SingleParent(t: Tree) {
    && (forall n: nat, i: nat, m: nat, j: nat, c: nat :: IsChild(t, n, i, c) && IsChild(t, m, j, c) ==>
      n == m && i == j)
    && (forall n: nat, i: nat :: !IsChild(t, n, i, t.root))
  }

  ghost predicate DistinctNames(t: Tree, cs: seq<nat>) {
    forall i, j :: 0 <= i < j < |cs| ==> NameAt(t, cs[i]) != NameAt(t, cs[j])
  }

  ghost predicate UniqueNames(t: Tree) { forall n: nat :: n < |t.nodes| ==> DistinctNames(t, t.nodes[n].children) }

  /** No link in use leads to a freed node. */
  ghost predicate NoDangling(t: Tree) {
    && t.root !in t.freed && (forall m <- t.freed :: m < |t.nodes|)
    && (forall n: nat, i: nat, m: nat :: IsChild(t, n, i, m) && n !in t.freed ==> m !in t.freed)
  }

  ghost predicate ProperTree(t: Tree) {
    Closed(t) && NoMounts(t) && SingleParent(t) && UniqueNames(t) && NoDangling(t)
  }

  /** In a proper tree no path leads to a freed node. */
  lemma {:induction false} WalkFindsLive(t: Tree, n: nat, names: seq<string>)
    requires NoMounts(t) && NoDangling(t) && n !in t.freed && Walk(t, n, names).Found?
    ensures Walk(t, n, names).node !in t.freed
    decreases |names|
  {
    if names != [] {
      FindDirIsChild(t, n, names[0]);
      WalkFindsLive(t, FindDir(t, n, names[0]).node, names[1..]);
    }
  }

  lemma FindDirIsChild(t: Tree, n: nat, name: string)
    requires FindDir(t, n, name).Found?
    ensures exists i: nat :: IsChild(t, n, i, FindDir(t, n, name).node)
    ensures NameAt(t, FindDir(t, n, name).node) == name
  {
    var k := IndexOf(t, t.nodes[n].children, name, 0);
    assert IsChild(t, n, k, t.nodes[n].children[k]);
  }

  lemma {:induction false} WalkStays(t: Tree, n: nat, names: seq<string>)
    requires Closed(t) && n < |t.nodes| && Walk(t, n, names).Found?
    ensures Walk(t, n, names).node < |t.nodes|
    decreases |names|
  {
    if names != [] {
      var m := FindDir(t, Enter(t, n), names[0]).node;
      FindDirIsChild(t, Enter(t, n), names[0]);
      WalkStays(t, m, names[1..]);
    }
  }

  /** The last step of a walk. */
  lemma WalkLast(t: Tree, n: nat, names: seq<string>)
    requires NoMounts(t) && names != [] && Walk(t, n, names).Found?
    ensures var p := names[..|names| - 1];
      && Walk(t, n, p).Found?
      && FindDir(t, Walk(t, n, p).node, names[|names| - 1]) == Walk(t, n, names)
  {
    var p, x := names[..|names| - 1], names[|names| - 1];
    assert names == p + [x];
    WalkJoin(t, n, p, [x]);
  }

  /** In a tree no two paths lead to the same node. */
  lemma {:induction false} UniquePath(t: Tree, p: seq<string>, q: seq<string>)
    requires Closed(t) && NoMounts(t) && SingleParent(t)
    requires Walk(t, t.root, p).Found? && Walk(t, t.root, p) == Walk(t, t.root, q)
    ensures p == q
    decreases |p| + |q|
  {
    if p != [] {
      WalkLast(t, t.root, p);
      FindDirIsChild(t, Walk(t, t.root, p[..|p| - 1]).node, p[|p| - 1]);
    }
    if q != [] {
      WalkLast(t, t.root, q);
      FindDirIsChild(t, Walk(t, t.root, q[..|q| - 1]).node, q[|q| - 1]);
    }
    if p != [] && q != [] {
      UniquePath(t, p[..|p| - 1], q[..|q| - 1]);
      assert p == p[..|p| - 1] + [p[|p| - 1]] && q == q[..|q| - 1] + [q[|q| - 1]];
    }
  }

  // ---- create

  /** The names lead from n to `name` in directory `parent`. */
  predicate LeadsTo(t: Tree, n: nat, names: seq<string>, parent: nat, name: string) {
    names != [] && names[|names| - 1] == name && Walk(t, n, names[..|names| - 1]) == Found(parent)
  }

  lemma LeadsToStep(t: Tree, n: nat, names: seq<string>, parent: nat, name: string)
    requires NoMounts(t) && names != []
    ensures LeadsTo(t, n, names, parent, name) <==>
      if |names| == 1 then n == parent && names[0] == name
      else FindDir(t, n, names[0]).Found? && LeadsTo(t, FindDir(t, n, names[0]).node, names[1..], parent, name)
  {
    if |names| > 1 {
      assert names[..|names| - 1][1..] == names[1..][..|names| - 2] && names[..|names| - 1][0] == names[0];
    }
  }

  lemma CreateFinds(t: Tree, parent: nat, name: string, dir: bool, n: nat, x: string)
    requires Closed(t) && Create(t, parent, name, dir).1.Ok? && n < |t.nodes|
    ensures FindDir(Create(t, parent, name, dir).0, n, x) ==
      if n == parent && x == name && FindDir(t, parent, name).Missing? then Found(|t.nodes|) else FindDir(t, n, x)
  {
    var r, cs := Create(t, parent, name, dir).0, t.nodes[n].children;
    assert forall i :: 0 <= i < |cs| ==> NameAt(r, cs[i]) == NameAt(t, cs[i]);
    assert NameAt(r, |t.nodes|) == name;
    IndexSame(t, r, cs, r.nodes[n].children, x, 0);
  }

  /** The search finds the same in a longer list of the same beginning, or something new behind it. */
  lemma {:induction false} IndexSame(t: Tree, r: Tree, cs: seq<nat>, ds: seq<nat>, x: string, i: nat)
    requires i <= |cs| && cs <= ds && forall j :: 0 <= j < |cs| ==> NameAt(r, cs[j]) == NameAt(t, cs[j])
    ensures IndexOf(t, cs, x, i) < |cs| ==> IndexOf(r, ds, x, i) == IndexOf(t, cs, x, i)
    ensures IndexOf(t, cs, x, i) == |cs| ==> IndexOf(r, ds, x, i) == IndexOf(r, ds, x, |cs|)
    decreases |cs| - i
  {
    if i < |cs| { IndexSame(t, r, cs, ds, x, i + 1); }
  }

  lemma {:induction false} CreateWalk(t: Tree, parent: nat, name: string, dir: bool, n: nat, names: seq<string>)
    requires Closed(t) && NoMounts(t) && Create(t, parent, name, dir).1.Ok? && n < |t.nodes|
    ensures Walk(Create(t, parent, name, dir).0, n, names) ==
      if LeadsTo(t, n, names, parent, name) && FindDir(t, parent, name).Missing? then Found(|t.nodes|)
        else Walk(t, n, names)
    decreases |names|
  {
    var r := Create(t, parent, name, dir).0;
    if names != [] {
      LeadsToStep(t, n, names, parent, name);
      CreateFinds(t, parent, name, dir, n, names[0]);
      match FindDir(r, n, names[0])
      case Missing =>
      case Found(m) =>
        if m < |t.nodes| {
          CreateWalk(t, parent, name, dir, m, names[1..]);
        } else if |names| > 1 {
          assert FindDir(r, m, names[1]).Missing?;
        }
        if FindDir(t, n, names[0]).Found? { FindDirIsChild(t, n, names[0]); }
    }
  }

  /**
   Creating a name in the directory at `at` makes exactly the path at + [name] resolve to the
   new node if that path was absent, and changes no resolution at all if it was present.
   */
  lemma CreateMeaning(t: Tree, at: seq<string>, name: string, dir: bool, names: seq<string>)
    requires ProperTree(t) && Walk(t, t.root, at).Found? && Create(t, Walk(t, t.root, at).node, name, dir).1.Ok?
    ensures var r := Create(t, Walk(t, t.root, at).node, name, dir).0;
      Walk(r, t.root, names) ==
        if names == at + [name] && Walk(t, t.root, names).Missing? then Found(|t.nodes|) else Walk(t, t.root, names)
  {
    hide Create, Walk, FindDir, UniqueNames, SingleParent;
    var parent := Walk(t, t.root, at).node;
    CreateWalk(t, parent, name, dir, t.root, names);
    LeadsOnlyThere(t, at, names, name);
    WalkTo(t, at, name);
  }

  lemma WalkTo(t: Tree, at: seq<string>, name: string)
    requires NoMounts(t) && Walk(t, t.root, at).Found?
    ensures Walk(t, t.root, at + [name]) == FindDir(t, Walk(t, t.root, at).node, name)
  {
    WalkJoin(t, t.root, at, [name]);
  }

  /** In a tree the name in a directory is at the end of one path only. */
  lemma LeadsOnlyThere(t: Tree, at: seq<string>, names: seq<string>, name: string)
    requires ProperTree(t) && Walk(t, t.root, at).Found?
    ensures LeadsTo(t, t.root, names, Walk(t, t.root, at).node, name) <==> names == at + [name]
  {
    hide Walk;
    if LeadsTo(t, t.root, names, Walk(t, t.root, at).node, name) {
      UniquePath(t, names[..|names| - 1], at);
      assert names == at + [name];
    }
    if names == at + [name] { assert names[..|names| - 1] == at; }
  }

  /** A create keeps the tree proper, siblings' names distinct included, if and only if the name was new. */
  lemma CreateKeepsTree(t: Tree, parent: nat, name: string, dir: bool)
    requires ProperTree(t) && Create(t, parent, name, dir).1.Ok?
    ensures ProperTree(Create(t, parent, name, dir).0) <==> FindDir(t, parent, name).Missing?
  {
    var r, cs := Create(t, parent, name, dir).0, t.nodes[parent].children;
    var ds := r.nodes[parent].children;
    assert forall m: nat :: m < |t.nodes| ==> NameAt(r, m) == NameAt(t, m);
    assert NameAt(r, |t.nodes|) == name && ds == cs + [|t.nodes|];
    forall n: nat, i: nat, m: nat | IsChild(r, n, i, m)
      ensures IsChild(t, n, i, m) || (n == parent && i == |cs| && m == |t.nodes|)
      ensures IsChild(t, n, i, m) ==> m < |t.nodes|
    {
    }
    var k := IndexOf(t, cs, name, 0);
    if k < |cs| { assert NameAt(r, ds[k]) == NameAt(r, ds[|cs|]); }
    forall n: nat | k == |cs| && n < |r.nodes| ensures DistinctNames(r, r.nodes[n].children) {
      if n == parent { DistinctAppend(t, r, cs, |t.nodes|); }
      else if n < |t.nodes| { assert DistinctNames(t, t.nodes[n].children); }
    }
  }

  lemma DistinctAppend(t: Tree, r: Tree, cs: seq<nat>, m: nat)
    requires DistinctNames(t, cs) && forall i :: 0 <= i < |cs| ==> NameAt(r, cs[i]) == NameAt(t, cs[i]) != NameAt(r, m)
    ensures DistinctNames(r, cs + [m])
  {
  }

  // ---- unlink

  lemma DistinctWithout(t: Tree, r: Tree, cs: seq<nat>, k: nat)
    requires k < |cs| && DistinctNames(t, cs) && forall i :: 0 <= i < |cs| ==> NameAt(r, cs[i]) == NameAt(t, cs[i])
    ensures DistinctNames(r, Without(cs, k))
  {
  }

  /** Among distinct names the search finds the node with that name, wherever it stands. */
  lemma IndexDistinct(t: Tree, cs: seq<nat>, x: string, j: nat)
    requires DistinctNames(t, cs) && j < |cs| && NameAt(t, cs[j]) == x
    ensures IndexOf(t, cs, x, 0) == j
  {
  }

  lemma WithoutFinds(t: Tree, r: Tree, cs: seq<nat>, k: nat, x: string)
    requires k < |cs| && DistinctNames(t, cs) && forall i :: 0 <= i < |cs| ==> NameAt(r, cs[i]) == NameAt(t, cs[i])
    ensures var ds, i := Without(cs, k), IndexOf(t, cs, x, 0);
      var j := IndexOf(r, ds, x, 0);
      if x == NameAt(t, cs[k]) || i == |cs| then j == |ds| else j < |ds| && ds[j] == cs[i]
  {
    var ds, i := Without(cs, k), IndexOf(t, cs, x, 0);
    DistinctWithout(t, r, cs, k);
    if x != NameAt(t, cs[k]) && i < |cs| {
      IndexDistinct(r, ds, x, if i == |cs| - 1 then k else i);
    }
  }

  lemma UnlinkFinds(t: Tree, parent: nat, name: string, n: nat, x: string)
    requires ProperTree(t) && Unlink(t, parent, name).1.Ok? && n < |t.nodes|
    ensures FindDir(Unlink(t, parent, name).0, n, x) == if n == parent && x == name then Missing else FindDir(t, n, x)
  {
    var r, cs := Unlink(t, parent, name).0, t.nodes[n].children;
    assert forall m: nat :: NameAt(r, m) == NameAt(t, m);
    if n == parent {
      WithoutFinds(t, r, cs, IndexOf(t, cs, name, 0), x);
    } else {
      IndexSame(t, r, cs, cs, x, 0);
      IndexSame(r, t, cs, cs, x, 0);
    }
  }

  predicate CrossesAt(t: Tree, n: nat, names: seq<string>, parent: nat, name: string, i: nat) {
    i < |names| && LeadsTo(t, n, names[..i + 1], parent, name)
  }

  /** Some step of the walk from n takes the name out of directory parent. */
  ghost predicate Crosses(t: Tree, n: nat, names: seq<string>, parent: nat, name: string) {
    exists i: nat :: CrossesAt(t, n, names, parent, name, i)
  }

  lemma CrossesStep(t: Tree, n: nat, names: seq<string>, parent: nat, name: string)
    requires NoMounts(t) && names != []
    ensures Crosses(t, n, names, parent, name) <==>
      (n == parent && names[0] == name)
      || (FindDir(t, n, names[0]).Found? && Crosses(t, FindDir(t, n, names[0]).node, names[1..], parent, name))
  {
    forall i: nat
      ensures CrossesAt(t, n, names, parent, name, i) <==>
        if i == 0 then n == parent && names[0] == name
        else FindDir(t, n, names[0]).Found? && CrossesAt(t, FindDir(t, n, names[0]).node, names[1..], parent, name,
          i - 1)
    {
      if i < |names| {
        LeadsToStep(t, n, names[..i + 1], parent, name);
        assert names[..i + 1][1..] == names[1..][..i];
      }
    }
    if FindDir(t, n, names[0]).Found? && Crosses(t, FindDir(t, n, names[0]).node, names[1..], parent, name) {
      var i: nat :| CrossesAt(t, FindDir(t, n, names[0]).node, names[1..], parent, name, i);
      assert CrossesAt(t, n, names, parent, name, i + 1);
    }
    if n == parent && names[0] == name { assert CrossesAt(t, n, names, parent, name, 0); }
  }

  lemma {:induction false} UnlinkWalk(t: Tree, parent: nat, name: string, n: nat, names: seq<string>)
    requires ProperTree(t) && Unlink(t, parent, name).1.Ok? && n < |t.nodes|
    ensures Walk(Unlink(t, parent, name).0, n, names) ==
      if Crosses(t, n, names, parent, name) then Missing else Walk(t, n, names)
    decreases |names|
  {
    if names != [] {
      CrossesStep(t, n, names, parent, name);
      UnlinkFinds(t, parent, name, n, names[0]);
      if FindDir(t, n, names[0]).Found? {
        FindDirIsChild(t, n, names[0]);
        UnlinkWalk(t, parent, name, FindDir(t, n, names[0]).node, names[1..]);
      }
    }
  }

  /** Unlinking a name makes its path and everything below it unresolvable, and nothing else. */
  lemma UnlinkMeaning(t: Tree, at: seq<string>, name: string, names: seq<string>)
    requires ProperTree(t) && Walk(t, t.root, at).Found? && Unlink(t, Walk(t, t.root, at).node, name).1.Ok?
    ensures var r := Unlink(t, Walk(t, t.root, at).node, name).0;
      Walk(r, t.root, names) == if at + [name] <= names then Missing else Walk(t, t.root, names)
  {
    hide Unlink, Walk, FindDir, UniqueNames, SingleParent, LeadsTo;
    var parent := Walk(t, t.root, at).node;
    UnlinkWalk(t, parent, name, t.root, names);
    forall i: nat
      ensures CrossesAt(t, t.root, names, parent, name, i) <==> i < |names| && names[..i + 1] == at + [name]
    {
      if i < |names| { LeadsOnlyThere(t, at, names[..i + 1], name); }
    }
    if at + [name] <= names { assert CrossesAt(t, t.root, names, parent, name, |at|); }
  }

  lemma UnlinkKeepsTree(t: Tree, parent: nat, name: string)
    requires ProperTree(t) && Unlink(t, parent, name).1.Ok?
    ensures ProperTree(Unlink(t, parent, name).0)
  {
    hide IndexOf;
    var r, cs := Unlink(t, parent, name).0, t.nodes[parent].children;
    var k := IndexOf(t, cs, name, 0);
    assert forall m: nat :: NameAt(r, m) == NameAt(t, m);
    UnlinkedChildren(t, parent, name);
    forall n: nat | n < |r.nodes| ensures DistinctNames(r, r.nodes[n].children) {
      assert DistinctNames(t, t.nodes[n].children);
      if n == parent { DistinctWithout(t, r, cs, k); }
    }
  }

  lemma UnlinkedChildren(t: Tree, parent: nat, name: string)
    requires ProperTree(t) && Unlink(t, parent, name).1.Ok?
    ensures var r := Unlink(t, parent, name).0; Closed(r) && SingleParent(r) && NoDangling(r)
  {
    hide IndexOf, UniqueNames;
    var r, cs := Unlink(t, parent, name).0, t.nodes[parent].children;
    var k := IndexOf(t, cs, name, 0);
    assert IsChild(t, parent, k, cs[k]);
    forall n: nat, i: nat, m: nat | IsChild(r, n, i, m)
      ensures IsChild(t, n, if n == parent && i == k then |cs| - 1 else i, m) && m != cs[k]
    {
    }
  }

  /** Unlinking what was just created gives every directory back as it was, and the new node to the heap. */
  lemma UnlinkUndoesCreate(t: Tree, parent: nat, name: string, dir: bool)
    requires Closed(t) && Create(t, parent, name, dir).1.Ok? && FindDir(t, parent, name).Missing?
    ensures var r := Create(t, parent, name, dir).0;
      Unlink(r, parent, name) ==
        (t.(nodes := t.nodes + [Node(name, dir, [], NoMount)], freed := t.freed + {|t.nodes|}), Ok)
  {
    var r, cs := Create(t, parent, name, dir).0, t.nodes[parent].children;
    var ds := cs + [|t.nodes|];
    assert forall i :: 0 <= i < |cs| ==> NameAt(r, cs[i]) == NameAt(t, cs[i]);
    assert NameAt(r, |t.nodes|) == name;
    IndexSame(t, r, cs, ds, name, 0);
    assert IndexOf(r, ds, name, 0) == |cs| && Without(ds, |cs|) == cs;
    assert Unlink(r, parent, name).0.nodes == t.nodes + [Node(name, dir, [], NoMount)];
  }

  /**
   Of the nodes that an unlink makes unresolvable exactly the named one is freed: everything below
   a directory stays allocated, and no path leads there any more.
   */
  lemma UnlinkLeaksBelow(t: Tree, at: seq<string>, name: string, names: seq<string>, others: seq<string>)
    requires ProperTree(t) && Walk(t, t.root, at).Found? && Unlink(t, Walk(t, t.root, at).node, name).1.Ok?
    requires at + [name] <= names && Walk(t, t.root, names).Found?
    ensures var r, m := Unlink(t, Walk(t, t.root, at).node, name).0, Walk(t, t.root, names).node;
      Walk(r, t.root, others) != Found(m) && (m in r.freed <==> names == at + [name])
  {
    var parent, m := Walk(t, t.root, at).node, Walk(t, t.root, names).node;
    UnlinkMeaning(t, at, name, others);
    WalkFindsLive(t, t.root, names);
    WalkTo(t, at, name);
    if Walk(t, t.root, others) == Found(m) { UniquePath(t, names, others); }
    if Walk(t, t.root, at + [name]) == Found(m) { UniquePath(t, names, at + [name]); }
    assert names == (at + [name]) + names[|at| + 1..];
    WalkJoin(t, t.root, at + [name], names[|at| + 1..]);
  }

  // ---- by path

  /** A directory with room for one more child is at the end of that walk. */
  predicate TakesChild(t: Tree, at: seq<string>) {
    match Walk(t, t.root, at)
    case Missing => false
    case Found(n) => n < |t.nodes| && t.nodes[n].dir && |t.nodes[n].children| < MAX_CHILDREN
  }

  /**
   `mkdir` succeeds if and only if the parent takes a child, and then adds a node at the end of the
   parent's components and the last name, unless that is there already: it changes nothing else,
   and keeps the tree proper if and only if the name was new.
   */
  lemma MkdirMeaning(t: Tree, path: string, names: seq<string>)
    requires ProperTree(t) && path != ""
    ensures var (r, e), at, name := Mkdir(t, path), Components(ParentPath(path)), NameOf(path);
      && (e.Ok? <==> TakesChild(t, at)) && (e.NoEntry? <==> Walk(t, t.root, at).Missing?)
      && (!e.Ok? ==> r == t)
      && (e.Ok? ==> (ProperTree(r) <==> Walk(t, t.root, at + [name]).Missing?))
      && (e.Ok? ==>
        Walk(r, t.root, names) ==
          if names == at + [name] && Walk(t, t.root, names).Missing? then Found(|t.nodes|) else Walk(t, t.root, names))
  {
    var at := Components(ParentPath(path));
    if Walk(t, t.root, at).Found? {
      WalkStays(t, t.root, at);
      WalkTo(t, at, NameOf(path));
      if Mkdir(t, path).1.Ok? {
        CreateMeaning(t, at, NameOf(path), true, names);
        CreateKeepsTree(t, Walk(t, t.root, at).node, NameOf(path), true);
      }
    }
  }

  /**
   What paths see of it: exactly the paths with the same components lead to the new directory, and
   none does if the last name is "", "." or "..": such a call succeeds and leaves an unreachable node.
   */
  lemma MkdirByPath(t: Tree, path: string, p: string)
    requires ProperTree(t) && path != "" && Mkdir(t, path).1.Ok?
    ensures Lookup(Mkdir(t, path).0, p) ==
      if Components(p) == Components(path) && !Skipped(NameOf(path)) && Lookup(t, path).Missing? then Found(|t.nodes|)
      else Lookup(t, p)
    ensures Skipped(NameOf(path)) && Walk(t, t.root, Components(path) + [NameOf(path)]).Missing? ==>
      Walk(Mkdir(t, path).0, t.root, Components(path) + [NameOf(path)]) == Found(|t.nodes|)
  {
    hide Components, Walk;
    SplitRight(path);
    var at, name := Components(ParentPath(path)), NameOf(path);
    MkdirMeaning(t, path, Components(p));
    MkdirMeaning(t, path, at + [name]);
    MkdirNodes(t, path);
    if Components(p) == at + [name] { ComponentsNamed(p, |at|); }
    if Skipped(name) { assert Components(path) == at; } else { assert Part(name) == [name]; }
    PlainLookup(t, path);
    PlainLookup(t, p);
  }

  /** Without mounts a lookup is a walk. */
  lemma PlainLookup(t: Tree, p: string)
    requires NoMounts(t)
    ensures Lookup(t, p) == Walk(t, t.root, Components(p))
  {
  }

  lemma MkdirNodes(t: Tree, path: string)
    requires NoMounts(t) && path != ""
    ensures NoMounts(Mkdir(t, path).0) && Mkdir(t, path).0.root == t.root
  {
    hide Lookup, Create, NoMounts;
    if Lookup(t, ParentPath(path)).Found? { CreateNodes(t, Lookup(t, ParentPath(path)).node, NameOf(path), true); }
  }

  /** `unlink` succeeds if and only if the name is in the parent, and removes exactly that and what lies below it. */
  lemma UnlinkPathMeaning(t: Tree, path: string, names: seq<string>)
    requires ProperTree(t) && path != ""
    ensures var (r, e), gone := UnlinkPath(t, path), Components(ParentPath(path)) + [NameOf(path)];
      && (e.Ok? <==> Walk(t, t.root, gone).Found?)
      && (!e.Ok? ==> r == t)
      && (e.Ok? ==>
        ProperTree(r) && Walk(r, t.root, names) == if gone <= names then Missing else Walk(t, t.root, names))
  {
    hide Components, Walk, FindDir, Unlink;
    var at, name := Components(ParentPath(path)), NameOf(path);
    WalkJoin(t, t.root, at, [name]);
    PlainLookup(t, ParentPath(path));
    if Walk(t, t.root, at).Found? {
      var n := Walk(t, t.root, at).node;
      WalkStays(t, t.root, at);
      WalkTo(t, at, name);
      UnlinkSucceeds(t, n, name);
      if Unlink(t, n, name).1.Ok? {
        UnlinkMeaning(t, at, name, names);
        UnlinkKeepsTree(t, n, name);
      }
    }
  }

  lemma UnlinkSucceeds(t: Tree, parent: nat, name: string)
    requires Closed(t) && parent < |t.nodes|
    ensures var (r, e) := Unlink(t, parent, name);
      (e.Ok? <==> FindDir(t, parent, name).Found?) && (!e.Ok? ==> r == t)
  {
  }

  /** Unlinking a directory just made restores the former namespace. */
  lemma UnlinkUndoesMkdir(t: Tree, path: string, names: seq<string>)
    requires ProperTree(t) && path != "" && Mkdir(t, path).1.Ok?
    requires Walk(t, t.root, Components(ParentPath(path)) + [NameOf(path)]).Missing?
    ensures UnlinkPath(Mkdir(t, path).0, path).1.Ok?
    ensures Walk(UnlinkPath(Mkdir(t, path).0, path).0, t.root, names) == Walk(t, t.root, names)
  {
    var at, r := Components(ParentPath(path)), Mkdir(t, path).0;
    var parent := Walk(t, t.root, at).node;
    WalkTo(t, at, NameOf(path));
    CreateMeaning(t, at, NameOf(path), true, at);
    assert at != at + [NameOf(path)] by { assert |at + [NameOf(path)]| == |at| + 1; }
    UnlinkUndoesCreate(t, parent, NameOf(path), true);
    OrphanWalk(t, Node(NameOf(path), true, [], NoMount), t.freed + {|t.nodes|}, t.root, names);
  }

  /** A node that hangs nowhere changes no walk. */
  lemma {:induction false} OrphanWalk(t: Tree, orphan: Node, freed: set<nat>, n: nat, names: seq<string>)
    requires Closed(t) && NoMounts(t) && orphan.mount.NoMount? && n < |t.nodes|
    ensures Walk(t.(nodes := t.nodes + [orphan], freed := freed), n, names) == Walk(t, n, names)
    decreases |names|
  {
    var r := t.(nodes := t.nodes + [orphan], freed := freed);
    if names != [] {
      var cs := t.nodes[n].children;
      assert forall i :: 0 <= i < |cs| ==> NameAt(r, cs[i]) == NameAt(t, cs[i]);
      IndexSame(t, r, cs, cs, names[0], 0);
      IndexSame(r, t, cs, cs, names[0], 0);
      if FindDir(t, n, names[0]).Found? {
        FindDirIsChild(t, n, names[0]);
        OrphanWalk(t, orphan, freed, FindDir(t, n, names[0]).node, names[1..]);
      }
    }
  }

  /**
   `open` without O_CREAT is a lookup.  With it a present path changes nothing; an absent one succeeds
   if and only if the directory it is split into takes a child, and adds at most the one node there.
   The path leads to the node just opened if and only if the split keeps it whole.
   */
  lemma OpenMeaning(t: Tree, path: string, names: seq<string>)
    requires ProperTree(t) && path != ""
    ensures OpenNode(t, path, false) == (t, Lookup(t, path))
    ensures var (r, f), at := OpenNode(t, path, true), Components(OpenParent(path));
      var full := at + [LastName(path)];
      && (Lookup(t, path).Found? ==> r == t && f == Lookup(t, path))
      && (f.Missing? ==> r == t)
      && (Lookup(t, path).Missing? ==> (f.Found? <==> TakesChild(t, at)))
      && (Lookup(t, path).Missing? && f.Found? ==>
        && f == (if Walk(t, t.root, full).Missing? then Found(|t.nodes|) else Walk(t, t.root, full))
        && Walk(r, t.root, names) == (if names == full then f else Walk(t, t.root, names))
        && (ProperTree(r) <==> Walk(t, t.root, full).Missing?)
        && (Lookup(r, path) == f <==> SplitsWhole(path)))
  {
    hide Components, SplitsWhole;
    if Lookup(t, path).Missing? {
      var at, name, n := Components(OpenParent(path)), LastName(path), Walk(t, t.root, Components(OpenParent(path)));
      PlainLookup(t, path);
      PlainLookup(t, OpenParent(path));
      if n.Found? {
        WalkStays(t, t.root, at);
        WalkTo(t, at, name);
        if TakesChild(t, at) {
          CreateMeaning(t, at, name, false, names);
          CreateKeepsTree(t, n.node, name, false);
          CreateFinds(t, n.node, name, false, n.node, name);
          OpenedAgain(t, path);
        }
      }
    }
  }

  /** Whether the path of a node just created leads to it. */
  lemma OpenedAgain(t: Tree, path: string)
    requires ProperTree(t) && path != "" && Lookup(t, path).Missing? && TakesChild(t, Components(OpenParent(path)))
    ensures var (r, f) := OpenNode(t, path, true); f.Found? && (Lookup(r, path) == f <==> SplitsWhole(path))
  {
    hide Components, SplitsWhole, Walk, Create, FindDir;
    var at, name := Components(OpenParent(path)), LastName(path);
    var n := Walk(t, t.root, at).node;
    PlainLookup(t, path);
    PlainLookup(t, OpenParent(path));
    CreateNodes(t, n, name, false);
    CreateMeaning(t, at, name, false, Components(path));
    CreateFinds(t, n, name, false, n, name);
    WalkTo(t, at, name);
    OpenNamesPath(path);
    PlainLookup(Create(t, n, name, false).0, path);
  }

  lemma CreateNodes(t: Tree, parent: nat, name: string, dir: bool)
    requires NoMounts(t)
    ensures var (r, e) := Create(t, parent, name, dir); NoMounts(r) && r.root == t.root
    ensures Create(t, parent, name, dir).1.Ok? <==>
      parent < |t.nodes| && t.nodes[parent].dir && |t.nodes[parent].children| < MAX_CHILDREN
  {
  }

  // ---- mount

  /**
   After a mount the path leads to the mounted root, paths through it lead into the mounted tree,
   and all others lead where they did.
   */
  lemma MountMeaning(t: Tree, path: string, root: nat, rest: seq<string>, names: seq<string>)
    requires ProperTree(t) && path != "" && MountAt(t, path, root).1.Ok? && root < |t.nodes|
    requires path == "/" || Walk(t, t.root, Components(path)) != Found(root)
    ensures var r := MountAt(t, path, root).0;
      && Lookup(r, path) == Found(root)
      && (rest != [] ==> Walk(r, r.root, Components(path) + rest) == Walk(r, root, rest))
      && (!(Components(path) <= names) ==> Walk(r, r.root, names) == Walk(t, t.root, names))
  {
    var r, at := MountAt(t, path, root).0, Components(path);
    if path == "/" {
      RootHasNoComponents();
      assert at + rest == rest;
    } else {
      var n := Lookup(t, path).node;
      MountedWalk(t, r, n, root, t.root, at, []);
      WalkJoin(r, t.root, at, rest);
      if !(at <= names) { MountedAside(t, r, n, root, at, t.root, names, []); }
    }
  }

  /** A walk that does not pass the mount point is as before. */
  lemma {:induction false} MountedAside(t: Tree, r: Tree, n: nat, root: nat, at: seq<string>, m: nat,
      names: seq<string>, above: seq<string>)
    requires ProperTree(t) && n < |t.nodes| && r == t.(nodes := t.nodes[n := t.nodes[n].(mount := MountedOn(root))])
    requires Walk(t, t.root, at) == Found(n) && Walk(t, t.root, above) == Found(m) && m < |t.nodes|
    requires !(at <= above + names)
    ensures Walk(r, m, names) == Walk(t, m, names)
    decreases |names|
  {
    hide SingleParent, UniqueNames, NoDangling, NoMounts, FindDir, Enter;
    if names != [] {
      EnterPlain(t, m);
      if m == n { UniquePath(t, at, above); }
      MountedStep(t, r, n, root, m, names[0]);
      if FindDir(t, m, names[0]).Found? {
        ChildIsNode(t, m, names[0]);
        WalkTo(t, above, names[0]);
        assert above + [names[0]] + names[1..] == above + names;
        MountedAside(t, r, n, root, at, FindDir(t, m, names[0]).node, names[1..], above + [names[0]]);
      }
    }
  }

  lemma EnterPlain(t: Tree, m: nat)
    requires NoMounts(t)
    ensures Enter(t, m) == m
  {
  }

  lemma ChildIsNode(t: Tree, m: nat, name: string)
    requires Closed(t) && FindDir(t, m, name).Found?
    ensures FindDir(t, m, name).node < |t.nodes|
  {
  }

  /** The search in a directory other than the mount point finds what it found. */
  lemma MountedStep(t: Tree, r: Tree, n: nat, root: nat, m: nat, name: string)
    requires NoMounts(t) && n < |t.nodes| && r == t.(nodes := t.nodes[n := t.nodes[n].(mount := MountedOn(root))])
    requires m < |t.nodes| && m != n
    ensures Enter(r, m) == m && FindDir(r, m, name) == FindDir(t, m, name)
  {
    var cs := t.nodes[m].children;
    assert forall i: nat :: NameAt(r, i) == NameAt(t, i);
    IndexSame(t, r, cs, cs, name, 0);
    IndexSame(r, t, cs, cs, name, 0);
  }

  lemma LongerDiffers(a: seq<string>, b: seq<string>)
    requires b != []
    ensures a + b != a
  {
    assert |a + b| > |a|;
  }

  /** Up to the mount point itself the walk is as before: no tree path passes a node twice. */
  lemma {:induction false} MountedWalk(t: Tree, r: Tree, n: nat, root: nat, m: nat, names: seq<string>,
      above: seq<string>)
    requires ProperTree(t) && n < |t.nodes| && r == t.(nodes := t.nodes[n := t.nodes[n].(mount := MountedOn(root))])
    requires Walk(t, t.root, above) == Found(m) && m < |t.nodes| && Walk(t, m, names) == Found(n)
    ensures Walk(r, m, names) == Found(n)
    decreases |names|
  {
    if names != [] {
      WalkJoin(t, t.root, above, names);
      if m == n { UniquePath(t, above, above + names); }
      LongerDiffers(above, names);
      MountedStep(t, r, n, root, m, names[0]);
      FindDirIsChild(t, m, names[0]);
      WalkJoin(t, t.root, above, names[..1]);
      assert above + names[..1] + names[1..] == above + names;
      MountedWalk(t, r, n, root, FindDir(t, m, names[0]).node, names[1..], above + names[..1]);
    }
  }
}
