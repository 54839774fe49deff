/**
 Path strings as fs/vfs.c and syscall/syscall.c take them apart: the components the lookup loop
 visits, and the splits into a parent path and a last name.
 */
module FsPath {

  /** Index of the first '/' at or after i, or |path|. */
  function Slash(path: string, i: nat): (k: nat)
    requires i <= |path|
    ensures i <= k <= |path| && (k < |path| ==> path[k] == '/')
    ensures forall j :: i <= j < k ==> path[j] != '/'
    decreases |path| - i
  {
    if i == |path| || path[i] == '/' then i else Slash(path, i + 1)
  }

  /** Parts the lookup passes over; ".." does not go up. */
  predicate Skipped(part: string) { part == "" || part == "." || part == ".." }

  function Part(part: string): seq<string> { if Skipped(part) then [] else [part] }

  /** What follows the first part. */
  function Rest(path: string): (r: string)
    ensures path != "" ==> |r| < |path|
  {
    if Slash(path, 0) < |path| then path[Slash(path, 0) + 1..] else ""
  }

  /** The names a path stands for. */
  function Components(path: string): seq<string>
    decreases |path|
  {
    if path == "" then [] else Part(path[..Slash(path, 0)]) + Components(Rest(path))
  }

  predicate NoSlash(s: string) { forall i :: 0 <= i < |s| ==> s[i] != '/' }

  lemma SlashIs(path: string, k: nat)
    requires k <= |path| && NoSlash(path[..k]) && (k < |path| ==> path[k] == '/')
    ensures Slash(path, 0) == k
  {
    assert forall i :: 0 <= i < k ==> path[i] == path[..k][i];
  }

  /** A path that is one name. */
  lemma OneName(name: string)
    requires NoSlash(name)
    ensures Components(name) == Part(name)
  {
    SlashIs(name, |name|);
    if name != "" { assert name[..|name|] == name; }
  }

  /** Joining two paths with a slash joins their components. */
  lemma {:induction false} ComponentsJoin(p: string, q: string)
    ensures Components(p + "/" + q) == Components(p) + Components(q)
    decreases |p|
  {
    hide Components;
    var all := p + "/" + q;
    var k := Slash(p, 0);
    assert all[..k] == p[..k] && all[k] == '/';
    FirstPart(all, k);
    if k < |p| {
      FirstPart(p, k);
      assert all[k + 1..] == p[k + 1..] + "/" + q;
      ComponentsJoin(p[k + 1..], q);
      assert Part(p[..k]) + (Components(p[k + 1..]) + Components(q)) ==
        (Part(p[..k]) + Components(p[k + 1..])) + Components(q);
    } else {
      assert p[..k] == p && all[k + 1..] == q;
      OneName(p);
    }
  }

  /** The part up to the first slash, and the rest behind it. */
  lemma FirstPart(path: string, k: nat)
    requires k < |path| && NoSlash(path[..k]) && path[k] == '/'
    ensures Components(path) == Part(path[..k]) + Components(path[k + 1..])
  {
    SlashIs(path, k);
  }

  /** No component is a part that the lookup passes over. */
  lemma {:induction false} ComponentsNamed(path: string, i: nat)
    requires i < |Components(path)|
    ensures !Skipped(Components(path)[i])
    decreases |path|
  {
    var p := Part(path[..Slash(path, 0)]);
    if i >= |p| { ComponentsNamed(Rest(path), i - |p|); }
  }

  /** A leading slash makes no difference. */
  lemma LeadingSlash(path: string)
    ensures Components("/" + path) == Components(path)
  {
    ComponentsJoin("", path);
    hide Components;
    assert "" + "/" + path == "/" + path;
    OneName("");
    assert Part("") == [];
  }

  // ---- parent and last name

  /** `slash = path + len - 1; while (slash > path && *slash != '/') slash--` */
  function LastSlash(path: string, i: nat): (k: nat)
    requires i < |path|
    ensures k <= i && (k > 0 ==> path[k] == '/')
    ensures forall j :: k < j <= i ==> path[j] != '/'
  {
    if i == 0 || path[i] == '/' then i else LastSlash(path, i - 1)
  }

  function Cut(path: string): (k: nat)
    requires path != ""
    ensures k < |path| && (k > 0 ==> path[k] == '/') && NoSlash(path[k + 1..])
  {
    LastSlash(path, |path| - 1)
  }

  function LastName(path: string): string
    requires path != ""
  {
    path[Cut(path) + 1..]
  }

  /** The parent of `sys_mkdir` and `sys_unlink`, and the name they use. */
  function ParentPath(path: string): string
    requires path != ""
  {
    if Cut(path) == 0 then "/" else path[..Cut(path)]
  }

  function NameOf(path: string): string
    requires path != ""
  {
    if path[Cut(path)] == '/' then LastName(path) else path
  }

  /** The parent of `file_open`: a single character in front of the last slash counts as the root. */
  function OpenParent(path: string): string
    requires path != ""
  {
    if Cut(path) <= 1 then "/" else path[..Cut(path)]
  }

  lemma CutsInTwo(path: string)
    requires path != "" && path[Cut(path)] == '/'
    ensures Components(path) == Components(path[..Cut(path)]) + Part(LastName(path))
    ensures Cut(path) == 0 ==> Components(path[..Cut(path)]) == []
  {
    var k := Cut(path);
    assert path == path[..k] + "/" + LastName(path);
    ComponentsJoin(path[..k], LastName(path));
    OneName(LastName(path));
  }

  lemma RootHasNoComponents()
    ensures Components("/") == []
  {
    LeadingSlash("");
    assert "/" + "" == "/";
  }

  /** The split of mkdir and unlink names the path's own components, for every path whose last part is a name. */
  lemma SplitRight(path: string)
    requires path != ""
    ensures Components(path) == Components(ParentPath(path)) + Part(NameOf(path))
  {
    RootHasNoComponents();
    if path[Cut(path)] == '/' {
      CutsInTwo(path);
    } else {
      assert NoSlash(path) by { assert forall i :: 1 <= i < |path| ==> path[i] == path[1..][i - 1]; }
      OneName(path);
    }
  }

  /** Absolute, or two characters in front of the last slash, or "./" at the start. */
  predicate SplitsWhole(path: string)
    requires path != ""
  {
    path[0] == '/' || Cut(path) >= 2 || (Cut(path) == 1 && path[0] == '.')
  }

  /**
   The split of `file_open` does so if and only if the path is absolute, or has two characters in
   front of its last slash, or starts "./", or is "." or "..": any other path without a slash
   loses its first character.
   */
  lemma OpenSplitRight(path: string)
    requires path != ""
    ensures Components(path) == Components(OpenParent(path)) + Part(LastName(path)) <==>
      SplitsWhole(path) || Skipped(path)
  {
    hide Components;
    RootHasNoComponents();
    var k := Cut(path);
    if path[k] == '/' {
      CutsInTwo(path);
      if k == 1 { OneCharacter(path[..1]); }
    } else {
      assert NoSlash(path) by { assert forall i :: 1 <= i < |path| ==> path[i] == path[1..][i - 1]; }
      OneName(path);
      OpenParentIsRoot(path);
    }
  }

  /** The path is the parent's components and then the name itself. */
  lemma OpenNamesPath(path: string)
    requires path != ""
    ensures Components(path) == Components(OpenParent(path)) + [LastName(path)] <==>
      SplitsWhole(path) && !Skipped(LastName(path))
    ensures SplitsWhole(path) && Skipped(LastName(path)) ==> Components(path) == Components(OpenParent(path))
  {
    hide Components, SplitsWhole;
    var at, name := Components(OpenParent(path)), LastName(path);
    OpenSplitRight(path);
    if Components(path) == at + [name] { ComponentsNamed(path, |at|); }
    if Skipped(path) { OneName(path); }
  }

  lemma OpenParentIsRoot(path: string)
    requires path != "" && Cut(path) == 0
    ensures OpenParent(path) == "/" && |LastName(path)| == |path| - 1
    ensures Part(path) == Part(LastName(path)) ==> Skipped(path)
  {
    if !Skipped(path) { assert |Part(path)[0]| == |path|; }
  }

  lemma OneCharacter(s: string)
    requires |s| == 1
    ensures Components(s) == [] <==> s[0] == '/' || s[0] == '.'
  {
    if s[0] == '/' {
      assert s == "/";
      RootHasNoComponents();
    } else {
      OneName(s);
    }
  }
}
