// The namespace of fisopfs (fisopfs/file.c, fisopfs/fisopfs.c): a flat table of inodes with full
// paths, and directory contents that list names. Both must describe the same tree.
module FsTree {
  import opened DirContent

  const MAX_PATH := 256
  const INITIAL_INODES_AMOUNT := 1024
  const ENOENT := 2
  const ENOTDIR := 20
  const EISDIR := 21
  const ENAMETOOLONG := 36
  const ENOTEMPTY := 39

  type uint32 = x: nat | x < 0x1_0000_0000
  type uint64 = x: nat | x < 0x1_0000_0000_0000_0000

  datatype Kind = File | Dir

  datatype Meta = Meta(accessed: uint64, modified: uint64, created: uint64, group: uint32, owner: uint32, mode: uint32)

  // size is |content|.
  datatype Inode = Inode(path: string, content: string, kind: Kind, meta: Meta)

  const BLANK := Inode("", "", File, Meta(0, 0, 0, 0, 0, 0))

  // The superblock; its bitmap holds only 0 and 1.
  datatype Fs = Fs(inodes: seq<Inode>, bitmap: seq<bool>)

  // ---------------------------------------------------------------- paths

  predicate Absolute(path: string) { path != "" && path[0] == '/' }

  // strrchr(path, '/'), -1 for NULL.
  function LastSlash(path: string): (k: int)
    ensures -1 <= k < |path| && (k >= 0 ==> path[k] == '/')
    ensures forall i :: k < i < |path| ==> path[i] != '/'
  {
    if path == "" then -1
    else if path[|path| - 1] == '/' then |path| - 1
    else LastSlash(path[..|path| - 1])
  }

  // get_parent_path.
  function ParentPath(path: string): string
    requires Absolute(path)
  {
    var k := LastSlash(path);
    if k <= 0 then path[..1] else path[..k]
  }

  function BaseName(path: string): string { path[LastSlash(path) + 1..] }

  function Join(dir: string, name: string): string { if dir == "/" then "/" + name else dir + "/" + name }

  // A possible directory entry.
  predicate Plain(name: string) { name != "" && '/' !in name }

  lemma LastSlashIs(path: string, k: nat)
    requires k < |path| && path[k] == '/' && forall i :: k < i < |path| ==> path[i] != '/'
    ensures LastSlash(path) == k
  {
    hide LastSlash;
  }

  lemma JoinParts(dir: string, name: string)
    requires Absolute(dir) && Plain(name)
    ensures Absolute(Join(dir, name)) && Join(dir, name) != "/" && |Join(dir, name)| > |dir|
    ensures ParentPath(Join(dir, name)) == dir && BaseName(Join(dir, name)) == name
  {
    hide LastSlash;
    var p := Join(dir, name);
    var k := if dir == "/" then 0 else |dir|;
    assert p[k] == '/' && p[k + 1..] == name;
    forall i | k < i < |p| ensures p[i] != '/' {
      assert p[i] == name[i - k - 1];
    }
    LastSlashIs(p, k);
  }

  // What FUSE passes: an absolute path without empty components or trailing slash.
  predicate ValidPath(p: string) {
    && Absolute(p) && OneLine(p) && |p| < MAX_PATH
    && (p == "/" || (BaseName(p) != "" && Join(ParentPath(p), BaseName(p)) == p))
  }

  lemma ValidParts(p: string)
    requires ValidPath(p) && p != "/"
    ensures Plain(BaseName(p)) && OneLine(BaseName(p)) && Absolute(ParentPath(p)) && |ParentPath(p)| < |p|
  {
    hide LastSlash;
    assert forall c :: c in BaseName(p) ==> c in p;
  }

  // ---------------------------------------------------------------- trees

  // The active inodes by path.
  type Tree = map<string, Inode>

  // The entries of the directory p.
  function Names(t: Tree, p: string): seq<string>
    requires p in t
  {
    Lines(Text(t[p].content), 0)
  }

  ghost predicate IsChild(t: Tree, dir: string, name: string) { Plain(name) && Join(dir, name) in t }

  // A directory's content lists its children's names, each exactly once.
  ghost predicate DirOk(t: Tree, p: string)
    requires p in t
  {
    && NoRepeats(Names(t, p)) && Text(t[p].content) == Render(Names(t, p))
    && forall n :: n in Names(t, p) <==> IsChild(t, p, n)
  }

  ghost predicate NodeOk(t: Tree, p: string)
    requires p in t
  {
    && t[p].path == p && ValidPath(p)
    && (p != "/" ==> ParentPath(p) in t && t[ParentPath(p)].kind == Dir)
    && (t[p].kind == Dir ==> DirOk(t, p))
  }

  ghost predicate TreeOk(t: Tree) {
    && "/" in t && t["/"].kind == Dir
    && forall p {:trigger NodeOk(t, p)} :: p in t ==> NodeOk(t, p)
  }

  // The parent is an existing directory.
  predicate ParentIsDir(t: Tree, path: string) {
    Absolute(path) && ParentPath(path) in t && t[ParentPath(path)].kind == Dir
  }

  function Relist(t: Tree, dir: string, content: string): Tree
    requires dir in t
  {
    t[dir := t[dir].(content := content)]
  }

  function AddChild(t: Tree, x: Inode): Tree
    requires ParentIsDir(t, x.path) && ParentPath(x.path) != x.path
  {
    var dir := ParentPath(x.path);
    Relist(t[x.path := x], dir, AddDentry(t[dir].content, BaseName(x.path)))
  }

  function RemoveChild(t: Tree, path: string): Tree
    requires ParentIsDir(t, path) && ParentPath(path) != path
  {
    var dir := ParentPath(path);
    Relist(t - {path}, dir, RemoveDentry(t[dir].content, BaseName(path)))
  }

  lemma AddedName(t: Tree, dir: string, name: string)
    requires dir in t && DirOk(t, dir) && !IsChild(t, dir, name) && OneLine(name)
    requires forall n :: n in Names(t, dir) ==> OneLine(n)
    ensures var text := Text(AddDentry(t[dir].content, name));
      var names := Names(t, dir) + [name];
      Lines(text, 0) == names && text == Render(names) && NoRepeats(names)
  {
    hide Text, AddDentry, Lines, Render;
    AddDentryText(t[dir].content, name);
    RenderAppend(Names(t, dir), name);
    LinesOfRender(Names(t, dir) + [name]);
    assert name !in Names(t, dir);
  }

  lemma RemovedName(t: Tree, dir: string, name: string)
    requires dir in t && DirOk(t, dir)
    requires forall n :: n in Names(t, dir) ==> OneLine(n)
    ensures var text := Text(RemoveDentry(t[dir].content, name));
      var names := Without(Names(t, dir), name);
      Lines(text, 0) == names && text == Render(names) && NoRepeats(names)
  {
    hide Text, AddDentry, Lines, Render, AddAll;
    var names := Without(Names(t, dir), name);
    AddAllText(Zeros(|t[dir].content|), names);
    assert Text(Zeros(|t[dir].content|)) == "" by { TextIs(Zeros(|t[dir].content|), ""); }
    assert "" + Render(names) == Render(names);
    LinesOfRender(names);
    WithoutNoRepeats(Names(t, dir), name);
  }

  // The names listed in a directory of a good tree are names of valid paths.
  lemma NamesAreOneLine(t: Tree, dir: string)
    requires TreeOk(t) && dir in t && t[dir].kind == Dir
    ensures Absolute(dir) && DirOk(t, dir) && forall n :: n in Names(t, dir) ==> OneLine(n)
  {
    assert NodeOk(t, dir);
    forall n | n in Names(t, dir) ensures OneLine(n) {
      assert IsChild(t, dir, n) && NodeOk(t, Join(dir, n));
      JoinParts(dir, n);
      ValidParts(Join(dir, n));
    }
  }

  // The children of a directory after one entry was added or removed elsewhere or here.
  lemma ChildrenAfter(t: Tree, t1: Tree, path: string, dir: string, n: string)
    requires ValidPath(path) && path != "/" && Absolute(dir)
    requires forall p :: p != path ==> (p in t1 <==> p in t)
    requires dir != ParentPath(path) || n != BaseName(path)
    ensures IsChild(t1, dir, n) <==> IsChild(t, dir, n)
  {
    hide LastSlash, ValidPath, Join, ParentPath, BaseName;
    if Plain(n) { JoinParts(dir, n); }
  }

  // Adding an empty node below an existing directory keeps a tree good.
  lemma AddChildOk(t: Tree, x: Inode)
    requires TreeOk(t) && ValidPath(x.path) && x.path !in t && ParentIsDir(t, x.path) && Text(x.content) == ""
    ensures ParentPath(x.path) != x.path && TreeOk(AddChild(t, x))
  {
    hide ValidPath, ParentPath, BaseName, Text, AddDentry, Names, NodeOk, DirOk, IsChild, NoRepeats, Absolute;
    RootIsDir(t);
    ValidParts(x.path);
    var t1 := AddChild(t, x);
    Relisted(t, x);
    forall p | p in t1 ensures NodeOk(t1, p) {
      if p == x.path {
        NewNode(t, x);
      } else {
        assert NodeOk(t, p);
        AddChildNode(t, x, p);
      }
    }
  }

  lemma RootIsDir(t: Tree)
    requires TreeOk(t)
    ensures "/" in t && t["/"].kind == Dir
  {
  }

  // The parent's listing after the addition.
  ghost predicate Lists(t1: Tree, t: Tree, dir: string, name: string)
    requires dir in t1 && dir in t
  {
    && NoRepeats(Names(t1, dir)) && Text(t1[dir].content) == Render(Names(t1, dir))
    && forall n :: n in Names(t1, dir) <==> n in Names(t, dir) || n == name
  }

  lemma Relisted(t: Tree, x: Inode)
    requires TreeOk(t) && ValidPath(x.path) && x.path !in t && ParentIsDir(t, x.path) && ParentPath(x.path) != x.path
    requires x.path != "/"
    ensures Lists(AddChild(t, x), t, ParentPath(x.path), BaseName(x.path))
  {
    hide ValidPath, ParentPath, BaseName, Text, AddDentry, Lines, Render, TreeOk, NoRepeats;
    var dir, name := ParentPath(x.path), BaseName(x.path);
    NamesAreOneLine(t, dir);
    ValidParts(x.path);
    PathIsJoin(x.path);
    AddedName(t, dir, name);
  }

  lemma NewNode(t: Tree, x: Inode)
    requires TreeOk(t) && ValidPath(x.path) && x.path !in t && ParentIsDir(t, x.path) && Text(x.content) == ""
    requires ParentPath(x.path) != x.path
    ensures NodeOk(AddChild(t, x), x.path)
  {
    hide ValidPath, ParentPath, BaseName, Text, AddDentry, Names, TreeOk, IsChild, DirOk;
    var t1 := AddChild(t, x);
    forall n ensures !IsChild(t1, x.path, n) { NoChildren(t, t1, x.path, n); }
    EmptyListing(t1, x.path);
  }

  lemma AddChildNode(t: Tree, x: Inode, p: string)
    requires ValidPath(x.path) && x.path !in t && ParentIsDir(t, x.path) && ParentPath(x.path) != x.path
    requires x.path != "/"
    requires p in t && NodeOk(t, p)
    requires Lists(AddChild(t, x), t, ParentPath(x.path), BaseName(x.path))
    ensures NodeOk(AddChild(t, x), p)
  {
    hide ValidPath, ParentPath, BaseName, Text, AddDentry, Lines, Render, IsChild, NoRepeats;
    var t1 := AddChild(t, x);
    ValidIsAbsolute(p);
    forall n ensures IsChild(t1, p, n) <==> IsChild(t, p, n) || (p == ParentPath(x.path) && n == BaseName(x.path)) {
      if p == ParentPath(x.path) && n == BaseName(x.path) {
        IsChildNow(t1, x.path);
      } else {
        ChildrenAfter(t, t1, x.path, p, n);
      }
    }
  }

  lemma IsChildNow(t: Tree, path: string)
    requires ValidPath(path) && path != "/"
    ensures IsChild(t, ParentPath(path), BaseName(path)) <==> path in t
  {
    hide LastSlash;
    ValidParts(path);
  }

  lemma ValidIsAbsolute(p: string)
    requires ValidPath(p)
    ensures Absolute(p)
  {
  }

  lemma PathIsJoin(p: string)
    requires ValidPath(p) && p != "/"
    ensures Join(ParentPath(p), BaseName(p)) == p
  {
  }

  // A path that was not in a good tree has no children there.
  lemma NoChildren(t: Tree, t1: Tree, p: string, n: string)
    requires TreeOk(t) && p !in t && Absolute(p)
    requires forall q :: q != p ==> (q in t1 <==> q in t)
    ensures !IsChild(t1, p, n)
  {
    hide LastSlash, ValidPath, ParentPath, BaseName, Join, DirOk;
    if Plain(n) {
      JoinParts(p, n);
      var c := Join(p, n);
      assert c in t ==> NodeOk(t, c);
    }
  }

  lemma EmptyListing(t: Tree, p: string)
    requires p in t && Text(t[p].content) == "" && forall n :: !IsChild(t, p, n)
    ensures DirOk(t, p)
  {
    hide Text;
    assert Names(t, p) == [];
  }

  // Removing a file, or a directory without entries, keeps a tree good.
  lemma RemoveChildOk(t: Tree, path: string)
    requires TreeOk(t) && path in t && path != "/" && (t[path].kind == Dir ==> Text(t[path].content) == "")
    ensures ParentIsDir(t, path) && ParentPath(path) != path && TreeOk(RemoveChild(t, path))
    ensures forall n :: !IsChild(t, path, n)
  {
    assert NodeOk(t, path);
    ValidParts(path);
    var dir, name := ParentPath(path), BaseName(path);
    hide LastSlash, ValidPath, ParentPath, BaseName, Text, AddDentry, Lines, Render;
    var t1 := RemoveChild(t, path);
    NamesAreOneLine(t, dir);
    RemovedName(t, dir, name);
    forall n ensures !IsChild(t, path, n) { LeafHasNoChildren(t, path, n); }
    hide NodeOk, DirOk, RemoveDentry, IsChild, NoRepeats, Absolute;
    assert t1["/"].kind == Dir;
    forall p | p in t1 ensures NodeOk(t1, p) {
      assert NodeOk(t, p);
      RemoveChildNode(t, path, p);
    }
  }

  lemma RemoveChildNode(t: Tree, path: string, p: string)
    requires ValidPath(path) && path in t && ParentIsDir(t, path) && ParentPath(path) != path && path != "/"
    requires p in t && p != path && NodeOk(t, p) && forall n :: !IsChild(t, path, n)
    requires var t1, dir := RemoveChild(t, path), ParentPath(path);
      p == dir ==> (
        && NoRepeats(Names(t1, dir)) && Text(t1[dir].content) == Render(Names(t1, dir))
        && Names(t1, dir) == Without(Names(t, dir), BaseName(path)))
    ensures NodeOk(RemoveChild(t, path), p)
  {
    hide ValidPath, ParentPath, BaseName, Text, RemoveDentry, Lines, Render, IsChild, NoRepeats;
    var t1 := RemoveChild(t, path);
    ValidIsAbsolute(p);
    forall n ensures IsChild(t1, p, n) <==> IsChild(t, p, n) && (p != ParentPath(path) || n != BaseName(path)) {
      if p == ParentPath(path) && n == BaseName(path) {
        IsChildNow(t1, path);
      } else {
        ChildrenAfter(t, t1, path, p, n);
      }
    }
    if p != "/" {
      IsChildNow(t, p);
      assert ParentPath(p) != path;
    }
  }

  // A file, or a directory with an empty text, has no children.
  lemma LeafHasNoChildren(t: Tree, path: string, n: string)
    requires TreeOk(t) && path in t && (t[path].kind == Dir ==> Text(t[path].content) == "")
    ensures !IsChild(t, path, n)
  {
    hide LastSlash, ValidPath, Text;
    assert NodeOk(t, path);
    if t[path].kind == Dir {
      assert n !in Names(t, path);
    } else {
      ValidIsAbsolute(path);
      if Plain(n) { JoinParts(path, n); }
      assert Join(path, n) in t ==> NodeOk(t, Join(path, n));
    }
  }
}
