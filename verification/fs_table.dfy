// The inode table of fisopfs as a value, the operations on it, and what they keep.
module FsTable {
  import opened DirContent
  import opened FsTree

  ghost predicate Shape(fs: Fs) { |fs.inodes| == |fs.bitmap| }

  predicate Active(fs: Fs, i: int) { 0 <= i < |fs.inodes| && i < |fs.bitmap| && fs.bitmap[i] }

  ghost predicate Distinct(fs: Fs) {
    forall i, j :: Active(fs, i) && Active(fs, j) && fs.inodes[i].path == fs.inodes[j].path ==> i == j
  }

  // search_inode from slot i on; |inodes| when there is none.
  function Search(fs: Fs, path: string, i: nat): (k: nat)
    requires i <= |fs.inodes|
    ensures i <= k <= |fs.inodes| && (k < |fs.inodes| ==> Active(fs, k) && fs.inodes[k].path == path)
    ensures forall j :: i <= j < k ==> !(Active(fs, j) && fs.inodes[j].path == path)
    decreases |fs.inodes| - i
  {
    if i == |fs.inodes| || (Active(fs, i) && fs.inodes[i].path == path) then i else Search(fs, path, i + 1)
  }

  // search_next_free_inode.
  function NextFree(fs: Fs, i: nat): (k: nat)
    requires i <= |fs.inodes|
    ensures i <= k <= |fs.inodes| && (k < |fs.inodes| ==> !Active(fs, k))
    ensures forall j :: i <= j < k ==> Active(fs, j)
    decreases |fs.inodes| - i
  {
    if i == |fs.inodes| || !Active(fs, i) then i else NextFree(fs, i + 1)
  }

  // The tree that a table describes.
  ghost function View(fs: Fs): (t: Tree)
    ensures forall p :: p in t <==> Search(fs, p, 0) < |fs.inodes|
    ensures forall p :: p in t ==> t[p] == fs.inodes[Search(fs, p, 0)]
  {
    map p | p in (set i | 0 <= i < |fs.inodes| && Active(fs, i) :: fs.inodes[i].path) :: fs.inodes[Search(fs, p, 0)]
  }

  // Paths are distinct, and paths and directory contents describe one tree.
  ghost predicate Consistent(fs: Fs) {
    Shape(fs) && Distinct(fs) && TreeOk(View(fs))
  }

  lemma SearchFinds(fs: Fs, i: nat)
    requires Distinct(fs) && Active(fs, i)
    ensures Search(fs, fs.inodes[i].path, 0) == i
    ensures fs.inodes[i].path in View(fs) && View(fs)[fs.inodes[i].path] == fs.inodes[i]
  {
  }

  // Independently of search order: t holds exactly the active inodes, by path.
  ghost predicate Describes(fs: Fs, t: Tree) {
    && (forall i :: Active(fs, i) ==> fs.inodes[i].path in t && t[fs.inodes[i].path] == fs.inodes[i])
    && (forall p :: p in t ==> exists i :: Active(fs, i) && fs.inodes[i].path == p)
  }

  lemma ViewDescribes(fs: Fs, t: Tree)
    requires Distinct(fs)
    ensures Describes(fs, t) <==> t == View(fs)
  {
    hide Search, View, Distinct;
    forall i | Active(fs, i) ensures fs.inodes[i].path in View(fs) && View(fs)[fs.inodes[i].path] == fs.inodes[i] {
      SearchFinds(fs, i);
    }
    forall p | p in View(fs) ensures exists i :: Active(fs, i) && fs.inodes[i].path == p {
      assert Active(fs, Search(fs, p, 0));
    }
    if Describes(fs, t) {
      forall p ensures p in View(fs) <==> p in t {
        if p in t {
          var i :| Active(fs, i) && fs.inodes[i].path == p;
        }
      }
      assert forall p :: p in t ==> t[p] == View(fs)[p];
    }
  }

  // ---------------------------------------------------------------- changes of one slot

  function Fill(fs: Fs, k: nat, x: Inode): Fs
    requires k < |fs.inodes| == |fs.bitmap|
  {
    Fs(fs.inodes[k := x], fs.bitmap[k := true])
  }

  function Clear(fs: Fs, k: nat): Fs
    requires k < |fs.inodes| == |fs.bitmap|
  {
    fs.(bitmap := fs.bitmap[k := false])
  }

  // The growth step of create_inode.
  function Grow(fs: Fs): (fs1: Fs)
    requires Shape(fs)
    ensures Shape(fs1) && |fs1.inodes| == |fs.inodes| + INITIAL_INODES_AMOUNT
    ensures forall i :: 0 <= i < |fs1.inodes| ==>
      && fs1.inodes[i] == (if i < |fs.inodes| then fs.inodes[i] else BLANK)
      && fs1.bitmap[i] == (i < |fs.bitmap| && fs.bitmap[i])
  {
    Fs(fs.inodes + seq(INITIAL_INODES_AMOUNT, _ => BLANK), fs.bitmap + seq(INITIAL_INODES_AMOUNT, _ => false))
  }

  lemma FillDescribes(fs: Fs, t: Tree, k: nat, x: Inode)
    requires Shape(fs) && Distinct(fs) && k < |fs.inodes| && Describes(fs, t)
    requires if Active(fs, k) then x.path == fs.inodes[k].path else x.path !in t
    ensures Distinct(Fill(fs, k, x)) && Describes(Fill(fs, k, x), t[x.path := x])
  {
    var fs1 := Fill(fs, k, x);
    assert forall i :: Active(fs1, i) <==> i == k || Active(fs, i);
    forall i | Active(fs1, i) && i != k
      ensures fs1.inodes[i] == fs.inodes[i] && fs.inodes[i].path in t && fs.inodes[i].path != x.path
    {
    }
    forall p | p in t ensures exists i :: Active(fs1, i) && fs1.inodes[i].path == p {
      var i :| Active(fs, i) && fs.inodes[i].path == p;
      assert Active(fs1, i) && fs1.inodes[i].path == p;
    }
    assert Active(fs1, k) && fs1.inodes[k].path == x.path;
  }

  lemma ClearDescribes(fs: Fs, t: Tree, k: nat)
    requires Shape(fs) && Distinct(fs) && Active(fs, k) && Describes(fs, t)
    ensures Distinct(Clear(fs, k)) && Describes(Clear(fs, k), t - {fs.inodes[k].path})
  {
    var fs1 := Clear(fs, k);
    assert forall i :: Active(fs1, i) <==> i != k && Active(fs, i);
    forall p | p in t - {fs.inodes[k].path} ensures exists i :: Active(fs1, i) && fs1.inodes[i].path == p {
      var i :| Active(fs, i) && fs.inodes[i].path == p;
      assert Active(fs1, i) && fs1.inodes[i].path == p;
    }
  }

  lemma SameActive(fs: Fs, fs1: Fs, t: Tree)
    requires Distinct(fs) && Describes(fs, t)
    requires forall i :: Active(fs1, i) <==> Active(fs, i)
    requires forall i :: Active(fs, i) ==> Active(fs1, i) && fs1.inodes[i] == fs.inodes[i]
    ensures Distinct(fs1) && Describes(fs1, t)
  {
    forall p | p in t ensures exists i :: Active(fs1, i) && fs1.inodes[i].path == p {
      var i :| Active(fs, i) && fs.inodes[i].path == p;
      assert Active(fs1, i) && fs1.inodes[i].path == p;
    }
  }

  lemma GrowDescribes(fs: Fs, t: Tree)
    requires Shape(fs) && Distinct(fs) && Describes(fs, t)
    ensures Distinct(Grow(fs)) && Describes(Grow(fs), t)
  {
    hide Grow, Distinct, Describes;
    var fs1 := Grow(fs);
    assert forall i :: Active(fs1, i) <==> Active(fs, i);
    assert forall i :: Active(fs, i) ==> fs1.inodes[i] == fs.inodes[i];
    SameActive(fs, fs1, t);
  }

  // A free slot gets a new path, or an active one new content.
  lemma FillView(fs: Fs, k: nat, x: Inode)
    requires Shape(fs) && Distinct(fs) && k < |fs.inodes|
    requires if Active(fs, k) then x.path == fs.inodes[k].path else x.path !in View(fs)
    ensures Distinct(Fill(fs, k, x)) && View(Fill(fs, k, x)) == View(fs)[x.path := x]
  {
    hide Describes, Distinct, View;
    ViewDescribes(fs, View(fs));
    FillDescribes(fs, View(fs), k, x);
    ViewDescribes(Fill(fs, k, x), View(fs)[x.path := x]);
  }

  lemma ClearView(fs: Fs, k: nat)
    requires Shape(fs) && Distinct(fs) && Active(fs, k)
    ensures Distinct(Clear(fs, k)) && View(Clear(fs, k)) == View(fs) - {fs.inodes[k].path}
  {
    hide Describes, Distinct, View;
    ViewDescribes(fs, View(fs));
    ClearDescribes(fs, View(fs), k);
    ViewDescribes(Clear(fs, k), View(fs) - {fs.inodes[k].path});
  }

  lemma GrowView(fs: Fs)
    requires Shape(fs) && Distinct(fs)
    ensures Shape(Grow(fs)) && Distinct(Grow(fs)) && View(Grow(fs)) == View(fs)
  {
    hide Describes, Distinct, View;
    ViewDescribes(fs, View(fs));
    GrowDescribes(fs, View(fs));
    ViewDescribes(Grow(fs), View(fs));
  }

  // ---------------------------------------------------------------- operations

  function NewInode(path: string, kind: Kind, meta: Meta): Inode {
    Inode(path, Zeros(INITIAL_CONTENT_LENGTH), kind, meta)
  }

  // create_inode: the table and the slot, or a negative error.
  function CreateInode(fs: Fs, path: string, kind: Kind, meta: Meta): (Fs, int)
    requires Shape(fs)
  {
    if |path| > MAX_PATH then (fs, -ENAMETOOLONG)
    else
      var k := NextFree(fs, 0);
      (Fill(if k == |fs.inodes| then Grow(fs) else fs, k, NewInode(path, kind, meta)), k)
  }

  // add_dentry_to_parent_dir.
  function AddToParent(fs: Fs, path: string): (Fs, int)
    requires Shape(fs) && Absolute(path)
  {
    var d := Search(fs, ParentPath(path), 0);
    if d == |fs.inodes| then (fs, -ENOENT)
    else if fs.inodes[d].kind != Dir then (fs, -ENOTDIR)
    else (Fill(fs, d, fs.inodes[d].(content := AddDentry(fs.inodes[d].content, BaseName(path)))), 0)
  }

  // fisopfs_mkdir and fisopfs_create.
  function Make(fs: Fs, path: string, kind: Kind, meta: Meta): (Fs, int)
    requires Shape(fs) && Absolute(path)
  {
    var (fs1, k) := CreateInode(fs, path, kind, meta);
    if k < 0 then (fs, k) else AddToParent(fs1, path)
  }

  // remove_inode, when the parent is found.
  function RemoveInode(fs: Fs, path: string, k: nat): Fs
    requires Shape(fs) && Absolute(path) && k < |fs.inodes|
  {
    var fs1 := Clear(fs, k);
    var d := Search(fs1, ParentPath(path), 0);
    if d == |fs.inodes| then fs1
    else fs1.(inodes := fs1.inodes[d := fs1.inodes[d].(content := RemoveDentry(fs1.inodes[d].content, BaseName(path)))])
  }

  // fisopfs_unlink.
  function Unlink(fs: Fs, path: string): (Fs, int)
    requires Shape(fs) && Absolute(path)
  {
    var k := Search(fs, path, 0);
    if k == |fs.inodes| then (fs, -ENOENT)
    else if fs.inodes[k].kind != File then (fs, -EISDIR)
    else (RemoveInode(fs, path, k), 0)
  }

  // fisopfs_rmdir.
  function Rmdir(fs: Fs, path: string): (Fs, int)
    requires Shape(fs) && Absolute(path)
  {
    var k := Search(fs, path, 0);
    if k == |fs.inodes| then (fs, -ENOENT)
    else if fs.inodes[k].kind != Dir then (fs, -ENOTDIR)
    else if StrLen(fs.inodes[k].content) > 0 then (fs, -ENOTEMPTY)
    else (RemoveInode(fs, path, k), 0)
  }

  // The content after fisopfs_write: what was beyond the written range is cut off.
  function Written(content: string, data: string, offset: nat): string {
    (if offset <= |content| then content[..offset] else content + Zeros(offset - |content|)) + data
  }

  // fisopfs_write; the result is the number of bytes.
  function Write(fs: Fs, path: string, data: string, offset: nat, now: uint64): (Fs, int)
    requires Shape(fs)
  {
    var k := Search(fs, path, 0);
    if k == |fs.inodes| then (fs, -ENOENT)
    else if fs.inodes[k].kind != File then (fs, -EISDIR)
    else
      var x := fs.inodes[k];
      (Fill(fs, k, x.(content := Written(x.content, data, offset), meta := x.meta.(modified := now))), |data|)
  }

  // fisopfs_read; it is not asked to start behind the end of the file.
  function ReadFile(fs: Fs, path: string, size: nat, offset: nat, now: uint64): (Fs, int, string)
    requires Shape(fs)
    requires var k := Search(fs, path, 0);
      k < |fs.inodes| && fs.inodes[k].kind == File ==> offset <= |fs.inodes[k].content|
  {
    var k := Search(fs, path, 0);
    if k == |fs.inodes| then (fs, -ENOENT, "")
    else if fs.inodes[k].kind != File then (fs, -EISDIR, "")
    else
      var x := fs.inodes[k];
      var n := if offset + size > |x.content| then |x.content| - offset else size;
      (Fill(fs, k, x.(meta := x.meta.(accessed := now))), n, x.content[offset..offset + n])
  }

  // ---------------------------------------------------------------- what they do, field by field

  ghost predicate AllNul(content: string, n: nat) { |content| == n && forall i :: 0 <= i < n ==> content[i] == NUL }

  // create_inode took slot k: the first free one, behind the old table if there was none, for an
  // empty inode of 1024 bytes.
  ghost predicate Created(fs: Fs, fs1: Fs, path: string, kind: Kind, meta: Meta, k: nat) {
    && Shape(fs) && Shape(fs1) && k <= |fs.inodes| && (forall i :: 0 <= i < k ==> fs.bitmap[i])
    && (k < |fs.inodes| ==> !fs.bitmap[k])
    && |fs1.inodes| == (if k < |fs.inodes| then |fs.inodes| else |fs.inodes| + 1024)
    && fs1.bitmap[k] && fs1.inodes[k].path == path && fs1.inodes[k].kind == kind && fs1.inodes[k].meta == meta
    && AllNul(fs1.inodes[k].content, 1024)
    && (forall i :: 0 <= i < |fs.inodes| && i != k ==> fs1.inodes[i] == fs.inodes[i] && fs1.bitmap[i] == fs.bitmap[i])
    && (forall i :: |fs.inodes| <= i < |fs1.inodes| && i != k ==> !fs1.bitmap[i])
  }

  lemma CreateDoes(fs: Fs, path: string, kind: Kind, meta: Meta)
    requires Shape(fs)
    ensures var (fs1, r) := CreateInode(fs, path, kind, meta);
      if |path| > 256 then fs1 == fs && r == -36 else r >= 0 && Created(fs, fs1, path, kind, meta, r)
  {
    hide NextFree;
    var k := NextFree(fs, 0);
    if |path| <= MAX_PATH {
      forall i | 0 <= i < k ensures fs.bitmap[i] { assert Active(fs, i); }
      assert k < |fs.inodes| ==> !Active(fs, k);
    }
  }

  // One node more in the tree, and one line more in its parent.
  ghost predicate NodeAdded(t: Tree, t1: Tree, path: string, kind: Kind, meta: Meta) {
    && ParentIsDir(t, path) && path !in t && t1.Keys == t.Keys + {path} && path != ParentPath(path)
    && t1[path].path == path && t1[path].kind == kind && t1[path].meta == meta && AllNul(t1[path].content, 1024)
    && (forall p :: p in t && p != ParentPath(path) ==> t1[p] == t[p])
    && var c1 := t1[ParentPath(path)].content;
      && t1[ParentPath(path)] == t[ParentPath(path)].(content := c1)
      && Text(c1) == Text(t[ParentPath(path)].content) + BaseName(path) + "\n"
  }

  // One node less in the tree, and one line less in its parent.
  ghost predicate NodeRemoved(t: Tree, t1: Tree, path: string) {
    && path in t && ParentIsDir(t, path) && t1.Keys == t.Keys - {path} && path != ParentPath(path)
    && (forall p :: p in t1 && p != ParentPath(path) ==> t1[p] == t[p])
    && var c1 := t1[ParentPath(path)].content;
      && t1[ParentPath(path)] == t[ParentPath(path)].(content := c1)
      && OneLess(Names(t, ParentPath(path)), Lines(Text(c1), 0), BaseName(path))
  }

  ghost predicate OneLess(names: seq<string>, left: seq<string>, name: string) {
    exists i :: 0 <= i < |names| && names[i] == name && left == names[..i] + names[i + 1..]
  }

  // One file written: what lies before the offset stays, zeros fill a gap, and the data is its end.
  ghost predicate FileWritten(t: Tree, t1: Tree, path: string, data: string, offset: nat, now: uint64) {
    && path in t && t1.Keys == t.Keys && (forall p :: p in t && p != path ==> t1[p] == t[p])
    && var c, c1 := t[path].content, t1[path].content;
      && t1[path] == t[path].(content := c1, meta := t[path].meta.(modified := now))
      && |c1| == offset + |data| && c1[offset..] == data
      && (forall i :: 0 <= i < offset ==> c1[i] == if i < |c| then c[i] else NUL)
  }

  lemma WrittenIs(content: string, data: string, offset: nat)
    ensures var c1 := Written(content, data, offset);
      && |c1| == offset + |data| && c1[offset..] == data
      && forall i :: 0 <= i < offset ==> c1[i] == if i < |content| then content[i] else NUL
  {
  }

  // ---------------------------------------------------------------- what they keep

  lemma CreateView(fs: Fs, path: string, kind: Kind, meta: Meta)
    requires Shape(fs) && Distinct(fs) && path !in View(fs) && |path| <= MAX_PATH
    ensures var fs1 := CreateInode(fs, path, kind, meta).0;
      Shape(fs1) && Distinct(fs1) && View(fs1) == View(fs)[path := NewInode(path, kind, meta)]
  {
    hide Search, NextFree, View, Distinct;
    GrowView(fs);
    var k := NextFree(fs, 0);
    FillView(if k == |fs.inodes| then Grow(fs) else fs, k, NewInode(path, kind, meta));
  }

  lemma AddToParentView(fs: Fs, path: string)
    requires Shape(fs) && Distinct(fs) && Absolute(path)
    ensures var (fs1, r), t := AddToParent(fs, path), View(fs);
      && Shape(fs1) && Distinct(fs1)
      && (r == 0 <==> ParentIsDir(t, path)) && (r != 0 ==> fs1 == fs)
      && (r == 0 ==> View(fs1) == Relist(t, ParentPath(path), AddDentry(t[ParentPath(path)].content, BaseName(path))))
  {
    hide Distinct, ParentPath, BaseName, AddDentry;
    var d := Search(fs, ParentPath(path), 0);
    if d < |fs.inodes| {
      FillView(fs, d, fs.inodes[d].(content := AddDentry(fs.inodes[d].content, BaseName(path))));
    }
  }

  // A path below an existing directory that does not exist itself: what FUSE's own lookup
  // establishes before it calls mkdir or create.
  ghost predicate Creatable(fs: Fs, path: string) {
    ValidPath(path) && path !in View(fs) && ParentIsDir(View(fs), path)
  }

  // mkdir and create succeed and add one empty child when the path is creatable.
  lemma MakeAdds(fs: Fs, path: string, kind: Kind, meta: Meta)
    requires Consistent(fs) && Creatable(fs, path)
    ensures Make(fs, path, kind, meta).1 == 0
    ensures ParentPath(path) != path
    ensures View(Make(fs, path, kind, meta).0) == AddChild(View(fs), NewInode(path, kind, meta))
    ensures NodeAdded(View(fs), View(Make(fs, path, kind, meta).0), path, kind, meta)
    ensures Consistent(Make(fs, path, kind, meta).0)
  {
    hide Distinct, TreeOk, ParentPath, BaseName, AddDentry, Search, CreateInode, AddToParent, LastSlash, Text;
    var x := NewInode(path, kind, meta);
    assert Text(x.content) == "" by { TextIs(x.content, ""); }
    AddChildOk(View(fs), x);
    CreateView(fs, path, kind, meta);
    var (fs1, k) := CreateInode(fs, path, kind, meta);
    assert k >= 0 by { CreateSlot(fs, path, kind, meta); }
    AddToParentView(fs1, path);
    AddedNode(View(fs), path, kind, meta);
  }

  lemma AddedNode(t: Tree, path: string, kind: Kind, meta: Meta)
    requires TreeOk(t) && ValidPath(path) && path !in t && ParentIsDir(t, path) && ParentPath(path) != path
    ensures NodeAdded(t, AddChild(t, NewInode(path, kind, meta)), path, kind, meta)
  {
    hide AddDentry, Text, ParentPath, BaseName, LastSlash;
    RootIsDir(t);
    ValidParts(path);
    AddDentryText(t[ParentPath(path)].content, BaseName(path));
  }

  lemma RemovedNode(t: Tree, path: string)
    requires TreeOk(t) && path in t && path != "/" && ParentIsDir(t, path) && ParentPath(path) != path
    ensures NodeRemoved(t, RemoveChild(t, path), path)
  {
    hide Text, ParentPath, BaseName, LastSlash, Lines, RemoveDentry, Without, NoRepeats, Join, Render;
    assert NodeOk(t, path);
    NamesAreOneLine(t, ParentPath(path));
    RemovedName(t, ParentPath(path), BaseName(path));
    IsChildNow(t, path);
    var names := Names(t, ParentPath(path));
    assert BaseName(path) in names;
    var i :| 0 <= i < |names| && names[i] == BaseName(path);
    WithoutOne(names, i);
  }

  // Each error of mkdir and create, for a path that is not its own parent.
  lemma MakeErrors(fs: Fs, path: string, kind: Kind, meta: Meta)
    requires Shape(fs) && Absolute(path) && ParentPath(path) != path
    ensures Make(fs, path, kind, meta).1 == (
      if |path| > 256 then -36
      else if ParentPath(path) !in View(fs) then -2
      else if View(fs)[ParentPath(path)].kind == File then -20
      else 0)
  {
    hide Created, View, Search, CreateInode, ParentPath, BaseName, AddDentry;
    TooLong(fs, path, kind, meta);
    if |path| <= MAX_PATH {
      var (fs1, k) := CreateInode(fs, path, kind, meta);
      CreateDoes(fs, path, kind, meta);
      CreateShape(fs, fs1, path, kind, meta, k);
      OtherPath(fs, fs1, path, kind, meta, k, ParentPath(path));
    }
  }

  lemma TooLong(fs: Fs, path: string, kind: Kind, meta: Meta)
    requires Shape(fs)
    ensures |path| > 256 <==> CreateInode(fs, path, kind, meta).1 < 0
    ensures |path| > 256 ==> CreateInode(fs, path, kind, meta).1 == -36
  {
    hide NextFree;
  }

  lemma CreateShape(fs: Fs, fs1: Fs, path: string, kind: Kind, meta: Meta, k: nat)
    requires Created(fs, fs1, path, kind, meta, k)
    ensures Shape(fs1)
  {
  }

  // Creating an inode does not change which inode another path is found to be.
  lemma OtherPath(fs: Fs, fs1: Fs, path: string, kind: Kind, meta: Meta, k: nat, p: string)
    requires Created(fs, fs1, path, kind, meta, k) && p != path
    ensures p in View(fs1) <==> p in View(fs)
    ensures p in View(fs) ==> View(fs1)[p] == View(fs)[p]
  {
    var i, j := Search(fs, p, 0), Search(fs1, p, 0);
    if i < |fs.inodes| {
      assert Active(fs1, i) && fs1.inodes[i].path == p;
      assert j < |fs1.inodes| && Active(fs, j) && fs.inodes[j].path == p;
    }
    if j < |fs1.inodes| {
      assert j != k && Active(fs, j) && fs.inodes[j].path == p;
    }
  }

  lemma CreateSlot(fs: Fs, path: string, kind: Kind, meta: Meta)
    requires Shape(fs)
    ensures CreateInode(fs, path, kind, meta).1 >= 0 <==> |path| <= MAX_PATH
    ensures var (fs1, k) := CreateInode(fs, path, kind, meta);
      k >= 0 ==> (
        && Shape(fs1) && Active(fs1, k) && fs1.inodes[k].path == path
        && forall i :: Active(fs, i) ==> i != k && Active(fs1, i) && fs1.inodes[i] == fs.inodes[i])
  {
  }

  // A path that exists already becomes the path of two inodes.
  lemma MakeTwice(fs: Fs, path: string, kind: Kind, meta: Meta)
    requires Shape(fs) && Absolute(path) && |path| <= MAX_PATH && path in View(fs)
    ensures !Distinct(Make(fs, path, kind, meta).0)
  {
    var (fs1, k) := CreateInode(fs, path, kind, meta);
    CreateSlot(fs, path, kind, meta);
    AddKeepsSlots(fs1, path);
    hide CreateInode, AddToParent;
    var fs2 := AddToParent(fs1, path).0;
    var j := Search(fs, path, 0);
    assert Active(fs2, j) && Active(fs2, k) && fs2.inodes[j].path == fs2.inodes[k].path && j != k;
  }

  // An invalid path, or one without a parent directory, becomes a bad node of the tree.
  lemma MakeOrphan(fs: Fs, path: string, kind: Kind, meta: Meta)
    requires Consistent(fs) && Absolute(path) && |path| <= MAX_PATH && path !in View(fs)
    requires !ValidPath(path) || !ParentIsDir(View(fs), path)
    ensures !TreeOk(View(Make(fs, path, kind, meta).0))
  {
    hide Distinct, ParentPath, BaseName, LastSlash, DirOk, View, Search, AddDentry;
    CreateView(fs, path, kind, meta);
    CreateSlot(fs, path, kind, meta);
    var fs1 := CreateInode(fs, path, kind, meta).0;
    AddToParentView(fs1, path);
    hide CreateInode, AddToParent;
    var t2 := View(AddToParent(fs1, path).0);
    RootIsDir(View(fs));
    if ValidPath(path) { ValidParts(path); }
    assert path in t2 && !NodeOk(t2, path);
  }

  // Otherwise they leave an inconsistent table behind, whatever they return, unless the path is
  // refused for its length.
  lemma MakeKeepsExactly(fs: Fs, path: string, kind: Kind, meta: Meta)
    requires Consistent(fs) && Absolute(path)
    ensures Consistent(Make(fs, path, kind, meta).0) <==> Creatable(fs, path) || |path| > MAX_PATH
  {
    if |path| <= MAX_PATH {
      if Creatable(fs, path) {
        MakeAdds(fs, path, kind, meta);
      } else if path in View(fs) {
        MakeTwice(fs, path, kind, meta);
      } else {
        MakeOrphan(fs, path, kind, meta);
      }
    }
    hide TreeOk, Distinct;
  }

  lemma AddKeepsSlots(fs: Fs, path: string)
    requires Shape(fs) && Absolute(path)
    ensures var fs1 := AddToParent(fs, path).0;
      forall i :: Active(fs, i) ==> Active(fs1, i) && fs1.inodes[i].path == fs.inodes[i].path
  {
  }

  // remove_inode of a file or of a directory with an empty text.
  lemma RemoveKeeps(fs: Fs, path: string, k: nat)
    requires Consistent(fs) && Active(fs, k) && fs.inodes[k].path == path && path != "/" && Absolute(path)
    requires fs.inodes[k].kind == Dir ==> Text(fs.inodes[k].content) == ""
    ensures ParentIsDir(View(fs), path) && ParentPath(path) != path
    ensures Search(Clear(fs, k), ParentPath(path), 0) < |fs.inodes|
    ensures View(RemoveInode(fs, path, k)) == RemoveChild(View(fs), path) && Consistent(RemoveInode(fs, path, k))
    ensures NodeRemoved(View(fs), View(RemoveInode(fs, path, k)), path)
    ensures forall n :: !IsChild(View(fs), path, n)
  {
    hide TreeOk, ParentPath, BaseName, RemoveDentry, Text, Distinct, View, Search, LastSlash, IsChild, NodeRemoved;
    SearchFinds(fs, k);
    RemoveChildOk(View(fs), path);
    RemovedNode(View(fs), path);
    ClearView(fs, k);
    var fs1 := Clear(fs, k);
    var d := Search(fs1, ParentPath(path), 0);
    assert ParentPath(path) in View(fs1);
    var x := fs1.inodes[d].(content := RemoveDentry(fs1.inodes[d].content, BaseName(path)));
    FillView(fs1, d, x);
    assert fs1.bitmap[d := true] == fs1.bitmap;
    assert RemoveInode(fs, path, k) == Fill(fs1, d, x);
  }

  // unlink keeps the table consistent and removes exactly a file.
  lemma UnlinkKeeps(fs: Fs, path: string)
    requires Consistent(fs) && Absolute(path)
    ensures var (fs1, r), t := Unlink(fs, path), View(fs);
      && Consistent(fs1)
      && r == (if path !in t then -ENOENT else if t[path].kind == Dir then -EISDIR else 0)
      && (r != 0 ==> fs1 == fs)
      && (r == 0 ==> ParentIsDir(t, path) && ParentPath(path) != path && View(fs1) == RemoveChild(t, path))
      && (r == 0 ==> NodeRemoved(t, View(fs1), path))
  {
    hide TreeOk, ParentPath, Distinct, RemoveInode, RemoveChild, NodeRemoved;
    var k := Search(fs, path, 0);
    if k < |fs.inodes| && fs.inodes[k].kind == File {
      assert path != "/" by { RootIsDir(View(fs)); }
      RemoveKeeps(fs, path, k);
    }
  }

  // rmdir keeps the table consistent, removes exactly a directory, and refuses exactly those that
  // have a child: no inode ever loses its parent.
  lemma RmdirKeeps(fs: Fs, path: string)
    requires Consistent(fs) && Absolute(path) && path != "/"
    ensures var (fs1, r), t := Rmdir(fs, path), View(fs);
      && Consistent(fs1)
      && (r == -ENOENT <==> path !in t) && (r == -ENOTDIR <==> path in t && t[path].kind == File)
      && (r == -ENOTEMPTY <==> path in t && t[path].kind == Dir && exists n :: IsChild(t, path, n))
      && (r != 0 ==> fs1 == fs)
      && (r == 0 ==> ParentIsDir(t, path) && ParentPath(path) != path && View(fs1) == RemoveChild(t, path))
      && (r == 0 ==> NodeRemoved(t, View(fs1), path))
  {
    hide TreeOk, ParentPath, Distinct, RemoveInode, RemoveChild, IsChild, StrLen, NodeRemoved;
    var k := Search(fs, path, 0);
    if k < |fs.inodes| && fs.inodes[k].kind == Dir {
      if StrLen(fs.inodes[k].content) > 0 {
        SomeChild(View(fs), path);
      } else {
        RemoveKeeps(fs, path, k);
      }
    }
  }

  lemma SomeChild(t: Tree, dir: string)
    requires TreeOk(t) && dir in t && t[dir].kind == Dir && Text(t[dir].content) != ""
    ensures exists n :: IsChild(t, dir, n)
  {
    assert NodeOk(t, dir);
    assert Names(t, dir) != [];
    assert Names(t, dir)[0] in Names(t, dir);
    assert IsChild(t, dir, Names(t, dir)[0]);
  }

  // Writing changes one file's content and nothing of the tree.
  lemma WriteKeeps(fs: Fs, path: string, data: string, offset: nat, now: uint64)
    requires Consistent(fs)
    ensures var (fs1, r), t := Write(fs, path, data, offset, now), View(fs);
      && Consistent(fs1)
      && r == (if path !in t then -2 else if t[path].kind == Dir then -21 else |data|) && (r < 0 ==> fs1 == fs)
      && (r >= 0 ==> FileWritten(t, View(fs1), path, data, offset, now))
  {
    hide TreeOk, Distinct, Written;
    var k := Search(fs, path, 0);
    if k < |fs.inodes| && fs.inodes[k].kind == File {
      var x := fs.inodes[k];
      var y := x.(content := Written(x.content, data, offset), meta := x.meta.(modified := now));
      WrittenIs(x.content, data, offset);
      FillView(fs, k, y);
      FileContentIsFree(View(fs), y);
    }
  }

  // Reading gives the bytes asked for, as far as the file goes, and only the access time changes.
  lemma ReadDoes(fs: Fs, path: string, size: nat, offset: nat, now: uint64)
    requires Consistent(fs) && (path in View(fs) && View(fs)[path].kind == File ==> offset <= |View(fs)[path].content|)
    ensures var (fs1, r, data) := ReadFile(fs, path, size, offset, now);
      var t := View(fs);
      && Consistent(fs1) && (r < 0 ==> fs1 == fs && data == "")
      && (if path !in t then r == -2 else if t[path].kind == Dir then r == -21
          else
            && r == |data| <= size && offset + r <= |t[path].content| && data == t[path].content[offset..][..r]
            && (r < size ==> offset + r == |t[path].content|)
            && View(fs1) == t[path := t[path].(meta := t[path].meta.(accessed := now))])
  {
    hide TreeOk, Distinct;
    var k := Search(fs, path, 0);
    if k < |fs.inodes| && fs.inodes[k].kind == File {
      var x := fs.inodes[k];
      FillView(fs, k, x.(meta := x.meta.(accessed := now)));
      FileContentIsFree(View(fs), x.(meta := x.meta.(accessed := now)));
    }
  }

  // What was written at an offset is what is read there.
  lemma ReadsBack(fs: Fs, path: string, data: string, size: nat, offset: nat, now: uint64, later: uint64)
    requires Consistent(fs) && path in View(fs) && View(fs)[path].kind == File && size >= |data|
    ensures var fs1 := Write(fs, path, data, offset, now).0;
      && Consistent(fs1) && path in View(fs1) && offset <= |View(fs1)[path].content|
      && ReadFile(fs1, path, size, offset, later).2 == data
  {
    hide TreeOk, Distinct, Write, ReadFile, View;
    WriteKeeps(fs, path, data, offset, now);
    var fs1 := Write(fs, path, data, offset, now).0;
    ReadDoes(fs1, path, size, offset, later);
    var c := View(fs1)[path].content;
    assert c[offset..] == data && |c| == offset + |data|;
    var (_, r, back) := ReadFile(fs1, path, size, offset, later);
    assert r >= 0 && back == data[..r] && r == |data|;
  }

  lemma FileContentIsFree(t: Tree, y: Inode)
    requires TreeOk(t) && y.path in t && t[y.path].kind == File == y.kind && t[y.path].path == y.path
    ensures TreeOk(t[y.path := y])
  {
    hide ValidPath, ParentPath, Text, Render, NoRepeats;
    var t1 := t[y.path := y];
    forall p | p in t1 ensures NodeOk(t1, p) {
      assert NodeOk(t, p);
      assert forall n :: IsChild(t1, p, n) <==> IsChild(t, p, n);
    }
  }

  // The file system of fisopfs_init without a saved one: create_inode of "/" on an empty table.
  lemma InitConsistent(meta: Meta)
    ensures Consistent(CreateInode(Fs([], []), "/", Dir, meta).0)
    ensures var t := View(CreateInode(Fs([], []), "/", Dir, meta).0);
      t.Keys == {"/"} && t["/"].kind == Dir && t["/"].meta == meta && AllNul(t["/"].content, 1024)
  {
    var fs0 := Fs([], []);
    assert View(fs0) == map[];
    CreateView(fs0, "/", Dir, meta);
    var t := View(CreateInode(fs0, "/", Dir, meta).0);
    var x := NewInode("/", Dir, meta);
    assert t == map["/" := x];
    assert Text(x.content) == "" by { TextIs(x.content, ""); }
    forall n ensures !IsChild(t, "/", n) {
      if Plain(n) { JoinParts("/", n); }
    }
    EmptyListing(t, "/");
    assert NodeOk(t, "/");
  }
}
