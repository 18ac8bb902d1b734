// The fisopfs operations (fisopfs/file.c, fisopfs/fisopfs.c) updating the superblock in place.
module Fisopfs {
  import opened Strings
  import opened DirContent
  import opened FsTree
  import opened FsTable
  import opened FsDisk

  class FileSystem {
    var inodes: array<Inode>
    var bitmap: array<bool>

    ghost function State(): (fs: Fs)
      reads this, inodes, bitmap
    {
      Fs(inodes[..], bitmap[..])
    }

    ghost predicate Valid()
      reads this
    {
      inodes.Length == bitmap.Length
    }

    // fisopfs_init without a saved file system; meta stands for the clock, the user and the mode.
    constructor Init(meta: Meta)
      ensures Valid() && fresh(inodes) && fresh(bitmap)
      ensures State() == FsTable.CreateInode(Fs([], []), "/", Dir, meta).0
    {
      inodes := new Inode[0];
      bitmap := new bool[0];
      new;
      assert State() == Fs([], []);
      var r := CreateInode("/", Dir, meta);
    }

    // search_inode; -1 is ERROR.
    method SearchInode(path: string) returns (i: int)
      requires Valid()
      ensures var k := Search(State(), path, 0); i == if k == inodes.Length then -1 else k
    {
      i := 0;
      while i < inodes.Length && (!bitmap[i] || inodes[i].path != path)
        invariant 0 <= i <= inodes.Length
        invariant Search(State(), path, 0) == Search(State(), path, i)
      {
        i := i + 1;
      }
      if i == inodes.Length {
        return -1;
      }
    }

    // search_next_free_inode.
    method SearchNextFreeInode() returns (i: nat)
      requires Valid()
      ensures i == NextFree(State(), 0)
    {
      i := 0;
      while i < inodes.Length && bitmap[i]
        invariant 0 <= i <= inodes.Length
        invariant NextFree(State(), 0) == NextFree(State(), i)
      {
        i := i + 1;
      }
    }

    // create_inode; the slot, or a negative error.
    method CreateInode(path: string, kind: Kind, meta: Meta) returns (r: int)
      requires Valid()
      modifies this, inodes, bitmap
      ensures Valid() && (State(), r) == FsTable.CreateInode(old(State()), path, kind, meta)
      ensures if |path| > 256 then State() == old(State()) && r == -36
        else r >= 0 && Created(old(State()), State(), path, kind, meta, r)
      ensures inodes == old(inodes) || fresh(inodes)
      ensures bitmap == old(bitmap) || fresh(bitmap)
    {
      hide Zeros, Created;
      CreateDoes(State(), path, kind, meta);
      if |path| > MAX_PATH {
        return -ENAMETOOLONG;
      }
      var free := SearchNextFreeInode();
      if free == inodes.Length {
        ghost var before := State();
        var was, wasBits := inodes, bitmap;
        inodes := new Inode[was.Length + INITIAL_INODES_AMOUNT](i reads was =>
          if 0 <= i < was.Length then was[i] else BLANK);
        bitmap := new bool[wasBits.Length + INITIAL_INODES_AMOUNT](i reads wasBits =>
          0 <= i < wasBits.Length && wasBits[i]);
        SameTable(State(), Grow(before));
      }
      ghost var grown := State();
      inodes[free] := NewInode(path, kind, meta);
      bitmap[free] := true;
      assert State() == Fill(grown, free, NewInode(path, kind, meta));
      return free;
    }

    // add_dentry_to_parent_dir.
    method AddDentryToParentDir(path: string) returns (r: int)
      requires Valid() && Absolute(path)
      modifies inodes
      ensures Valid() && (State(), r) == AddToParent(old(State()), path)
    {
      var dir := SearchInode(ParentPath(path));
      if dir == -1 {
        return -ENOENT;
      }
      if inodes[dir].kind != Dir {
        return -ENOTDIR;
      }
      ghost var before := State();
      inodes[dir] := inodes[dir].(content := AddDentry(inodes[dir].content, BaseName(path)));
      assert State().bitmap == before.bitmap[dir := true];
      return 0;
    }

    // fisopfs_mkdir and fisopfs_create.
    method Make(path: string, kind: Kind, meta: Meta) returns (r: int)
      requires Valid() && Absolute(path)
      modifies this, inodes, bitmap
      ensures Valid() && (State(), r) == FsTable.Make(old(State()), path, kind, meta)
      ensures Consistent(old(State())) ==> (Consistent(State()) <==> Creatable(old(State()), path) || |path| > MAX_PATH)
      ensures Consistent(old(State())) && Creatable(old(State()), path) ==>
        r == 0 && NodeAdded(View(old(State())), View(State()), path, kind, meta)
      ensures ParentPath(path) != path ==> (
        var t, dir := View(old(State())), ParentPath(path);
        r == if |path| > 256 then -36 else if dir !in t then -2 else if t[dir].kind == File then -20 else 0)
    {
      hide AddToParent, Consistent, Creatable, Fill, Grow, NodeAdded, Created, ParentPath, View;
      if ParentPath(path) != path { MakeErrors(State(), path, kind, meta); }
      if Consistent(State()) && Creatable(State(), path) { MakeAdds(State(), path, kind, meta); }
      ghost var before := State();
      var k := CreateInode(path, kind, meta);
      if k < 0 {
        r := k;
      } else {
        r := AddDentryToParentDir(path);
      }
      if Consistent(before) { MakeKeepsExactly(before, path, kind, meta); }
    }

    // remove_inode. Its caller guarantees that the parent is found.
    method RemoveInode(path: string, k: nat)
      requires Valid() && Absolute(path) && k < inodes.Length
      requires Search(Clear(State(), k), ParentPath(path), 0) < inodes.Length
      modifies inodes, bitmap
      ensures Valid() && State() == FsTable.RemoveInode(old(State()), path, k)
    {
      hide ParentPath, BaseName, RemoveDentry;
      ghost var before := State();
      bitmap[k] := false;
      assert State() == Clear(before, k);
      var d := SearchInode(ParentPath(path));
      var newContent := CopyEntries(inodes[d].content, BaseName(path));
      inodes[d] := inodes[d].(content := newContent);
    }

    // fisopfs_unlink.
    method Unlink(path: string) returns (r: int)
      requires Valid() && Absolute(path) && Consistent(State())
      modifies inodes, bitmap
      ensures Valid() && Consistent(State()) && (State(), r) == FsTable.Unlink(old(State()), path)
      ensures var t := View(old(State()));
        && r == (if path !in t then -2 else if t[path].kind == Dir then -21 else 0)
        && (r != 0 ==> State() == old(State())) && (r == 0 ==> NodeRemoved(t, View(State()), path))
    {
      hide TreeOk, Distinct, FsTable.RemoveInode, ParentPath, BaseName, NodeRemoved;
      UnlinkKeeps(State(), path);
      var i := SearchInode(path);
      if i == -1 {
        return -ENOENT;
      }
      if inodes[i].kind != File {
        return -EISDIR;
      }
      RootIsDir(View(State()));
      RemoveKeeps(State(), path, i);
      RemoveInode(path, i);
      return 0;
    }

    // fisopfs_rmdir.
    method Rmdir(path: string) returns (r: int)
      requires Valid() && Absolute(path) && path != "/" && Consistent(State())
      modifies inodes, bitmap
      ensures Valid() && Consistent(State()) && (State(), r) == FsTable.Rmdir(old(State()), path)
      ensures var t := View(old(State()));
        && (r == -2 <==> path !in t) && (r == -20 <==> path in t && t[path].kind == File)
        && (r == -39 <==> path in t && t[path].kind == Dir && exists n :: IsChild(t, path, n))
        && (r == 0 || r == -2 || r == -20 || r == -39)
        && (r != 0 ==> State() == old(State())) && (r == 0 ==> NodeRemoved(t, View(State()), path))
    {
      hide TreeOk, Distinct, FsTable.RemoveInode, ParentPath, BaseName, StrLen, NodeRemoved, IsChild;
      RmdirKeeps(State(), path);
      var i := SearchInode(path);
      if i == -1 {
        return -ENOENT;
      }
      if inodes[i].kind != Dir {
        return -ENOTDIR;
      }
      if StrLen(inodes[i].content) > 0 {
        return -ENOTEMPTY;
      }
      RemoveKeeps(State(), path, i);
      RemoveInode(path, i);
      return 0;
    }

    // fisopfs_readdir: the names it fills in. They are those of the directory's children, each once.
    method Readdir(path: string) returns (r: int, names: seq<string>)
      requires Valid() && Consistent(State())
      ensures r == if path !in View(State()) then -ENOENT else if View(State())[path].kind == File then -ENOTDIR else 0
      ensures r == 0 ==>
        path in View(State()) && names == [".", ".."] + Names(View(State()), path) && DirOk(View(State()), path)
      ensures r != 0 ==> names == [".", ".."]
    {
      hide DirOk, Distinct, TreeOk, Search, View, Text, Lines;
      names := [".", ".."];
      var i := SearchInode(path);
      if i == -1 {
        return -ENOENT, names;
      }
      if inodes[i].kind != Dir {
        return -ENOTDIR, names;
      }
      var entries := ReadEntries(inodes[i].content);
      Listing(View(State()), path);
      return 0, names + entries;
    }

    // fisopfs_read.
    method ReadFile(path: string, size: nat, offset: nat, now: uint64) returns (r: int, data: string)
      requires Valid() && Consistent(State())
      requires path in View(State()) && View(State())[path].kind == File ==> offset <= |View(State())[path].content|
      modifies inodes
      ensures Valid() && Consistent(State()) &&
        (State(), r, data) == FsTable.ReadFile(old(State()), path, size, offset, now)
      ensures var t := View(old(State()));
        && (r < 0 ==> State() == old(State()) && data == "")
        && (if path !in t then r == -2 else if t[path].kind == Dir then r == -21
            else
              && r == |data| <= size && offset + r <= |t[path].content| && data == t[path].content[offset..][..r]
              && (r < size ==> offset + r == |t[path].content|)
              && View(State()) == t[path := t[path].(meta := t[path].meta.(accessed := now))])
    {
      hide Consistent;
      ReadDoes(State(), path, size, offset, now);
      data := "";
      var i := SearchInode(path);
      if i == -1 {
        return -ENOENT, data;
      }
      if inodes[i].kind != File {
        return -EISDIR, data;
      }
      ghost var before := State();
      var x := inodes[i];
      var n := if offset + size > |x.content| then |x.content| - offset else size;
      data := x.content[offset..offset + n];
      inodes[i] := x.(meta := x.meta.(accessed := now));
      assert State().bitmap == before.bitmap[i := true];
      return n, data;
    }

    // fisopfs_write.
    method Write(path: string, data: string, offset: nat, now: uint64) returns (r: int)
      requires Valid()
      modifies inodes
      ensures Valid() && (State(), r) == FsTable.Write(old(State()), path, data, offset, now)
      ensures Consistent(old(State())) ==> (
        var t := View(old(State()));
        && Consistent(State())
        && r == (if path !in t then -2 else if t[path].kind == Dir then -21 else |data|)
        && (r < 0 ==> State() == old(State()))
        && (r >= 0 ==> FileWritten(t, View(State()), path, data, offset, now)))
    {
      hide Written, FileWritten, Consistent, View;
      if Consistent(State()) { WriteKeeps(State(), path, data, offset, now); }
      var i := SearchInode(path);
      if i == -1 {
        return -ENOENT;
      }
      if inodes[i].kind != File {
        return -EISDIR;
      }
      ghost var before := State();
      var x := inodes[i];
      inodes[i] := x.(content := Written(x.content, data, offset), meta := x.meta.(modified := now));
      assert State().bitmap == before.bitmap[i := true];
      return |data|;
    }

    // serialize: what is written to the file.
    method Serialize() returns (file: string)
      requires Valid()
      ensures file == Save(State())
    {
      hide Bytes, EncodeInode;
      var amount := 0;
      var i := 0;
      while i < inodes.Length
        invariant 0 <= i <= inodes.Length
        invariant amount + |Actives(State(), i)| == |Actives(State(), 0)|
      {
        if bitmap[i] {
          amount := amount + 1;
        }
        i := i + 1;
      }
      file := Bytes(amount, 4);
      i := 0;
      assert file + EncodeAll(Actives(State(), 0)) == Save(State());
      while i < inodes.Length
        invariant 0 <= i <= inodes.Length
        invariant file + EncodeAll(Actives(State(), i)) == Save(State())
      {
        NextActive(State(), i);
        if bitmap[i] {
          var x := inodes[i];
          ghost var struct, rest := EncodeInode(x), EncodeAll(Actives(State(), i + 1));
          Associates(file, struct + x.content, rest);
          Associates(file, struct, x.content);
          file := file + EncodeInode(x);
          file := file + x.content;
        }
        i := i + 1;
      }
    }

    // The loop of deserialize, over `amount` empty slots; read(2) has worked once and works `good`
    // times in all before it fails.
    method ReadInodes(file: string, start: nat, good: nat) returns (error: bool)
      requires Valid() && good > 0
      requires forall k :: 0 <= k < inodes.Length ==> inodes[k] == BLANK && !bitmap[k]
      modifies inodes, bitmap
      ensures var xs := LoadAll(file, start, inodes.Length);
        && error == (good < 1 + 2 * |xs| + if |xs| < inodes.Length then 1 else 0)
        && (!error ==> State() == Loaded(xs, inodes.Length))
    {
      hide Number, DecodeInode, Zeros, Read, SizeOf, LoadAll, PadTo, Loaded, Loading;
      var i: nat, at: nat, calls: nat := 0, start, 1;
      ghost var xs := LoadAll(file, at, inodes.Length);
      LoadingStarts(file, at, inodes[..], bitmap[..]);
      while i < inodes.Length
        invariant i <= |xs| <= inodes.Length && calls == 1 + 2 * i <= good
        invariant Loading(file, at, inodes[..], bitmap[..], xs, i)
      {
        ghost var ins, bits := inodes[..], bitmap[..];
        LoadingStep(file, at, ins, bits, xs, i);
        if calls == good {
          return true;
        }
        var s := Read(file, at, INODE_SIZE);
        if s == "" {
          break;
        }
        var struct := PadTo(s, INODE_SIZE);
        bitmap[i] := true;
        i := i + 1;
        if calls + 1 == good {
          return true;
        }
        var data := Read(file, at + |s|, SizeOf(struct));
        inodes[i - 1] := DecodeInode(struct, PadTo(data, SizeOf(struct)));
        assert inodes[..] == ins[i - 1 := inodes[i - 1]] && bitmap[..] == bits[i - 1 := true];
        calls := calls + 2;
        at := at + |s| + |data|;
      }
      LoadingEnds(file, at, inodes[..], bitmap[..], xs, i);
      return false;
    }

    // deserialize; read(2) works `good` times before it fails.
    method Deserialize(file: string, good: nat)
      modifies this
      ensures Valid() && fresh(inodes) && fresh(bitmap)
      ensures State() == LoadWith(file, good)
    {
      hide Number, Zeros, Read, LoadAll, PadTo;
      var amount: nat, at: nat := 0, 0;
      if good > 0 {
        var head := Read(file, 0, 4);
        amount, at := Number(PadTo(head, 4)), |head|;
      }
      inodes := new Inode[amount](_ => BLANK);
      bitmap := new bool[amount](_ => false);
      var error := false;
      if good > 0 {
        error := ReadInodes(file, at, good);
      }
      if error {
        inodes := new Inode[0];
        bitmap := new bool[0];
      }
      assert error || good == 0 ==> State() == Fs([], []);
    }
  }

  // The first i slots hold what was read, the others are empty, and what is left of xs is to be read
  // from position at on.
  ghost predicate Loading(file: string, at: nat, inodes: seq<Inode>, bitmap: seq<bool>, xs: seq<Inode>, i: nat) {
    && i <= |xs| <= |inodes| == |bitmap|
    && (forall k :: 0 <= k < |inodes| ==> inodes[k] == (if k < i then xs[k] else BLANK) && bitmap[k] == (k < i))
    && xs[i..] == LoadAll(file, at, |inodes| - i)
  }

  lemma LoadingStarts(file: string, at: nat, inodes: seq<Inode>, bitmap: seq<bool>)
    requires |inodes| == |bitmap| && forall k :: 0 <= k < |inodes| ==> inodes[k] == BLANK && !bitmap[k]
    ensures Loading(file, at, inodes, bitmap, LoadAll(file, at, |inodes|), 0)
  {
    hide LoadAll;
  }

  lemma LoadingStep(file: string, at: nat, inodes: seq<Inode>, bitmap: seq<bool>, xs: seq<Inode>, i: nat)
    requires Loading(file, at, inodes, bitmap, xs, i) && i < |inodes| == |bitmap|
    ensures var s := Read(file, at, INODE_SIZE);
      var size := SizeOf(PadTo(s, INODE_SIZE));
      var data := Read(file, at + |s|, size);
      var x := DecodeInode(PadTo(s, INODE_SIZE), PadTo(data, size));
      if s == "" then |xs| == i
      else i < |xs| && Loading(file, at + |s| + |data|, inodes[i := x], bitmap[i := true], xs, i + 1)
  {
    hide LoadAll, Read, PadTo, SizeOf, DecodeInode;
    LoadStep(file, at, |inodes| - i - 1);
    if Read(file, at, INODE_SIZE) != "" {
      assert xs[i] == xs[i..][0] && xs[i + 1..] == xs[i..][1..];
    }
  }

  lemma LoadingEnds(file: string, at: nat, inodes: seq<Inode>, bitmap: seq<bool>, xs: seq<Inode>, i: nat)
    requires Loading(file, at, inodes, bitmap, xs, i) && (i == |inodes| || i == |xs|)
    ensures i == |xs| && Fs(inodes, bitmap) == Loaded(xs, |inodes|)
  {
    if i == |inodes| { LoadNone(file, at); }
    SameTable(Fs(inodes, bitmap), Loaded(xs, |inodes|));
  }

  lemma Listing(t: Tree, dir: string)
    requires TreeOk(t) && dir in t && t[dir].kind == Dir
    ensures DirOk(t, dir)
  {
    assert NodeOk(t, dir);
  }

  // Tables with the same slots are the same.
  lemma SameTable(fs: Fs, fs1: Fs)
    requires Shape(fs) && Shape(fs1) && |fs.inodes| == |fs1.inodes|
    requires forall i :: 0 <= i < |fs.inodes| ==> fs.inodes[i] == fs1.inodes[i] && fs.bitmap[i] == fs1.bitmap[i]
    ensures fs == fs1
  {
    assert fs.inodes == fs1.inodes && fs.bitmap == fs1.bitmap;
  }

  lemma NextActive(fs: Fs, i: nat)
    requires i < |fs.inodes|
    ensures EncodeAll(Actives(fs, i)) ==
      (if Active(fs, i) then EncodeInode(fs.inodes[i]) + fs.inodes[i].content else "") + EncodeAll(Actives(fs, i + 1))
  {
    var x, rest := fs.inodes[i], Actives(fs, i + 1);
    assert ([x] + rest)[1..] == rest;
    assert [] + rest == rest && "" + EncodeAll(rest) == EncodeAll(rest);
  }
}
