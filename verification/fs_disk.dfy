// The saved form of a fisopfs (serialize and deserialize of fisopfs/file.c): the number of active
// inodes, then for each its struct, as laid out on x86-64, and the first `size` bytes of content.
// A file is a sequence of characters below 256.
module FsDisk {
  import opened Strings
  import opened DirContent
  import opened FsTree
  import opened FsTable

  const INODE_SIZE := 312
  const INT_LIMIT := 0x8000_0000

  function PadTo(s: string, n: nat): (r: string)
    ensures |s| <= n ==> |r| == n
  {
    if |s| < n then s + Zeros(n - |s|) else s
  }

  // Little-endian, n bytes.
  function Bytes(x: nat, n: nat): (s: string)
    ensures |s| == n
  {
    if n == 0 then "" else [(x % 256) as char] + Bytes(x / 256, n - 1)
  }

  function Number(s: string): nat {
    if s == "" then 0 else s[0] as nat % 256 + 256 * Number(s[1..])
  }

  function Power256(n: nat): nat { if n == 0 then 1 else 256 * Power256(n - 1) }

  lemma {:induction false} NumberOfBytes(x: nat, n: nat)
    requires x < Power256(n)
    ensures Number(Bytes(x, n)) == x
  {
    if n > 0 {
      NumberOfBytes(x / 256, n - 1);
      assert Bytes(x, n)[1..] == Bytes(x / 256, n - 1);
    }
  }

  lemma Word4(x: uint32)
    ensures Number(Bytes(x, 4)) == x
  {
    assert Power256(4) == 0x1_0000_0000 by { assert Power256(2) == 0x1_0000; }
    NumberOfBytes(x, 4);
  }

  lemma Word8(x: uint64)
    ensures Number(Bytes(x, 8)) == x
  {
    assert Power256(8) == 0x1_0000_0000_0000_0000 by {
      assert Power256(2) == 0x1_0000;
      assert Power256(4) == 0x1_0000_0000;
      assert Power256(6) == 0x1_0000_0000_0000;
    }
    NumberOfBytes(x, 8);
  }

  // ---------------------------------------------------------------- one inode

  function EncodeMeta(m: Meta): string {
    Bytes(m.accessed, 8) + (Bytes(m.modified, 8) + (Bytes(m.created, 8) +
    (Bytes(m.group, 4) + (Bytes(m.owner, 4) + (Bytes(m.mode, 4) + Zeros(4))))))
  }

  // path, content pointer (meaningless on disk), size, type, then the rest.
  function EncodeInode(x: Inode): string {
    PadTo(x.path, MAX_PATH) +
      (Zeros(8) + (Bytes(|x.content|, 4) + (Bytes(if x.kind == File then 0 else 1, 4) + EncodeMeta(x.meta))))
  }

  function Low32(n: nat): uint32 { n % 0x1_0000_0000 }
  function Low64(n: nat): uint64 { n % 0x1_0000_0000_0000_0000 }

  function DecodeMeta(s: string): Meta
    requires |s| >= 36
  {
    var s1 := s[8..];
    var s2 := s1[8..];
    var s3 := s2[8..];
    var s4 := s3[4..];
    var s5 := s4[4..];
    Meta(Low64(Number(s[..8])), Low64(Number(s1[..8])), Low64(Number(s2[..8])),
         Low32(Number(s3[..4])), Low32(Number(s4[..4])), Low32(Number(s5[..4])))
  }

  function SizeOf(s: string): nat
    requires |s| == INODE_SIZE
  {
    Number(s[MAX_PATH..][8..][..4])
  }

  // The struct as read, with its content still to come.
  function DecodeInode(s: string, content: string): Inode
    requires |s| == INODE_SIZE
  {
    var s1 := s[MAX_PATH..][8..][4..];
    Inode(Text(s[..MAX_PATH]), content, if Number(s1[..4]) == 0 then File else Dir, DecodeMeta(s1[4..]))
  }

  lemma Cut(a: string, b: string, n: nat)
    requires n == |a|
    ensures (a + b)[..n] == a && (a + b)[n..] == b
  {
  }

  lemma MetaRoundTrip(m: Meta)
    ensures |EncodeMeta(m)| == 40 && DecodeMeta(EncodeMeta(m)) == m
  {
    hide Bytes, Number;
    var s5 := Bytes(m.mode, 4) + Zeros(4);
    var s4 := Bytes(m.owner, 4) + s5;
    var s3 := Bytes(m.group, 4) + s4;
    var s2 := Bytes(m.created, 8) + s3;
    var s1 := Bytes(m.modified, 8) + s2;
    Cut(Bytes(m.mode, 4), Zeros(4), 4);
    Cut(Bytes(m.owner, 4), s5, 4);
    Cut(Bytes(m.group, 4), s4, 4);
    Cut(Bytes(m.created, 8), s3, 8);
    Cut(Bytes(m.modified, 8), s2, 8);
    Cut(Bytes(m.accessed, 8), s1, 8);
    Word8(m.accessed);
    Word8(m.modified);
    Word8(m.created);
    Word4(m.group);
    Word4(m.owner);
    Word4(m.mode);
  }

  predicate InodeStorable(x: Inode) { |x.path| < MAX_PATH && NUL !in x.path && |x.content| < INT_LIMIT }

  // Everything in an inode survives, its size included.
  lemma InodeRoundTrip(x: Inode)
    requires InodeStorable(x)
    ensures |EncodeInode(x)| == INODE_SIZE && SizeOf(EncodeInode(x)) == |x.content|
    ensures DecodeInode(EncodeInode(x), x.content) == x
  {
    hide Bytes, Number, EncodeMeta, DecodeMeta, Text;
    var kind: uint32 := if x.kind == File then 0 else 1;
    var s3 := Bytes(kind, 4) + EncodeMeta(x.meta);
    var s2 := Bytes(|x.content|, 4) + s3;
    var s1 := Zeros(8) + s2;
    MetaRoundTrip(x.meta);
    Cut(Bytes(kind, 4), EncodeMeta(x.meta), 4);
    Cut(Bytes(|x.content|, 4), s3, 4);
    Cut(Zeros(8), s2, 8);
    Cut(PadTo(x.path, MAX_PATH), s1, MAX_PATH);
    Word4(kind);
    Word4(|x.content|);
    TextIs(PadTo(x.path, MAX_PATH), x.path);
  }

  // The bytes of a number from position `at` of a string on, least significant first.
  ghost predicate NumberAt(s: string, at: nat, n: nat, x: nat)
    decreases n
  {
    at + n <= |s| && (n > 0 ==> s[at] == (x % 256) as char && NumberAt(s, at + 1, n - 1, x / 256))
  }

  lemma {:induction false} Placed(before: string, x: nat, n: nat, after: string)
    ensures NumberAt(before + (Bytes(x, n) + after), |before|, n, x)
    decreases n
  {
    if n > 0 {
      var first := [(x % 256) as char];
      Placed(before + first, x / 256, n - 1, after);
      Associates(first, Bytes(x / 256, n - 1), after);
      Associates(before, first, Bytes(x / 256, n - 1) + after);
    }
  }

  // struct inode as the compiler lays it out on x86-64: where each field lies, and how wide it is.
  ghost predicate Layout(s: string, x: Inode) {
    && |s| == 312 && (forall i :: 0 <= i < 256 ==> s[i] == if i < |x.path| then x.path[i] else NUL)
    && (forall i :: 256 <= i < 264 ==> s[i] == NUL)
    && NumberAt(s, 264, 4, |x.content|) && NumberAt(s, 268, 4, if x.kind == File then 0 else 1)
    && NumberAt(s, 272, 8, x.meta.accessed) && NumberAt(s, 280, 8, x.meta.modified) &&
      NumberAt(s, 288, 8, x.meta.created)
    && NumberAt(s, 296, 4, x.meta.group) && NumberAt(s, 300, 4, x.meta.owner) && NumberAt(s, 304, 4, x.meta.mode)
  }

  lemma InodeLayout(x: Inode)
    requires |x.path| <= 256
    ensures Layout(EncodeInode(x), x)
  {
    hide Bytes, NumberAt;
    var m := x.meta;
    var kind: nat := if x.kind == File then 0 else 1;
    var b0 := PadTo(x.path, MAX_PATH) + Zeros(8);
    var b1 := b0 + Bytes(|x.content|, 4);
    var b2 := b1 + Bytes(kind, 4);
    var b3 := b2 + Bytes(m.accessed, 8);
    var b4 := b3 + Bytes(m.modified, 8);
    var b5 := b4 + Bytes(m.created, 8);
    var b6 := b5 + Bytes(m.group, 4);
    var b7 := b6 + Bytes(m.owner, 4);
    var a8 := Zeros(4);
    var a7 := Bytes(m.mode, 4) + a8;
    var a6 := Bytes(m.owner, 4) + a7;
    var a5 := Bytes(m.group, 4) + a6;
    var a4 := Bytes(m.created, 8) + a5;
    var a3 := Bytes(m.modified, 8) + a4;
    var a2 := Bytes(m.accessed, 8) + a3;
    var a1 := Bytes(kind, 4) + a2;
    var a0 := Bytes(|x.content|, 4) + a1;
    var s := EncodeInode(x);
    assert s == b0 + a0 by { Associates(PadTo(x.path, MAX_PATH), Zeros(8), a0); }
    Associates(b0, Bytes(|x.content|, 4), a1);
    Associates(b1, Bytes(kind, 4), a2);
    Associates(b2, Bytes(m.accessed, 8), a3);
    Associates(b3, Bytes(m.modified, 8), a4);
    Associates(b4, Bytes(m.created, 8), a5);
    Associates(b5, Bytes(m.group, 4), a6);
    Associates(b6, Bytes(m.owner, 4), a7);
    Placed(b0, |x.content|, 4, a1);
    Placed(b1, kind, 4, a2);
    Placed(b2, m.accessed, 8, a3);
    Placed(b3, m.modified, 8, a4);
    Placed(b4, m.created, 8, a5);
    Placed(b5, m.group, 4, a6);
    Placed(b6, m.owner, 4, a7);
    Placed(b7, m.mode, 4, a8);
  }

  // ---------------------------------------------------------------- the file

  // The active inodes from slot i on, in order.
  ghost function Actives(fs: Fs, i: nat): seq<Inode>
    requires i <= |fs.inodes|
    decreases |fs.inodes| - i
  {
    if i == |fs.inodes| then []
    else (if Active(fs, i) then [fs.inodes[i]] else []) + Actives(fs, i + 1)
  }

  ghost function EncodeAll(xs: seq<Inode>): string {
    if xs == [] then "" else EncodeInode(xs[0]) + xs[0].content + EncodeAll(xs[1..])
  }

  // What serialize writes.
  ghost function Save(fs: Fs): string {
    Bytes(|Actives(fs, 0)|, 4) + EncodeAll(Actives(fs, 0))
  }

  // read(2) on a regular file: fewer bytes at its end.
  function Read(file: string, at: nat, n: nat): (s: string)
    ensures |s| <= n
  {
    if at >= |file| then "" else if at + n <= |file| then file[at..at + n] else file[at..]
  }

  // The inodes that the loop of deserialize reads from position `at`, at most n of them. A buffer
  // that is not filled keeps its zeros.
  function LoadAll(file: string, at: nat, n: nat): (xs: seq<Inode>)
    ensures |xs| <= n
    decreases n
  {
    var s := Read(file, at, INODE_SIZE);
    if n == 0 || s == "" then []
    else
      var struct := PadTo(s, INODE_SIZE);
      var size := SizeOf(struct);
      var data := Read(file, at + |s|, size);
      [DecodeInode(struct, PadTo(data, size))] + LoadAll(file, at + |s| + |data|, n - 1)
  }

  function Loaded(xs: seq<Inode>, amount: nat): Fs
    requires |xs| <= amount
  {
    Fs(xs + seq(amount - |xs|, _ => BLANK), seq(|xs|, _ => true) + seq(amount - |xs|, _ => false))
  }

  // deserialize.
  function Load(file: string): Fs {
    var head := Read(file, 0, 4);
    var amount := Number(PadTo(head, 4));
    Loaded(LoadAll(file, |head|, amount), amount)
  }

  // How often a complete run of deserialize calls read(2): the count, an inode and its content each
  // time, and the call that finds the end of a short file.
  function ReadCalls(file: string): nat {
    var head := Read(file, 0, 4);
    var amount := Number(PadTo(head, 4));
    var xs := LoadAll(file, |head|, amount);
    1 + 2 * |xs| + if |xs| < amount then 1 else 0
  }

  // deserialize when read(2) works `good` times before it fails: an error resets the superblock.
  function LoadWith(file: string, good: nat): Fs {
    if good < ReadCalls(file) then Fs([], []) else Load(file)
  }

  // After a read error there is no file system left, not even a root, and the next unmount writes
  // that down: whatever was saved, a later mount without errors finds nothing.
  lemma FailedLoadLosesAll(fs: Fs, good: nat)
    requires Consistent(fs) && Storable(fs) && good < ReadCalls(Save(fs))
    ensures var lost := LoadWith(Save(fs), good);
      !Consistent(lost) && View(lost) == map[] && Load(Save(lost)) == lost != Load(Save(fs))
  {
    hide LoadAll, EncodeAll, Bytes, Number, InodeStorable, ReadCalls, Load, TreeOk, View;
    var lost := LoadWith(Save(fs), good);
    assert lost == Fs([], []);
    EmptyView();
    assert Actives(lost, 0) == [];
    LoadOfSave(lost);
    RestartKeepsView(fs);
    RootExists(View(fs));
  }

  lemma EmptyView()
    ensures View(Fs([], [])) == map[] && !TreeOk(View(Fs([], [])))
  {
  }

  lemma RootExists(t: Tree)
    requires TreeOk(t)
    ensures "/" in t
  {
  }

  // Sizes and counts fit the C ints they are stored in.
  ghost predicate Storable(fs: Fs) {
    |fs.inodes| < INT_LIMIT && forall i :: Active(fs, i) ==> InodeStorable(fs.inodes[i])
  }

  lemma LoadOne(file: string, at: nat, n: nat, x: Inode)
    requires InodeStorable(x) && Read(file, at, INODE_SIZE) == EncodeInode(x)
    requires Read(file, at + INODE_SIZE, |x.content|) == x.content
    ensures LoadAll(file, at, n + 1) == [x] + LoadAll(file, at + INODE_SIZE + |x.content|, n)
  {
    hide EncodeInode, DecodeInode, SizeOf, InodeStorable, Read;
    InodeRoundTrip(x);
  }

  lemma LoadStep(file: string, at: nat, n: nat)
    ensures var s := Read(file, at, INODE_SIZE);
      var size := SizeOf(PadTo(s, INODE_SIZE));
      var data := Read(file, at + |s|, size);
      LoadAll(file, at, n + 1) ==
        if s == "" then []
        else [DecodeInode(PadTo(s, INODE_SIZE), PadTo(data, size))] + LoadAll(file, at + |s| + |data|, n)
  {
    hide SizeOf, DecodeInode, Read, PadTo;
  }

  lemma ReadMiddle(a: string, b: string, c: string)
    ensures Read(a + b + c, |a|, |b|) == b
  {
  }

  lemma ReadInode(before: string, x: Inode, rest: string)
    requires InodeStorable(x)
    ensures var file := before + (EncodeInode(x) + x.content + rest);
      && Read(file, |before|, INODE_SIZE) == EncodeInode(x)
      && Read(file, |before| + INODE_SIZE, |x.content|) == x.content
      && file == before + EncodeInode(x) + x.content + rest
      && |before + EncodeInode(x) + x.content| == |before| + INODE_SIZE + |x.content|
  {
    hide EncodeInode, InodeStorable, Read;
    InodeRoundTrip(x);
    var file, head := before + (EncodeInode(x) + x.content + rest), before + EncodeInode(x);
    assert file == before + EncodeInode(x) + (x.content + rest);
    ReadMiddle(before, EncodeInode(x), x.content + rest);
    assert file == head + x.content + rest;
    ReadMiddle(head, x.content, rest);
  }

  lemma LoadNone(file: string, at: nat)
    ensures LoadAll(file, at, 0) == []
  {
  }

  lemma {:induction false} LoadOfEncode(before: string, xs: seq<Inode>)
    requires forall x :: x in xs ==> InodeStorable(x)
    ensures LoadAll(before + EncodeAll(xs), |before|, |xs|) == xs
    decreases |xs|
  {
    hide EncodeInode, InodeStorable, Read, LoadAll;
    if xs == [] {
      LoadNone(before + EncodeAll(xs), |before|);
      return;
    }
    var x := xs[0];
    assert x in xs;
    ReadInode(before, x, EncodeAll(xs[1..]));
    LoadOfEncode(before + EncodeInode(x) + x.content, xs[1..]);
    LoadOne(before + EncodeAll(xs), |before|, |xs| - 1, x);
  }

  lemma {:induction false} ActivesCount(fs: Fs, i: nat)
    requires i <= |fs.inodes|
    ensures |Actives(fs, i)| <= |fs.inodes| - i
    decreases |fs.inodes| - i
  {
    if i < |fs.inodes| { ActivesCount(fs, i + 1); }
  }

  lemma {:induction false} ActivesAre(fs: Fs, i: nat, x: Inode)
    requires i <= |fs.inodes|
    ensures x in Actives(fs, i) <==> exists k :: i <= k && Active(fs, k) && fs.inodes[k] == x
    decreases |fs.inodes| - i
  {
    if i < |fs.inodes| {
      ActivesAre(fs, i + 1, x);
      if k :| i <= k && Active(fs, k) && fs.inodes[k] == x {
        if k == i { assert x in Actives(fs, i); } else { assert x in Actives(fs, i + 1); }
      }
    }
  }

  lemma {:induction false} ActivesDistinct(fs: Fs, i: nat)
    requires i <= |fs.inodes| && Distinct(fs)
    ensures forall a, b :: 0 <= a < b < |Actives(fs, i)| ==> Actives(fs, i)[a].path != Actives(fs, i)[b].path
    decreases |fs.inodes| - i
  {
    if i < |fs.inodes| {
      ActivesDistinct(fs, i + 1);
      forall x | x in Actives(fs, i + 1) && Active(fs, i) ensures x.path != fs.inodes[i].path {
        ActivesAre(fs, i + 1, x);
      }
    }
  }

  // Saving and loading gives the active inodes, in order and unchanged: metadata, sizes, contents.
  lemma LoadOfSave(fs: Fs)
    requires Storable(fs)
    ensures Load(Save(fs)) == Fs(Actives(fs, 0), seq(|Actives(fs, 0)|, _ => true))
  {
    hide LoadAll, EncodeAll, Bytes, Number, InodeStorable;
    var xs := Actives(fs, 0);
    ActivesCount(fs, 0);
    forall x | x in xs ensures InodeStorable(x) { ActivesAre(fs, 0, x); }
    Word4(|xs|);
    LoadOfEncode(Bytes(|xs|, 4), xs);
    assert Read(Save(fs), 0, 4) == Bytes(|xs|, 4);
  }

  // The file from position `at` on: each inode's struct, then its content, and nothing more.
  ghost predicate Records(file: string, at: nat, xs: seq<Inode>)
    decreases |xs|
  {
    if xs == [] then at == |file|
    else
      var size := |xs[0].content|;
      && at + 312 + size <= |file| && Layout(file[at..at + 312], xs[0])
      && file[at + 312..at + 312 + size] == xs[0].content && Records(file, at + 312 + size, xs[1..])
  }

  // The count in four bytes, then the active inodes in the order of their slots.
  lemma SaveLayout(fs: Fs)
    requires forall i :: Active(fs, i) ==> |fs.inodes[i].path| <= 256
    ensures NumberAt(Save(fs), 0, 4, |Actives(fs, 0)|) && Records(Save(fs), 4, Actives(fs, 0))
  {
    hide EncodeAll, Bytes, NumberAt, Records;
    var xs := Actives(fs, 0);
    forall x | x in xs ensures |x.path| <= 256 { ActivesAre(fs, 0, x); }
    assert "" + (Bytes(|xs|, 4) + EncodeAll(xs)) == Save(fs);
    Placed("", |xs|, 4, EncodeAll(xs));
    RecordsOf(Bytes(|xs|, 4), xs);
  }

  lemma {:induction false} RecordsOf(before: string, xs: seq<Inode>)
    requires forall x :: x in xs ==> |x.path| <= 256
    ensures Records(before + EncodeAll(xs), |before|, xs)
    decreases |xs|
  {
    hide EncodeInode, Layout;
    if xs != [] {
      assert xs[0] in xs;
      RecordsOf(before + EncodeInode(xs[0]) + xs[0].content, xs[1..]);
      FirstRecord(before, xs[0], EncodeAll(xs[1..]));
    }
  }

  lemma FirstRecord(before: string, x: Inode, rest: string)
    requires |x.path| <= 256
    ensures var file, at := before + (EncodeInode(x) + x.content + rest), |before|;
      && file == before + EncodeInode(x) + x.content + rest && |EncodeInode(x)| == 312
      && at + 312 + |x.content| <= |file| && Layout(file[at..at + 312], x)
      && file[at + 312..at + 312 + |x.content|] == x.content
  {
    hide EncodeInode, Layout;
    StructSize(x);
    InodeLayout(x);
    var file, head := before + (EncodeInode(x) + x.content + rest), before + EncodeInode(x);
    assert file == head + x.content + rest;
    assert file[|before|..|before| + 312] == EncodeInode(x);
    assert file[|head|..|head| + |x.content|] == x.content;
  }

  lemma StructSize(x: Inode)
    requires |x.path| <= 256
    ensures |EncodeInode(x)| == 312
  {
    hide Bytes, Number;
  }

  // Loading what was saved calls read(2) once for the count and twice for each active inode.
  lemma CallsOfSave(fs: Fs)
    requires Storable(fs)
    ensures ReadCalls(Save(fs)) == 1 + 2 * |Actives(fs, 0)|
  {
    hide LoadAll, EncodeAll, Bytes, Number, InodeStorable;
    var xs := Actives(fs, 0);
    ActivesCount(fs, 0);
    forall x | x in xs ensures InodeStorable(x) { ActivesAre(fs, 0, x); }
    Word4(|xs|);
    LoadOfEncode(Bytes(|xs|, 4), xs);
    assert Read(Save(fs), 0, 4) == Bytes(|xs|, 4);
  }

  // What a read at the end of the file, and the first inode of a file that ends within its content, come to.
  lemma LoadLast(before: string, x: Inode, part: string, n: nat)
    requires InodeStorable(x) && part <= x.content
    ensures LoadAll(before + EncodeInode(x) + part, |before|, n + 1) == [x.(content := PadTo(part, |x.content|))]
  {
    hide EncodeInode, DecodeInode, SizeOf, InodeStorable, LoadAll;
    var file, y := before + EncodeInode(x) + part, x.(content := PadTo(part, |x.content|));
    InodeRoundTrip(x);
    SameStruct(x, y);
    InodeRoundTrip(y);
    LoadStep(file, |before|, n);
    ReadMiddle(before, EncodeInode(x), part);
    assert Read(file, |before| + INODE_SIZE, |x.content|) == part;
    NothingLeft(file, |file|, n);
  }

  lemma SameStruct(x: Inode, y: Inode)
    requires InodeStorable(x) && y == x.(content := y.content) && |y.content| == |x.content|
    ensures EncodeInode(y) == EncodeInode(x) && InodeStorable(y)
  {
    hide Bytes;
  }

  lemma NothingLeft(file: string, at: nat, n: nat)
    requires at >= |file|
    ensures LoadAll(file, at, n) == []
  {
  }

  lemma {:induction false} LoadCut(before: string, done: seq<Inode>, x: Inode, part: string, n: nat)
    requires InodeStorable(x) && part <= x.content && forall y :: y in done ==> InodeStorable(y)
    ensures LoadAll(before + (EncodeAll(done) + (EncodeInode(x) + part)), |before|, |done| + 1 + n)
      == done + [x.(content := PadTo(part, |x.content|))]
    decreases |done|
  {
    hide EncodeInode, InodeStorable, Read, LoadAll, PadTo;
    var end := EncodeInode(x) + part;
    var file := before + (EncodeAll(done) + end);
    if done == [] {
      assert file == before + EncodeInode(x) + part;
      LoadLast(before, x, part, n);
      return;
    }
    var y, rest := done[0], EncodeAll(done[1..]);
    assert y in done;
    assert file == before + (EncodeInode(y) + y.content + (rest + end));
    ReadInode(before, y, rest + end);
    assert file == before + EncodeInode(y) + y.content + (rest + end);
    LoadCut(before + EncodeInode(y) + y.content, done[1..], x, part, n);
    LoadOne(file, |before|, |done| + n, y);
    assert done == [y] + done[1..];
  }

  // A dump that ends within the content of an inode: all before it are loaded, that one with its size
  // and zeros for what is missing, and the slots of the others stay empty. It takes one read more than
  // what was read, the one that finds the end.
  lemma LoadOfCutSave(fs: Fs, done: seq<Inode>, x: Inode, rest: seq<Inode>, part: string)
    requires Storable(fs) && Actives(fs, 0) == done + [x] + rest && part <= x.content
    ensures var amount := |done| + 1 + |rest|;
      var file := CutFile(amount, done, x, part);
      && file <= Save(fs)
      && Load(file) == Loaded(done + [x.(content := part + Zeros(|x.content| - |part|))], amount)
      && ReadCalls(file) == 1 + 2 * (|done| + 1) + if rest == [] then 0 else 1
  {
    hide LoadAll, EncodeAll, Bytes, Number, InodeStorable, PadTo, EncodeInode, Actives, Save, CutFile, Loaded;
    var xs, amount := Actives(fs, 0), |done| + 1 + |rest|;
    ActivesCount(fs, 0);
    forall y | y in xs ensures InodeStorable(y) { ActivesAre(fs, 0, y); }
    assert x in xs && forall y :: y in done ==> y in xs;
    Padded(part, |x.content|);
    CutHead(amount, done, x, part);
    CutIsPrefix(fs, done, x, rest, part);
    LoadCut(Bytes(amount, 4), done, x, part, |rest|);
  }

  lemma Padded(s: string, n: nat)
    requires |s| <= n
    ensures PadTo(s, n) == s + Zeros(n - |s|)
  {
  }

  // The file up to somewhere in the content of x.
  ghost function CutFile(amount: nat, done: seq<Inode>, x: Inode, part: string): string {
    Bytes(amount, 4) + (EncodeAll(done) + (EncodeInode(x) + part))
  }

  lemma CutHead(amount: uint32, done: seq<Inode>, x: Inode, part: string)
    ensures var file := CutFile(amount, done, x, part);
      var head := Read(file, 0, 4);
      && |head| == 4 && Number(PadTo(head, 4)) == amount
      && file == Bytes(amount, 4) + (EncodeAll(done) + (EncodeInode(x) + part))
  {
    hide EncodeAll, EncodeInode, Bytes, Number;
    Word4(amount);
    assert Read(CutFile(amount, done, x, part), 0, 4) == Bytes(amount, 4);
  }

  lemma CutIsPrefix(fs: Fs, done: seq<Inode>, x: Inode, rest: seq<Inode>, part: string)
    requires Actives(fs, 0) == done + [x] + rest && part <= x.content
    ensures CutFile(|done| + 1 + |rest|, done, x, part) <= Save(fs)
  {
    hide EncodeAll, EncodeInode, Bytes, Actives;
    EncodeOf(done, x, rest);
    var file := CutFile(|done| + 1 + |rest|, done, x, part);
    assert Save(fs) == file + (x.content[|part|..] + EncodeAll(rest));
  }

  lemma {:induction false} EncodeOf(done: seq<Inode>, x: Inode, rest: seq<Inode>)
    ensures EncodeAll(done + [x] + rest) == EncodeAll(done) + (EncodeInode(x) + x.content + EncodeAll(rest))
    decreases |done|
  {
    hide EncodeInode;
    var all := done + [x] + rest;
    if done == [] {
      assert all[0] == x && all[1..] == rest;
    } else {
      assert all[0] == done[0] && all[1..] == done[1..] + [x] + rest;
      EncodeOf(done[1..], x, rest);
    }
  }

  // A dump that ends within the path of an inode gives an inode nobody made: an empty file, whose path
  // is what there is of the path.
  lemma CutPath(before: string, path: string, n: nat)
    requires 0 < |path| <= MAX_PATH && NUL !in path
    ensures LoadAll(before + path, |before|, n + 1) == [Inode(path, "", File, Meta(0, 0, 0, 0, 0, 0))]
  {
    hide LoadAll, Number, DecodeMeta, Text;
    var file, struct, rest := before + path, PadTo(path, INODE_SIZE), MAX_PATH + 8;
    assert file == before + path + "";
    ReadMiddle(before, path, "");
    assert struct[MAX_PATH..][8..][..4] == Zeros(4) && struct[MAX_PATH..][8..][4..][..4] == Zeros(4);
    assert struct[MAX_PATH..][8..][4..][4..] == Zeros(40);
    NoNumber(4);
    NoMeta();
    TextIs(struct[..MAX_PATH], path);
    LoadStep(file, |before|, n);
    NothingLeft(file, |file|, n);
  }

  lemma {:induction false} NoNumber(n: nat)
    ensures Number(Zeros(n)) == 0
  {
    if n > 0 {
      assert Zeros(n)[1..] == Zeros(n - 1);
      NoNumber(n - 1);
    }
  }

  lemma NoMeta()
    ensures DecodeMeta(Zeros(40)) == Meta(0, 0, 0, 0, 0, 0)
  {
    hide Number;
    NoNumber(4);
    NoNumber(8);
    var s := Zeros(40);
    assert s[8..] == Zeros(32) && Zeros(32)[8..] == Zeros(24) && Zeros(24)[8..] == Zeros(16);
    assert Zeros(16)[4..] == Zeros(12) && Zeros(12)[4..] == Zeros(8);
    assert s[..8] == Zeros(8) && Zeros(32)[..8] == Zeros(8) && Zeros(24)[..8] == Zeros(8);
    assert Zeros(16)[..4] == Zeros(4) && Zeros(12)[..4] == Zeros(4) && Zeros(8)[..4] == Zeros(4);
  }

  // So after a restart every lookup and every listing is as before.
  lemma RestartKeepsView(fs: Fs)
    requires Shape(fs) && Distinct(fs) && Storable(fs)
    ensures Shape(Load(Save(fs))) && Distinct(Load(Save(fs))) && View(Load(Save(fs))) == View(fs)
  {
    hide Load, Save, View, InodeStorable;
    LoadOfSave(fs);
    ActivesDistinct(fs, 0);
    var fs1 := Load(Save(fs));
    var xs := Actives(fs, 0);
    assert forall i :: Active(fs1, i) <==> 0 <= i < |xs|;
    assert Distinct(fs1);
    ViewDescribes(fs, View(fs));
    hide Actives;
    forall i | Active(fs1, i) ensures fs1.inodes[i].path in View(fs) && View(fs)[fs1.inodes[i].path] == fs1.inodes[i] {
      assert xs[i] in xs;
      ActivesAre(fs, 0, xs[i]);
    }
    forall p | p in View(fs) ensures exists i :: Active(fs1, i) && fs1.inodes[i].path == p {
      var k :| Active(fs, k) && fs.inodes[k].path == p;
      ActivesAre(fs, 0, fs.inodes[k]);
      assert fs.inodes[k] in xs;
      var i :| 0 <= i < |xs| && xs[i] == fs.inodes[k];
      assert Active(fs1, i);
    }
    ViewDescribes(fs1, View(fs));
  }

  // ---------------------------------------------------------------- whole runs

  datatype Op =
    | Mkdir(path: string, meta: Meta)
    | Create(path: string, meta: Meta)
    | Unlink(path: string)
    | Rmdir(path: string)
    | Write(path: string, data: string, offset: nat, now: uint64)
    | Restart                     // unmount and mount again

  // What FUSE and the kernel establish before they call an operation: the path of a new node is
  // free and below an existing directory (or too long, and refused).
  ghost predicate Allowed(fs: Fs, op: Op) {
    match op
    case Mkdir(path, _) => Absolute(path) && (Creatable(fs, path) || |path| > MAX_PATH)
    case Create(path, _) => Absolute(path) && (Creatable(fs, path) || |path| > MAX_PATH)
    case Unlink(path) => Absolute(path)
    case Rmdir(path) => Absolute(path) && path != "/"
    case Write(_, _, _, _) => true
    case Restart => Storable(fs)
  }

  ghost function Do(fs: Fs, op: Op): Fs
    requires Shape(fs) && Allowed(fs, op)
  {
    match op
    case Mkdir(path, meta) => Make(fs, path, Dir, meta).0
    case Create(path, meta) => Make(fs, path, File, meta).0
    case Unlink(path) => FsTable.Unlink(fs, path).0
    case Rmdir(path) => FsTable.Rmdir(fs, path).0
    case Write(path, data, offset, now) => FsTable.Write(fs, path, data, offset, now).0
    case Restart => Load(Save(fs))
  }

  ghost predicate IsStep(fs: Fs, op: Op, fs1: Fs) { Shape(fs) && Allowed(fs, op) && fs1 == Do(fs, op) }

  ghost predicate IsRun(states: seq<Fs>, ops: seq<Op>) {
    && |states| == |ops| + 1
    && forall i :: 0 <= i < |ops| ==> IsStep(states[i], ops[i], states[i + 1])
  }

  lemma StepKeeps(fs: Fs, op: Op)
    requires Consistent(fs) && Allowed(fs, op)
    ensures Consistent(Do(fs, op))
  {
    hide Distinct, TreeOk, Storable, Load, Save, Make, FsTable.Unlink, FsTable.Rmdir, FsTable.Write, Creatable;
    match op
    case Mkdir(path, meta) => MakeKeepsExactly(fs, path, Dir, meta);
    case Create(path, meta) => MakeKeepsExactly(fs, path, File, meta);
    case Unlink(path) => UnlinkKeeps(fs, path);
    case Rmdir(path) => RmdirKeeps(fs, path);
    case Write(path, data, offset, now) => WriteKeeps(fs, path, data, offset, now);
    case Restart => RestartKeepsView(fs);
  }

  // In every reachable state, restarts included, active paths are distinct, the parent of every
  // inode but the root is a directory, and every directory lists its children's names exactly once.
  lemma {:induction false} AlwaysConsistent(states: seq<Fs>, ops: seq<Op>, meta: Meta, n: nat)
    requires IsRun(states, ops) && states[0] == CreateInode(Fs([], []), "/", Dir, meta).0 && n <= |ops|
    ensures Consistent(states[n])
  {
    hide Consistent, Do, Allowed, CreateInode;
    if n == 0 {
      InitConsistent(meta);
    } else {
      AlwaysConsistent(states, ops, meta, n - 1);
      assert IsStep(states[n - 1], ops[n - 1], states[n - 1 + 1]);
      StepKeeps(states[n - 1], ops[n - 1]);
    }
  }
}
