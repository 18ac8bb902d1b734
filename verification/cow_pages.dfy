// Copy-on-write fork on page-table words and the real allocator: every step that cow_fork.dfy speaks
// of is made of operations of sched/kern/pmap.c and sched/kern/syscall.c, and keeps the flat map of
// cow_fork.dfy a true picture of memory. An environment is named by its page directory.
module CowPages {
  import C = CowFork
  import opened FreeList
  import opened PageTables
  import opened Pmap

  const MAP_RO := 5                // PTE_P | PTE_U
  const MAP_RW := 7                // PTE_P | PTE_U | PTE_W
  const COW_BIT := 0x800           // PTE_COW
  const IO_BITS := 0x18            // PTE_PCD | PTE_PWT

  predicate IsUser(w: nat) { w / 4 % 2 == 1 }
  predicate IsCow(w: nat) { w / COW_BIT % 2 == 1 }
  predicate IsIo(w: nat) { w / 8 % 4 != 0 }

  // What the library reads from uvpt[v] of environment a.0.
  ghost function EntryAt(m: Mem, a: C.Va): nat { Entry(m, a.0, a.1 / NPTENTRIES, a.1 % NPTENTRIES) }

  ghost predicate IsPage(dirs: set<nat>, a: C.Va) { a.0 in dirs && a.1 < C.USER_PAGES }

  function PteOf(w: nat): C.Pte { C.Pte(FrameOf(w), Writable(w), IsCow(w), IsIo(w)) }

  // c is the picture of memory m: its mappings are the nonzero entries of all page tables, each
  // with PTE_U, and it knows the contents of every page that is mapped.
  ghost predicate Shows(m: Mem, dirs: set<nat>, c: C.Memory) {
    && (forall a :: a in c.pt <==> IsPage(dirs, a) && EntryAt(m, a) != 0)
    && (forall a :: a in c.pt ==> ShowsAt(m, c, a))
  }

  ghost predicate ShowsAt(m: Mem, c: C.Memory, a: C.Va)
    requires a in c.pt
  {
    && c.pt[a] == PteOf(EntryAt(m, a)) && IsUser(EntryAt(m, a))
    && c.pt[a].frame in c.frames && c.pt[a].frame < |m.frames| && m.frames[c.pt[a].frame] == c.frames[c.pt[a].frame]
  }

  // Every state whose user mappings all have PTE_U has a picture.
  ghost function Picture(m: Mem, dirs: set<nat>): C.Memory {
    C.Memory(
      map d: nat, v: nat | d in dirs && 0 <= v < C.USER_PAGES && EntryAt(m, (d, v)) != 0 ::
        (d, v) := PteOf(EntryAt(m, (d, v))),
      map f: nat | 0 <= f < |m.frames| && |m.frames[f]| == C.PAGE_WORDS :: Page(m.frames[f]))
  }

  function Page(words: seq<nat>): C.Content
    requires |words| == C.PAGE_WORDS
  {
    words
  }

  lemma PictureShows(m: Mem, g: Ghost)
    requires Inv(m, g) && forall a :: IsPage(g.dirs, a) && EntryAt(m, a) != 0 ==> IsUser(EntryAt(m, a))
    ensures Shows(m, g.dirs, Picture(m, g.dirs))
  {
    hide Chain, Counted, FreeUnreferenced, Exclusive, Bounded, Entry;
    var c := Picture(m, g.dirs);
    forall a | IsPage(g.dirs, a) && EntryAt(m, a) != 0 ensures a in c.pt && c.pt[a] == PteOf(EntryAt(m, a)) {
      assert (a.0, a.1) == a;
    }
    forall a | a in c.pt ensures ShowsAt(m, c, a) {
      assert EntryOk(m, EntryAt(m, a));
    }
  }

  // ---------------------------------------------------------------- entries

  lemma PageVa(v: nat)
    requires v < C.USER_PAGES
    ensures PDX(v * PGSIZE) == v / NPTENTRIES < USER_PDES && PTX(v * PGSIZE) == v % NPTENTRIES
  {
    assert v * PGSIZE / PGSIZE == v;
    assert v * PGSIZE / 0x40_0000 == v / NPTENTRIES;
  }

  lemma LowBits(w: nat)
    ensures Writable(w) == Writable(w % PGSIZE) && IsUser(w) == IsUser(w % PGSIZE)
    ensures IsCow(w) == IsCow(w % PGSIZE) && IsIo(w) == IsIo(w % PGSIZE)
  {
    hide Writable, IsUser, IsCow, IsIo;
    var f, low := w / PGSIZE, w % PGSIZE;
    BitOne(f, low);
    BitTwo(f, low);
    BitEleven(f, low);
    BitsThreeFour(f, low);
  }

  lemma Even(a: nat, b: nat)
    ensures (2 * a + b) % 2 == b % 2
  {
  }

  lemma BitOne(f: nat, low: nat)
    ensures Writable(PGSIZE * f + low) == Writable(low)
  {
    assert (PGSIZE * f + low) / 2 == 2 * (1024 * f) + low / 2;
    Even(1024 * f, low / 2);
  }

  lemma BitTwo(f: nat, low: nat)
    ensures IsUser(PGSIZE * f + low) == IsUser(low)
  {
    assert (PGSIZE * f + low) / 4 == 2 * (512 * f) + low / 4;
    Even(512 * f, low / 4);
  }

  lemma BitEleven(f: nat, low: nat)
    ensures IsCow(PGSIZE * f + low) == IsCow(low)
  {
    assert (PGSIZE * f + low) / COW_BIT == 2 * f + low / COW_BIT;
    Even(f, low / COW_BIT);
  }

  lemma BitsThreeFour(f: nat, low: nat)
    ensures IsIo(PGSIZE * f + low) == IsIo(low)
  {
    assert (PGSIZE * f + low) / 8 == 4 * (128 * f) + low / 8;
    MultipleOfFour(128 * f, low / 8);
  }

  lemma MultipleOfFour(a: nat, b: nat)
    ensures (4 * a + b) % 4 == b % 4
  {
  }

  lemma EntryBits(p: nat, perm: nat)
    requires perm < PGSIZE
    ensures FrameOf(MakeEntry(p, perm)) == p
    ensures PteOf(MakeEntry(p, perm)) == C.Pte(p, Writable(perm), IsCow(perm), IsIo(perm))
    ensures IsUser(MakeEntry(p, perm)) == IsUser(perm)
  {
    hide MakeEntry, KeepsFrame;
    EntryNames(p, perm);
    var low := MakeEntry(p, perm) % PGSIZE;
    LowBits(MakeEntry(p, perm));
    assert low / 2 == perm / 2;
    assert low / 4 == low / 2 / 2 && low / 8 == low / 2 / 4 && low / COW_BIT == low / 2 / 1024;
    assert perm / 4 == perm / 2 / 2 && perm / 8 == perm / 2 / 4 && perm / COW_BIT == perm / 2 / 1024;
  }

  // ---------------------------------------------------------------- what the operations do to a picture

  lemma MappedUntouchable(m: Mem, g: Ghost, a: C.Va)
    requires Inv(m, g) && IsPage(g.dirs, a) && EntryAt(m, a) != 0
    ensures Untouchable(m, g, FrameOf(EntryAt(m, a)))
  {
    hide Chain, Counted, Bounded;
    var sl := Pte(a.0, a.1 / NPTENTRIES, a.1 % NPTENTRIES);
    assert Live(g.dirs, sl) && Target(m, sl) == FrameOf(EntryAt(m, a));
    assert EntryOk(m, EntryAt(m, a));
  }

  // One address changes, pages that are neither free nor tables keep their contents, and the
  // picture is repainted at that address.
  lemma Repainted(m0: Mem, g0: Ghost, m1: Mem, c: C.Memory, c1: C.Memory, a: C.Va)
    requires Inv(m0, g0) && Shows(m0, g0.dirs, c) && IsPage(g0.dirs, a)
    requires OnlyEntry(m0, m1, g0.dirs, a.0, a.1 / NPTENTRIES, a.1 % NPTENTRIES) && ContentsKept(m0, m1, g0)
    requires forall b :: b != a ==> (b in c1.pt <==> b in c.pt) && (b in c.pt ==> c1.pt[b] == c.pt[b])
    requires forall f :: f in c.frames && f !in g0.list ==> f in c1.frames && c1.frames[f] == c.frames[f]
    requires (a in c1.pt <==> EntryAt(m1, a) != 0) && (a in c1.pt ==> ShowsAt(m1, c1, a))
    ensures Shows(m1, g0.dirs, c1)
  {
    hide Inv, Entry, PteOf, Untouchable;
    forall b | IsPage(g0.dirs, b) && b != a ensures EntryAt(m1, b) == EntryAt(m0, b) {
      SamePlace(a, b);
    }
    forall b | b in c1.pt && b != a ensures ShowsAt(m1, c1, b) {
      assert ShowsAt(m0, c, b);
      MappedUntouchable(m0, g0, b);
      UntouchableKept(m0, m1, g0, FrameOf(EntryAt(m0, b)));
      PteFrame(EntryAt(m0, b));
    }
  }

  lemma SamePlace(a: C.Va, b: C.Va)
    requires a != b
    ensures (b.0, b.1 / NPTENTRIES, b.1 % NPTENTRIES) != (a.0, a.1 / NPTENTRIES, a.1 % NPTENTRIES)
  {
  }

  lemma UntouchableKept(m0: Mem, m1: Mem, g: Ghost, f: nat)
    requires Untouchable(m0, g, f) && ContentsKept(m0, m1, g)
    ensures f < |m0.frames| == |m1.frames| && m1.frames[f] == m0.frames[f] && f !in g.list
  {
  }

  lemma PteFrame(w: nat)
    ensures PteOf(w).frame == FrameOf(w)
  {
  }

  lemma WriteMapped(m: Mem, g: Ghost, k: nat, c: C.Memory, a: C.Va, page: C.Content) returns (m1: Mem, c1: C.Memory)
    requires Inv(m, g) && KernelOk(m, g, k) && Shows(m, g.dirs, c) && a in c.pt
    ensures var f := c.pt[a].frame;
      f < |m.frames| && m1 == m.(frames := m.frames[f := page]) && c1 == C.CopyPage(c, f, page)
    ensures Inv(m1, g) && KernelOk(m1, g, k) && Shows(m1, g.dirs, c1) && SameEntries(m, m1, g.dirs)
  {
    hide Untouchable, PteOf, Chain, Typed, Shape;
    assert ShowsAt(m, c, a);
    PteFrame(EntryAt(m, a));
    MappedUntouchable(m, g, a);
    var f := FrameOf(EntryAt(m, a));
    m1, c1 := m.(frames := m.frames[f := page]), C.CopyPage(c, f, page);
    NoTable(m, g, f);
    OneFrame(m, m1, f, page);
    WriteNoTable(m, m1, g.dirs, f);
    SameInv(m, m1, g);
    assert Target(m, Pte(a.0, a.1 / NPTENTRIES, a.1 % NPTENTRIES)) == f;
    assert f != k;
    forall b | IsPage(g.dirs, b) ensures EntryAt(m1, b) == EntryAt(m, b) {}
    forall b | b in c1.pt ensures ShowsAt(m1, c1, b) { assert ShowsAt(m, c, b); }
  }

  lemma NoTable(m: Mem, g: Ghost, f: nat)
    requires Untouchable(m, g, f)
    ensures f < |m.frames| && forall s :: Live(g.dirs, s) && !s.Pte? ==> Target(m, s) != f
  {
  }

  lemma OneFrame(m: Mem, m1: Mem, f: nat, page: C.Content)
    requires Shape(m) && f < |m.frames| && m1 == m.(frames := m.frames[f := page])
    ensures Shape(m1) && m1.frames == m.frames[f := m1.frames[f]]
  {
  }

  lemma SameInv(m: Mem, m1: Mem, g: Ghost)
    requires Inv(m, g) && SameSlots(m, m1, g.dirs) && m1.pages == m.pages && m1.free == m.free && Shape(m1)
    requires Typed(m1, g.dirs)
    ensures Inv(m1, g)
  {
    hide Typed, Shape, Linked;
    ChainLinksOnly(m, m1, g.list);
    assert forall p :: Refs(m1, g, p) == Refs(m, g, p);
  }

  lemma MapShows(m0: Mem, g0: Ghost, m1: Mem, g1: Ghost, c: C.Memory, src: C.Va, dst: C.Va, perm: nat)
    requires Inv(m0, g0) && Shows(m0, g0.dirs, c) && IsPage(g0.dirs, dst) && C.CanMap(c, src, Writable(perm))
    requires perm < PGSIZE && IsUser(perm)
    requires Inserted(m0, g0, m1, g1, c.pt[src].frame, dst.0, dst.1 / NPTENTRIES, dst.1 % NPTENTRIES, perm)
    requires ContentsKept(m0, m1, g0)
    ensures Shows(m1, g0.dirs, C.PageMap(c, src, dst, Writable(perm), IsCow(perm), IsIo(perm)))
  {
    hide Inv, MakeEntry, Entry, Untouchable, ContentsKept, OnlyEntry, IsUser, IsIo, IsCow, Writable;
    var p := c.pt[src].frame;
    assert ShowsAt(m0, c, src);
    MappedUntouchable(m0, g0, src);
    UntouchableKept(m0, m1, g0, p);
    EntryBits(p, perm);
    Repainted(m0, g0, m1, c, C.PageMap(c, src, dst, Writable(perm), IsCow(perm), IsIo(perm)), dst);
  }

  // No mapped page is free.
  lemma FreeUnmapped(m: Mem, g: Ghost, c: C.Memory, f: nat)
    requires Inv(m, g) && Shows(m, g.dirs, c) && f in g.list
    ensures C.Unmapped(c, f)
  {
    hide Inv;
    forall a | a in c.pt ensures c.pt[a].frame != f {
      assert ShowsAt(m, c, a);
      MappedUntouchable(m, g, a);
    }
  }

  lemma AllocShows(m0: Mem, g0: Ghost, m1: Mem, c: C.Memory, a: C.Va, f: nat)
    requires Inv(m0, g0) && Shows(m0, g0.dirs, c) && IsPage(g0.dirs, a) && f in g0.list
    requires f < |m1.frames| && |m1.frames[f]| == NPTENTRIES && forall k :: 0 <= k < NPTENTRIES ==> Word(m1, f, k) == 0
    requires EntryAt(m1, a) == MakeEntry(f, MAP_RW) && ContentsKept(m0, m1, g0)
    requires OnlyEntry(m0, m1, g0.dirs, a.0, a.1 / NPTENTRIES, a.1 % NPTENTRIES)
    ensures C.Unmapped(c, f) && Shows(m1, g0.dirs, C.PageAlloc(c, a, true, f))
  {
    hide Inv, MakeEntry, Entry, Untouchable, ContentsKept, OnlyEntry;
    FreeUnmapped(m0, g0, c, f);
    EntryBits(f, MAP_RW);
    assert m1.frames[f] == C.ZeroPage() by {
      forall k | 0 <= k < NPTENTRIES ensures m1.frames[f][k] == 0 { assert Word(m1, f, k) == 0; }
    }
    Repainted(m0, g0, m1, c, C.PageAlloc(c, a, true, f), a);
  }

  lemma RemoveShows(m0: Mem, g0: Ghost, m1: Mem, g1: Ghost, c: C.Memory, a: C.Va)
    requires Inv(m0, g0) && Shows(m0, g0.dirs, c) && IsPage(g0.dirs, a)
    requires Removed(m0, g0, m1, g1, -1, a.0, a.1 / NPTENTRIES, a.1 % NPTENTRIES) && TablesOnly(m0, m1, g0.dirs)
    ensures Shows(m1, g0.dirs, C.PageUnmap(c, a))
  {
    hide Inv, Entry, OnlyEntry, Released;
    Repainted(m0, g0, m1, c, C.PageUnmap(c, a), a);
  }

  // The word that page_insert stores for twelve-bit permissions with PTE_P.
  lemma EntryIs(p: nat, perm: nat)
    requires perm < PGSIZE && Present(perm)
    ensures MakeEntry(p, perm) == p * PGSIZE + perm
  {
    hide MakeEntry, KeepsFrame;
    EntryNames(p, perm);
    var w := MakeEntry(p, perm);
    PresentWord(w);
    assert w == FrameOf(w) * PGSIZE + w % PGSIZE;
  }

  // The entries of all pages but a are as they were.
  ghost predicate OnlyAt(m0: Mem, m1: Mem, dirs: set<nat>, a: C.Va) {
    forall b :: IsPage(dirs, b) && b != a ==> EntryAt(m1, b) == EntryAt(m0, b)
  }

  lemma OneEntry(m0: Mem, m1: Mem, dirs: set<nat>, a: C.Va)
    requires OnlyEntry(m0, m1, dirs, a.0, a.1 / NPTENTRIES, a.1 % NPTENTRIES)
    ensures OnlyAt(m0, m1, dirs, a)
  {
    hide Entry;
    forall b | IsPage(dirs, b) && b != a ensures EntryAt(m1, b) == EntryAt(m0, b) {
      SamePlace(a, b);
    }
  }

  // ---------------------------------------------------------------- the calls of the library

  // One more mapping of the page at a can be counted, or b maps it already.
  ghost predicate Countable(m: Mem, c: C.Memory, a: C.Va, b: C.Va) {
    a in c.pt ==>
      || (c.pt[a].frame < |m.pages| && m.pages[c.pt[a].frame].ref != REF_LIMIT - 1)
      || (b in c.pt && c.pt[b].frame == c.pt[a].frame)
  }

  lemma CountedAlready(m: Mem, c: C.Memory, a: C.Va)
    ensures Countable(m, c, a, a)
  {
  }

  // sys_page_map, once the environments are looked up.
  method SysPageMap(mem: PhysicalMemory, src: C.Va, dst: C.Va, perm: nat, ghost c: C.Memory) returns (r: int)
    requires mem.Valid() && IsPage(mem.g.dirs, src) && IsPage(mem.g.dirs, dst) && Shows(mem.State(), mem.g.dirs, c)
    requires perm < PGSIZE && IsUser(perm) && Countable(mem.State(), c, src, dst)
    modifies mem, mem.pages, mem.frames
    ensures mem.Valid() && mem.g.dirs == old(mem.g.dirs) && (r == 0 || r == -E_INVAL || r == -E_NO_MEM)
    ensures r == -E_INVAL <==> !C.CanMap(c, src, Writable(perm))
    ensures r == -E_NO_MEM <==>
      r != -E_INVAL && old(Word(mem.State(), dst.0, dst.1 / NPTENTRIES) == 0 && mem.g.list == [])
    ensures r != 0 ==> mem.State() == old(mem.State()) && mem.g == old(mem.g)
    ensures r == 0 ==> (
      && Shows(mem.State(), mem.g.dirs, C.PageMap(c, src, dst, Writable(perm), IsCow(perm), IsIo(perm)))
      && OnlyAt(old(mem.State()), mem.State(), mem.g.dirs, dst)
      && (Present(perm) ==> EntryAt(mem.State(), dst) == FrameOf(old(EntryAt(mem.State(), src))) * PGSIZE + perm))
  {
    hide Loose, Bounded, KernelOk, PDX, PTX, MakeEntry, KeepsFrame, Miscounted, Untouchable, ContentsKept, OnlyEntry,
      IsUser, IsIo, IsCow, Writable;
    ghost var m0, g0 := mem.State(), mem.g;
    PageVa(src.1);
    PageVa(dst.1);
    if src in c.pt { assert ShowsAt(m0, c, src); SameBits(EntryAt(m0, src)); }
    if dst in c.pt { assert ShowsAt(m0, c, dst); }
    EntryNames(if src in c.pt then c.pt[src].frame else 0, perm);
    r := mem.EnvPageMap(src.0, src.1 * PGSIZE, dst.0, dst.1 * PGSIZE, perm);
    if r == 0 {
      MapShows(m0, g0, mem.State(), mem.g, c, src, dst, perm);
      OneEntry(m0, mem.State(), g0.dirs, dst);
      if Present(perm) { EntryIs(FrameOf(EntryAt(m0, src)), perm); }
    }
  }

  lemma SameBits(w: nat)
    ensures PteOf(w).w == Writable(w) && PteOf(w).cow == IsCow(w) && PteOf(w).io == IsIo(w)
  {
  }

  // sys_page_alloc with write permission, once the environment is looked up.
  method SysPageAlloc(mem: PhysicalMemory, a: C.Va, ghost c: C.Memory) returns (r: int)
    requires mem.Valid() && IsPage(mem.g.dirs, a) && Shows(mem.State(), mem.g.dirs, c)
    modifies mem, mem.pages, mem.frames
    ensures mem.Valid() && mem.g.dirs == old(mem.g.dirs) && (r == 0 || r == -E_NO_MEM)
    ensures r == -E_NO_MEM <==>
      |old(mem.g.list)| < if old(Word(mem.State(), a.0, a.1 / NPTENTRIES)) == 0 then 2 else 1
    ensures r == 0 ==> (
      && old(mem.g.list) != [] && C.Unmapped(c, old(mem.g.list)[0])
      && Shows(mem.State(), mem.g.dirs, C.PageAlloc(c, a, true, old(mem.g.list)[0]))
      && OnlyAt(old(mem.State()), mem.State(), mem.g.dirs, a)
      && EntryAt(mem.State(), a) == old(mem.g.list)[0] * PGSIZE + 7)
  {
    hide Loose, Bounded, KernelOk, PDX, PTX, MakeEntry, Untouchable, ContentsKept, OnlyEntry, Refs;
    ghost var m0, g0 := mem.State(), mem.g;
    PageVa(a.1);
    RwIsOk();
    r := mem.EnvPageAlloc(a.0, a.1 * PGSIZE, MAP_RW);
    if r == 0 {
      MappedFrame(mem.State(), mem.g, a, g0.list[0], MAP_RW);
      AllocShows(m0, g0, mem.State(), c, a, g0.list[0]);
      OneEntry(m0, mem.State(), g0.dirs, a);
      EntryIs(g0.list[0], MAP_RW);
    }
  }

  lemma MappedFrame(m: Mem, g: Ghost, a: C.Va, f: nat, perm: nat)
    requires Inv(m, g) && IsPage(g.dirs, a) && EntryAt(m, a) == MakeEntry(f, perm) && perm < PGSIZE
    ensures f < |m.frames| && |m.frames[f]| == NPTENTRIES
  {
    hide Chain, Counted, Bounded, MakeEntry, KeepsFrame;
    MappedUntouchable(m, g, a);
    EntryNames(f, perm);
  }

  lemma RwIsOk()
    ensures PermOk(MAP_RW)
  {
    PermOkMeans(7);
  }

  // uvpt[v], read by environment a.0.
  method ReadPte(mem: PhysicalMemory, a: C.Va) returns (w: nat)
    requires mem.Valid() && IsPage(mem.g.dirs, a)
    modifies mem, mem.pages, mem.frames
    ensures mem.Valid() && mem.State() == old(mem.State()) && mem.g == old(mem.g)
    ensures w == EntryAt(mem.State(), a)
  {
    hide Loose, Bounded, KernelOk, PDX, PTX;
    PageVa(a.1);
    var page, pt := mem.PageLookup(a.0, a.1 * PGSIZE);
    w := if page == -1 then 0 else mem.frames[pt][PTX(a.1 * PGSIZE)];
  }

  // The permissions that duppage asks for.
  function DupPerm(io: bool, cow: bool): (perm: nat)
    ensures perm < PGSIZE && Present(perm) && IsUser(perm) && !Writable(perm) && IsCow(perm) == cow && IsIo(perm) == io
  {
    MAP_RO + (if io then IO_BITS else 0) + if cow then COW_BIT else 0
  }

  lemma Mapped(m: Mem, dirs: set<nat>, c: C.Memory, a: C.Va)
    requires Shows(m, dirs, c) && a in c.pt
    ensures IsPage(dirs, a) && c.pt[a].frame in c.frames && Word(m, a.0, a.1 / NPTENTRIES) != 0
  {
    assert ShowsAt(m, c, a);
  }

  // What the library reads from uvpt is what the picture shows.
  lemma ReadsAs(m: Mem, dirs: set<nat>, c: C.Memory, a: C.Va)
    requires Shows(m, dirs, c) && IsPage(dirs, a)
    ensures a in c.pt <==> EntryAt(m, a) != 0
    ensures a in c.pt ==> (
      && c.pt[a].w == Writable(EntryAt(m, a))
      && c.pt[a].cow == IsCow(EntryAt(m, a)) && c.pt[a].io == IsIo(EntryAt(m, a)))
  {
    if a in c.pt { assert ShowsAt(m, c, a); }
  }

  // Can one more mapping of the page be counted?
  method CanCount(mem: PhysicalMemory, a: C.Va, b: C.Va, ghost c: C.Memory) returns (ok: bool)
    requires mem.Valid() && IsPage(mem.g.dirs, a) && IsPage(mem.g.dirs, b) && Shows(mem.State(), mem.g.dirs, c)
    modifies mem, mem.pages, mem.frames
    ensures mem.Valid() && mem.State() == old(mem.State()) && mem.g == old(mem.g)
    ensures ok <==> Countable(mem.State(), c, a, b)
  {
    hide Chain, Counted, FreeUnreferenced, Typed, Bounded, KernelOk, Entry;
    var from := ReadPte(mem, a);
    var to := ReadPte(mem, b);
    if a in c.pt { assert ShowsAt(mem.State(), c, a); }
    if b in c.pt { assert ShowsAt(mem.State(), c, b); }
    ok := from == 0 || mem.pages[FrameOf(from)].ref != REF_LIMIT - 1 || (to != 0 && FrameOf(to) == FrameOf(from));
  }

  // The entries that duppage leaves where the parent had the word w. A page that was writable (bit 1)
  // or copy-on-write (bit 11) gets P, U and bit 11 on both sides, any other P and U in the child only;
  // the cache-control bits, 3 and 4, are asked for together.
  ghost predicate Marked(w: nat, parent: nat, child: nat) {
    var base := w / 4096 * 4096 + if w / 8 % 4 != 0 then 0x18 else 0;
    if w / 2 % 2 == 1 || w / 0x800 % 2 == 1 then
      parent == child == base + 0x805
    else
      child == base + 0x005 && parent == w
  }

  // Bit by bit: both sides name the frame and keep being user entries; neither is writable.
  lemma MarkedBits(w: nat, parent: nat, child: nat)
    requires Marked(w, parent, child)
    ensures FrameOf(parent) == FrameOf(child) == FrameOf(w) && IsUser(child) && Present(child)
    ensures !Writable(parent) && !Writable(child)
    ensures IsCow(child) == (Writable(w) || IsCow(w)) && (IsCow(child) ==> IsCow(parent) && IsUser(parent))
    ensures IsIo(child) == IsIo(w) && IsIo(parent) == IsIo(w)
  {
    hide Marked, DupPerm, PteOf, MakeEntry, IsUser, IsCow, IsIo, Writable;
    var f, cow := FrameOf(w), Writable(w) || IsCow(w);
    var perm := DupPerm(IsIo(w), cow);
    MarkedIs(w, parent, child);
    EntryIs(f, perm);
    EntryBits(f, perm);
    SameBits(child);
    if cow { SameBits(parent); }
  }

  // The same words by the permissions that duppage computes.
  lemma MarkedIs(w: nat, parent: nat, child: nat)
    ensures Marked(w, parent, child) <==>
      && child == FrameOf(w) * PGSIZE + DupPerm(IsIo(w), Writable(w) || IsCow(w))
      && parent == if Writable(w) || IsCow(w) then child else w
  {
  }

  // duppage; false where the C code panics: nothing is mapped, or the child lacks a page table and
  // no page is free.
  method Duppage(mem: PhysicalMemory, parent: nat, child: nat, v: nat, ghost c: C.Memory) returns (ok: bool)
    requires mem.Valid() && IsPage(mem.g.dirs, (parent, v)) && IsPage(mem.g.dirs, (child, v)) && parent != child
    requires Shows(mem.State(), mem.g.dirs, c) && Countable(mem.State(), c, (parent, v), (child, v))
    modifies mem, mem.pages, mem.frames
    ensures mem.Valid() && mem.g.dirs == old(mem.g.dirs)
    ensures ok <==> (parent, v) in c.pt && old(Word(mem.State(), child, v / NPTENTRIES) != 0 || mem.g.list != [])
    ensures ok ==> Shows(mem.State(), mem.g.dirs, C.Exec(c, C.Dup(parent, child, v)))
    ensures !ok ==> mem.State() == old(mem.State())
    ensures ok ==> Marked(old(EntryAt(mem.State(), (parent, v))),
                          EntryAt(mem.State(), (parent, v)), EntryAt(mem.State(), (child, v)))
    ensures ok ==> forall a :: IsPage(mem.g.dirs, a) && a != (parent, v) && a != (child, v) ==>
      EntryAt(mem.State(), a) == old(EntryAt(mem.State(), a))
  {
    hide Loose, Bounded, KernelOk, DupPerm, PteOf, Shows, Entry, Countable, IsIo, IsCow, Writable, IsUser, Marked;
    var pte := ReadPte(mem, (parent, v));
    ReadsAs(mem.State(), mem.g.dirs, c, (parent, v));
    if pte == 0 {
      return false;
    }
    if Writable(pte) || IsCow(pte) {
      var r := SysPageMap(mem, (parent, v), (child, v), DupPerm(IsIo(pte), true), c);
      if r < 0 {
        return false;
      }
      ghost var c1 := C.ShareCow(c, parent, v, child);
      CountedAlready(mem.State(), c1, (parent, v));
      Mapped(mem.State(), mem.g.dirs, c1, (parent, v));
      r := SysPageMap(mem, (parent, v), (parent, v), DupPerm(IsIo(pte), true), c1);
      MarkedIs(pte, EntryAt(mem.State(), (parent, v)), EntryAt(mem.State(), (child, v)));
      return r == 0;
    } else {
      var r := SysPageMap(mem, (parent, v), (child, v), DupPerm(IsIo(pte), false), c);
      MarkedIs(pte, EntryAt(mem.State(), (parent, v)), EntryAt(mem.State(), (child, v)));
      return r == 0;
    }
  }

  // sys_page_unmap, once the environment is looked up.
  method SysPageUnmap(mem: PhysicalMemory, a: C.Va, ghost c: C.Memory)
    requires mem.Valid() && IsPage(mem.g.dirs, a) && Shows(mem.State(), mem.g.dirs, c)
    modifies mem, mem.pages, mem.frames
    ensures mem.Valid() && mem.g.dirs == old(mem.g.dirs)
    ensures Shows(mem.State(), mem.g.dirs, C.PageUnmap(c, a))
    ensures OnlyAt(old(mem.State()), mem.State(), mem.g.dirs, a) && EntryAt(mem.State(), a) == 0
  {
    hide Loose, Bounded, KernelOk, PDX, PTX, TablesOnly, OnlyEntry, Released;
    ghost var m0, g0 := mem.State(), mem.g;
    PageVa(a.1);
    mem.PageRemove(a.0, a.1 * PGSIZE);
    OneEntry(m0, mem.State(), g0.dirs, a);
    RemoveShows(m0, g0, mem.State(), mem.g, c, a);
  }

  // memmove of a whole page by a user environment, from a to b.
  method CopyUserPage(mem: PhysicalMemory, a: C.Va, b: C.Va, ghost c: C.Memory)
    requires mem.Valid() && Shows(mem.State(), mem.g.dirs, c) && a in c.pt && b in c.pt && c.pt[b].w
    modifies mem, mem.pages, mem.frames
    ensures mem.Valid() && mem.g == old(mem.g)
    ensures c.pt[a].frame in c.frames
    ensures Shows(mem.State(), mem.g.dirs, C.CopyPage(c, c.pt[b].frame, C.Contents(c, a)))
    ensures var m0, from, to := old(mem.State()), old(FrameOf(EntryAt(mem.State(), a))),
      old(FrameOf(EntryAt(mem.State(), b)));
      from < |m0.frames| && to < |m0.frames| && mem.State() == m0.(frames := m0.frames[to := m0.frames[from]])
    ensures SameEntries(old(mem.State()), mem.State(), mem.g.dirs)
  {
    hide Loose, Bounded, KernelOk, Entry;
    var from := ReadPte(mem, a);
    var to := ReadPte(mem, b);
    assert ShowsAt(mem.State(), c, a) && ShowsAt(mem.State(), c, b);
    ghost var m1, c1 := WriteMapped(mem.State(), mem.g, mem.kernPgdir, c, b, C.Contents(c, a));
    mem.frames[to / PGSIZE] := mem.frames[from / PGSIZE];
    assert mem.State() == m1;
  }

  // A store by a user environment through a writable entry.
  method UserWrite(mem: PhysicalMemory, e: nat, v: nat, k: nat, w: nat, ghost c: C.Memory)
    requires mem.Valid() && Shows(mem.State(), mem.g.dirs, c) && C.Enabled(c, C.Write(e, v, k, w))
    modifies mem, mem.pages, mem.frames
    ensures mem.Valid() && mem.g == old(mem.g)
    ensures Shows(mem.State(), mem.g.dirs, C.Exec(c, C.Write(e, v, k, w)))
    ensures var m0, f := old(mem.State()), old(FrameOf(EntryAt(mem.State(), (e, v))));
      f < |m0.frames| && k < |m0.frames[f]| && mem.State() == SetWord(m0, f, k, w)
    ensures SameEntries(old(mem.State()), mem.State(), mem.g.dirs)
  {
    hide Loose, Bounded, KernelOk, Entry;
    var to := ReadPte(mem, (e, v));
    assert ShowsAt(mem.State(), c, (e, v));
    ghost var page := C.WriteWord(C.Contents(c, (e, v)), k, w);
    ghost var m1, c1 := WriteMapped(mem.State(), mem.g, mem.kernPgdir, c, (e, v), page);
    mem.frames[to / PGSIZE] := mem.frames[to / PGSIZE][k := w];
    assert mem.State() == m1;
  }

  // A page with one mapping has count 1.
  lemma OnlyMapping(m: Mem, g: Ghost, c: C.Memory, a: C.Va)
    requires Inv(m, g) && Shows(m, g.dirs, c) && a in c.pt
    requires forall b :: b in c.pt && b != a ==> c.pt[b].frame != c.pt[a].frame
    ensures c.pt[a].frame < |m.pages| && m.pages[c.pt[a].frame].ref == 1
  {
    hide Chain, Entry, Typed, FreeUnreferenced;
    var f, sl := c.pt[a].frame, Pte(a.0, a.1 / NPTENTRIES, a.1 % NPTENTRIES);
    assert ShowsAt(m, c, a);
    MappedUntouchable(m, g, a);
    forall s ensures s in Refs(m, g, f) <==> s == sl {
      if s.Pte? && Live(g.dirs, s) && Target(m, s) == f {
        var b := (s.d, s.i * NPTENTRIES + s.j);
        assert b.1 / NPTENTRIES == s.i && b.1 % NPTENTRIES == s.j;
        assert b in c.pt && ShowsAt(m, c, b);
      }
    }
    assert Refs(m, g, f) == {sl};
  }

  lemma SameAt(m0: Mem, m1: Mem, dirs: set<nat>)
    requires SameEntries(m0, m1, dirs)
    ensures forall b :: IsPage(dirs, b) ==> EntryAt(m1, b) == EntryAt(m0, b)
  {
    hide Entry;
  }

  // pgfault from memmove on: the page at `temp`, mapped nowhere else, takes the place of page v.
  method ReplacePage(mem: PhysicalMemory, temp: C.Va, a: C.Va, ghost c: C.Memory)
    requires mem.Valid() && Shows(mem.State(), mem.g.dirs, c) && temp in c.pt && a in c.pt && temp != a && c.pt[temp].w
    requires forall b :: b in c.pt && b != temp ==> c.pt[b].frame != c.pt[temp].frame
    modifies mem, mem.pages, mem.frames
    ensures mem.Valid() && mem.g.dirs == old(mem.g.dirs) && c.pt[a].frame in c.frames
    ensures var copied := C.CopyPage(c, c.pt[temp].frame, C.Contents(c, a));
      Shows(mem.State(), mem.g.dirs, C.PageUnmap(C.PageMap(copied, temp, a, true, false, false), temp))
    ensures EntryAt(mem.State(), temp) == 0
    ensures EntryAt(mem.State(), a) == FrameOf(old(EntryAt(mem.State(), temp))) * PGSIZE + 7
    ensures forall b :: IsPage(mem.g.dirs, b) && b != a && b != temp ==>
      EntryAt(mem.State(), b) == old(EntryAt(mem.State(), b))
  {
    hide Loose, Bounded, KernelOk, Entry, Shows, ShowsAt;
    ghost var m0 := mem.State();
    Mapped(mem.State(), mem.g.dirs, c, a);
    Mapped(mem.State(), mem.g.dirs, c, temp);
    ghost var copied := C.CopyPage(c, c.pt[temp].frame, C.Contents(c, a));
    CopyUserPage(mem, a, temp, c);
    SameAt(m0, mem.State(), mem.g.dirs);
    OnlyMapping(mem.State(), mem.g, copied, temp);
    Mapped(mem.State(), mem.g.dirs, copied, a);
    var r := SysPageMap(mem, temp, a, MAP_RW, copied);
    SysPageUnmap(mem, temp, C.PageMap(copied, temp, a, true, false, false));
  }

  // pgfault at page v of environment e; false where sys_page_alloc fails, and the C code panics.
  method Pgfault(mem: PhysicalMemory, e: nat, v: nat, ghost c: C.Memory) returns (ok: bool)
    requires mem.Valid() && Shows(mem.State(), mem.g.dirs, c)
    requires (e, v) in c.pt && v != C.PFTEMP_PAGE && (e, C.PFTEMP_PAGE) !in c.pt
    modifies mem, mem.pages, mem.frames
    ensures mem.Valid() && mem.g.dirs == old(mem.g.dirs)
    ensures ok <==> |old(mem.g.list)| >= if old(Word(mem.State(), e, C.PFTEMP_PAGE / NPTENTRIES)) == 0 then 2 else 1
    ensures c.pt[(e, v)].frame in c.frames
    ensures ok ==> (
      && C.Unmapped(c, old(mem.g.list)[0])
      && Shows(mem.State(), mem.g.dirs, C.Pgfault(c, e, v, old(mem.g.list)[0]))
      && EntryAt(mem.State(), (e, v)) == old(mem.g.list)[0] * PGSIZE + 7
      && EntryAt(mem.State(), (e, C.PFTEMP_PAGE)) == 0
      && forall a :: IsPage(mem.g.dirs, a) && a != (e, v) && a != (e, C.PFTEMP_PAGE) ==>
        EntryAt(mem.State(), a) == old(EntryAt(mem.State(), a)))
  {
    hide Loose, Bounded, KernelOk, Entry, Shows;
    var temp := (e, C.PFTEMP_PAGE);
    Mapped(mem.State(), mem.g.dirs, c, (e, v));
    ghost var list := mem.g.list;
    var r := SysPageAlloc(mem, temp, c);
    if r < 0 {
      return false;
    }
    ReplacePage(mem, temp, (e, v), C.PageAlloc(c, temp, true, list[0]));
    return true;
  }

  // ---------------------------------------------------------------- runs on page-table words

  // A request names environments that exist, and pages below UTOP; its frame, if it has one, is for
  // page_alloc to choose.
  ghost predicate WellNamed(dirs: set<nat>, s: C.Step) {
    match s
    case Dup(p, ch, v) => IsPage(dirs, (p, v)) && IsPage(dirs, (ch, v)) && p != ch
    case StackPage(ch, _) => ch in dirs
    case Write(e, v, k, _) => IsPage(dirs, (e, v)) && k < C.PAGE_WORDS
    case Fault(e, v, _) => IsPage(dirs, (e, v))
  }

  // c shows memory, keeps shared pages unwritable, and reads as r: the state between two requests.
  ghost predicate Reads(m: Mem, dirs: set<nat>, c: C.Memory, r: C.Copies) {
    Shows(m, dirs, c) && C.Private(c) && C.Refines(c, r)
  }

  // The same without the picture: every environment has exactly the pages of r, with their contents
  // in memory, and no frame that two entries name is writable through one of them.
  lemma ReadsMeans(m: Mem, dirs: set<nat>, c: C.Memory, r: C.Copies)
    requires Reads(m, dirs, c, r)
    ensures forall a :: a in r <==> IsPage(dirs, a) && EntryAt(m, a) != 0
    ensures forall a :: a in r ==> FrameOf(EntryAt(m, a)) < |m.frames| && m.frames[FrameOf(EntryAt(m, a))] == r[a]
    ensures forall a, b :: a in r && b in r && a != b && FrameOf(EntryAt(m, a)) == FrameOf(EntryAt(m, b)) ==>
      !Writable(EntryAt(m, a))
  {
    hide Entry, EntryAt;
    forall a | a in r ensures ShowsAt(m, c, a) && C.Contents(c, a) == r[a] { assert a in c.pt; }
  }

  // PFTEMP is mapped inside pgfault only.
  lemma PrivateTemp(c: C.Memory)
    requires C.Private(c)
    ensures forall a :: a in c.pt ==> a.1 != C.PFTEMP_PAGE && c.pt[a].frame in c.frames
  {
  }

  // The pages that sys_page_alloc takes for address a.
  ghost function Needed(m: Mem, a: C.Va): nat { if Word(m, a.0, a.1 / NPTENTRIES) == 0 then 2 else 1 }

  // A duppage of a page that is mapped, a child's exception stack, a user write through a writable
  // entry, or a write fault at a page that is mapped and not writable; and the kernel has the memory
  // for it, and can count one more reference.
  ghost predicate CanServe(m: Mem, g: Ghost, c: C.Memory, s: C.Step) {
    match s
    case Dup(p, ch, v) =>
      && (p, v) in c.pt && Countable(m, c, (p, v), (ch, v))
      && (Word(m, ch, v / NPTENTRIES) != 0 || g.list != [])
    case StackPage(ch, _) => |g.list| >= Needed(m, (ch, C.UXSTACK_PAGE))
    case Write(e, v, _, _) => (e, v) in c.pt && c.pt[(e, v)].w
    case Fault(e, v, _) => (e, v) in c.pt && !c.pt[(e, v)].w && |g.list| >= Needed(m, (e, C.PFTEMP_PAGE))
  }

  // One request; false exactly where it cannot be served.
  method Serve(mem: PhysicalMemory, s: C.Step, ghost c: C.Memory, ghost r: C.Copies)
      returns (ok: bool, ghost c1: C.Memory)
    requires mem.Valid() && Reads(mem.State(), mem.g.dirs, c, r) && WellNamed(mem.g.dirs, s)
    modifies mem, mem.pages, mem.frames
    ensures mem.Valid() && mem.g.dirs == old(mem.g.dirs)
    ensures ok <==> CanServe(old(mem.State()), old(mem.g), c, s)
    ensures ok ==> Reads(mem.State(), mem.g.dirs, c1, C.Eager(r, s))
  {
    hide Loose, Bounded, KernelOk, Entry, Shows, Countable, C.Private, C.Refines, C.Duppage, C.Pgfault, Word;
    PrivateTemp(c);
    c1 := c;
    match s
    case Dup(p, ch, v) =>
      ok := CanCount(mem, (p, v), (ch, v), c);
      if ok {
        ok := Duppage(mem, p, ch, v, c);
        if ok {
          c1 := C.Exec(c, s);
          C.StepRefines(c, r, s);
        }
      }
    case StackPage(ch, _) =>
      ghost var list := mem.g.list;
      var e := SysPageAlloc(mem, (ch, C.UXSTACK_PAGE), c);
      ok := e == 0;
      if ok {
        c1 := C.Exec(c, C.StackPage(ch, list[0]));
        C.StepRefines(c, r, C.StackPage(ch, list[0]));
      }
    case Write(e, v, k, w) =>
      var pte := ReadPte(mem, (e, v));
      ReadsAs(mem.State(), mem.g.dirs, c, (e, v));
      ok := pte != 0 && Writable(pte);
      if ok {
        UserWrite(mem, e, v, k, w, c);
        c1 := C.Exec(c, s);
        C.StepRefines(c, r, s);
      }
    case Fault(e, v, _) =>
      var pte := ReadPte(mem, (e, v));
      ReadsAs(mem.State(), mem.g.dirs, c, (e, v));
      ok := pte != 0 && !Writable(pte);
      if ok {
        ghost var list := mem.g.list;
        ok := Pgfault(mem, e, v, c);
        if ok {
          c1 := C.Exec(c, C.Fault(e, v, list[0]));
          C.StepRefines(c, r, C.Fault(e, v, list[0]));
        }
      }
  }

  // Any interleaving of forks, stores and write faults of any environments, on page-table words and
  // the real free list: while every request can be served, memory reads as if each duppage had
  // copied the page. m, gm and cm are the state after the k requests served; all are, unless one
  // cannot be.
  method Run(mem: PhysicalMemory, requests: seq<C.Step>, ghost c: C.Memory, ghost r: C.Copies)
    returns (k: nat, ghost m: Mem, ghost gm: Ghost, ghost cm: C.Memory)
    requires mem.Valid() && Reads(mem.State(), mem.g.dirs, c, r)
    requires forall s :: s in requests ==> WellNamed(mem.g.dirs, s)
    modifies mem, mem.pages, mem.frames
    ensures mem.Valid() && mem.g.dirs == old(mem.g.dirs)
    ensures k <= |requests| && gm.dirs == old(mem.g.dirs) && Reads(m, gm.dirs, cm, C.EagerRun(r, requests[..k]))
    ensures if k == |requests| then m == mem.State() && gm == mem.g else !CanServe(m, gm, cm, requests[k])
  {
    hide PhysicalMemory.State, PhysicalMemory.ValidPlus, Reads, CanServe, C.Eager, WellNamed;
    k, m, gm, cm := 0, mem.State(), mem.g, c;
    assert C.EagerRun(r, requests[..0]) == r;
    while k < |requests|
      invariant k <= |requests| && mem.Valid() && mem.g.dirs == old(mem.g.dirs)
      invariant m == mem.State() && gm == mem.g && Reads(m, gm.dirs, cm, C.EagerRun(r, requests[..k]))
    {
      ghost var r0 := C.EagerRun(r, requests[..k]);
      var ok; ghost var c1;
      ok, c1 := Serve(mem, requests[k], cm, r0);
      if !ok {
        return;
      }
      assert requests[..k + 1][..k] == requests[..k];
      k, m, gm, cm := k + 1, mem.State(), mem.g, c1;
    }
    assert requests[..k] == requests[..|requests|];
  }
}
