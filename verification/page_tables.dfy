// Physical pages and two-level page tables (sched/kern/pmap.c, sched/inc/mmu.h), as values.
//
// A state is the pages[] array, the head of the free list and the contents of every physical
// frame. Every place that may hold a counted reference to a frame is a Slot; the reference count
// of a frame is exact when it is the number of live slots that point at it.
module PageTables {
  import opened FreeList

  const NPTENTRIES := 1024
  const USER_PDES := 955            // PDX(UTOP)
  const PGSIZE := 4096
  const PTE_P := 1
  const PTE_W := 2
  const PTE_U := 4
  const REF_LIMIT := 0x1_0000       // pp_ref is a uint16_t

  type uint16 = n: nat | n < REF_LIMIT

  function Inc16(r: uint16): uint16 { if r == REF_LIMIT - 1 then 0 else r + 1 }
  function Dec16(r: uint16): uint16 { if r == 0 then REF_LIMIT - 1 else r - 1 }

  // pp_link is an index into pages[], with -1 for NULL.
  datatype PageInfo = PageInfo(link: int, ref: uint16)

  datatype Mem = Mem(pages: seq<PageInfo>, free: int, frames: seq<seq<nat>>)

  // What the C state leaves implicit: the free list as a sequence, and the frames that are the
  // page directory of some environment.
  datatype Ghost = Ghost(list: seq<nat>, dirs: set<nat>)

  // A counted reference: environment d's directory itself, one of its user directory entries, or
  // one entry of one of its page tables.
  datatype Slot = Dir(d: nat) | Pde(d: nat, i: nat) | Pte(d: nat, i: nat, j: nat)

  // Address arithmetic of sched/inc/mmu.h.
  function PDX(va: nat): (i: nat)
    ensures i < NPTENTRIES
  {
    va / 0x40_0000 % NPTENTRIES
  }

  function PTX(va: nat): (j: nat)
    ensures j < NPTENTRIES
  {
    va / PGSIZE % NPTENTRIES
  }

  function PGADDR(d: nat, t: nat, o: nat): nat { d * 0x40_0000 + t * PGSIZE + o }

  // The frame that a nonzero entry names, and whether the entry has PTE_P.
  function FrameOf(w: nat): nat { w / PGSIZE }
  predicate Present(w: nat) { w % 2 == 1 }

  // a | b.
  function Or(a: nat, b: nat): nat {
    if b == 0 then a else (if a % 2 == 1 || b % 2 == 1 then 1 else 0) + 2 * Or(a / 2, b / 2)
  }

  // b & ~a == 0: every bit of b is one of a.
  predicate Covers(a: nat, b: nat) { b == 0 || ((b % 2 == 1 ==> a % 2 == 1) && Covers(a / 2, b / 2)) }

  lemma {:induction false} OrCovers(a: nat, b: nat)
    ensures Or(a, b) == a <==> Covers(a, b)
  {
    if b != 0 {
      OrCovers(a / 2, b / 2);
    }
  }

  // a & b.
  function And(a: nat, b: nat): nat {
    if b == 0 then 0 else (if a % 2 == 1 && b % 2 == 1 then 1 else 0) + 2 * And(a / 2, b / 2)
  }

  lemma {:induction false} AndCovers(a: nat, b: nat)
    ensures And(a, b) == b <==> Covers(a, b)
  {
    if b != 0 {
      AndCovers(a / 2, b / 2);
    }
  }

  // Bit k of a number.
  predicate Bit(n: nat, k: nat) { if k == 0 then n % 2 == 1 else Bit(n / 2, k - 1) }

  lemma {:induction false} NoBit(k: nat)
    ensures !Bit(0, k)
  {
    if k > 0 {
      NoBit(k - 1);
    }
  }

  lemma OrStep(a: nat, b: nat)
    ensures Or(a, b) / 2 == Or(a / 2, b / 2) && (Or(a, b) % 2 == 1 <==> a % 2 == 1 || b % 2 == 1)
  {
  }

  lemma AndStep(a: nat, b: nat)
    ensures And(a, b) / 2 == And(a / 2, b / 2) && (And(a, b) % 2 == 1 <==> a % 2 == 1 && b % 2 == 1)
  {
  }

  lemma {:induction false} OrBits(a: nat, b: nat, k: nat)
    ensures Bit(Or(a, b), k) <==> Bit(a, k) || Bit(b, k)
  {
    hide Or;
    OrStep(a, b);
    if k > 0 {
      OrBits(a / 2, b / 2, k - 1);
    }
  }

  lemma {:induction false} AndBits(a: nat, b: nat, k: nat)
    ensures Bit(And(a, b), k) <==> Bit(a, k) && Bit(b, k)
  {
    hide And;
    AndStep(a, b);
    if k > 0 {
      AndBits(a / 2, b / 2, k - 1);
    }
  }

  lemma BitSteps(n: nat)
    ensures Bit(n, 0) == (n % 2 == 1)
    ensures forall k: nat {:trigger Bit(n / 2, k)} {:trigger Bit(n, k + 1)} :: Bit(n, k + 1) == Bit(n / 2, k)
  {
  }

  lemma {:induction false} CoveredBits(a: nat, b: nat, k: nat)
    requires Covers(a, b) && Bit(b, k)
    ensures Bit(a, k)
  {
    if b == 0 {
      NoBit(k);
    } else if k > 0 {
      CoveredBits(a / 2, b / 2, k - 1);
    }
  }

  lemma {:induction false} MissingBit(a: nat, b: nat) returns (k: nat)
    requires !Covers(a, b)
    ensures Bit(b, k) && !Bit(a, k)
  {
    k := 0;
    if Covers(a / 2, b / 2) {
      assert b % 2 == 1 && a % 2 != 1;
    } else {
      k := MissingBit(a / 2, b / 2);
      k := k + 1;
    }
  }

  lemma CoversBits(a: nat, b: nat)
    ensures Covers(a, b) <==> forall k: nat :: Bit(b, k) ==> Bit(a, k)
  {
    hide Covers, Bit;
    if Covers(a, b) {
      forall k: nat | Bit(b, k) ensures Bit(a, k) { CoveredBits(a, b, k); }
    } else {
      var k := MissingBit(a, b);
    }
  }

  function EntryWord(frame: nat, low: nat): (w: nat)
    requires low < PGSIZE
    ensures FrameOf(w) == frame && w % PGSIZE == low
  {
    frame * PGSIZE + low
  }

  function SetPresent(low: nat): (r: nat)
    ensures Present(r) && r / 2 == low / 2
  {
    if Present(low) then low else low + 1
  }

  lemma PresentWord(w: nat)
    ensures Present(w) <==> Present(w % PGSIZE)
  {
  }

  // page2pa(pp) | perm | PTE_P, whatever bits the int perm has, read as unsigned: those above the low
  // twelve get into the frame number.
  function MakeEntry(frame: nat, perm: nat): (w: nat)
    ensures Present(w) && FrameOf(w) == Or(frame, perm / PGSIZE) && w != 0
    ensures w % PGSIZE / 2 == perm % PGSIZE / 2
  {
    var w := EntryWord(Or(frame, perm / PGSIZE), SetPresent(perm % PGSIZE));
    PresentWord(w);
    w
  }

  // The bits of perm that get into the frame number are there anyway: perm & ~(pa | 0xFFF) == 0.
  predicate KeepsFrame(frame: nat, perm: nat) { Covers(frame, perm / PGSIZE) }

  // The entry names the frame exactly then.
  lemma EntryNames(frame: nat, perm: nat)
    ensures FrameOf(MakeEntry(frame, perm)) == frame <==> KeepsFrame(frame, perm)
    ensures perm < PGSIZE ==> KeepsFrame(frame, perm)
  {
    OrCovers(frame, perm / PGSIZE);
  }

  // The page at 0x4000, with one bit too many, becomes the one at 0xC000.
  lemma ForgedEntry()
    ensures MakeEntry(4, 0x8007) == 0xC007 && !KeepsFrame(4, 0x8007)
  {
    assert Or(1, 2) == 3 && !Covers(1, 2);
    assert Or(2, 4) == 6 && !Covers(2, 4);
    assert Or(4, 8) == 12 && !Covers(4, 8);
  }

  lemma AddressParts(d: nat, t: nat, o: nat)
    requires d < NPTENTRIES && t < NPTENTRIES && o < PGSIZE
    ensures PDX(PGADDR(d, t, o)) == d && PTX(PGADDR(d, t, o)) == t
    ensures PGADDR(d, t, o) < 0x1_0000_0000
  {
    assert PGADDR(d, t, o) / PGSIZE == d * NPTENTRIES + t;
  }

  // Word k of frame p; 0 outside memory, so that the functions below are total.
  ghost function Word(m: Mem, p: int, k: int): nat {
    if 0 <= p < |m.frames| && 0 <= k < |m.frames[p]| then m.frames[p][k] else 0
  }

  function SetWord(m: Mem, p: nat, k: nat, w: nat): Mem
    requires p < |m.frames| && k < |m.frames[p]|
  {
    var frame: seq<nat> := m.frames[p];
    m.(frames := m.frames[p := frame[k := w]])
  }

  // The page table entry of d at (i, j); 0 when there is no page table.
  ghost function Entry(m: Mem, d: nat, i: nat, j: nat): nat {
    if Word(m, d, i) == 0 then 0 else Word(m, FrameOf(Word(m, d, i)), j)
  }

  ghost function Pointee(w: nat): int { if w == 0 then -1 else FrameOf(w) }

  ghost function Target(m: Mem, sl: Slot): int {
    match sl
    case Dir(d) => d
    case Pde(d, i) => Pointee(Word(m, d, i))
    case Pte(d, i, j) => Pointee(Entry(m, d, i, j))
  }

  ghost predicate Live(dirs: set<nat>, sl: Slot) {
    && sl.d in dirs
    && (sl.Dir? || sl.i < USER_PDES)
    && (sl.Pte? ==> sl.j < NPTENTRIES)
  }

  ghost function Slots(dirs: set<nat>): (s: set<Slot>)
    ensures forall sl {:trigger sl in s} :: sl in s <==> Live(dirs, sl)
  {
    (set d | d in dirs :: Dir(d)) +
    (set d, i: nat | d in dirs && 0 <= i < USER_PDES :: Pde(d, i)) +
    (set d, i: nat, j: nat | d in dirs && 0 <= i < USER_PDES && 0 <= j < NPTENTRIES :: Pte(d, i, j))
  }

  // The references to frame p.
  ghost function Refs(m: Mem, g: Ghost, p: int): (s: set<Slot>)
    ensures forall sl {:trigger sl in s} :: sl in s <==> Live(g.dirs, sl) && Target(m, sl) == p
  {
    set sl | sl in Slots(g.dirs) && Target(m, sl) == p
  }

  // ---------------------------------------------------------------- invariant

  ghost predicate Shape(m: Mem) {
    && |m.pages| == |m.frames| <= 0x10_0000
    && forall p :: 0 <= p < |m.frames| ==> |m.frames[p]| == NPTENTRIES
  }

  function Links(pages: seq<PageInfo>): (r: seq<int>)
    ensures |r| == |pages| && forall p :: 0 <= p < |pages| ==> r[p] == pages[p].link
  {
    seq(|pages|, p requires 0 <= p < |pages| => pages[p].link)
  }

  // The free list is acyclic and has no repetition, and no page outside it is linked.
  ghost predicate Chain(m: Mem, list: seq<nat>) {
    && Linked(Links(m.pages), m.free, list)
    && (forall p: nat :: p < |m.pages| && p !in list ==> m.pages[p].link == -1)
  }

  // An entry is zero or present and in range: then the C tests `*pte`, `*pte && PTE_P` and
  // `*pte & PTE_P` all agree.
  ghost predicate EntryOk(m: Mem, w: nat) {
    w == 0 || (Present(w) && FrameOf(w) < |m.frames|)
  }

  // Directories and page tables are referenced by exactly one slot, so writing one table changes
  // no other mapping.
  ghost predicate Exclusive(m: Mem, dirs: set<nat>) {
    forall s1, s2 :: Live(dirs, s1) && Live(dirs, s2) && !s1.Pte? && Target(m, s1) == Target(m, s2) != -1 ==> s1 == s2
  }

  ghost predicate Typed(m: Mem, dirs: set<nat>) {
    && (forall d :: d in dirs ==> d < |m.frames|)
    && (forall d: nat, i: nat :: d in dirs && i < USER_PDES ==> EntryOk(m, Word(m, d, i)))
    && (forall d: nat, i: nat, j: nat :: d in dirs && i < USER_PDES && j < NPTENTRIES ==> EntryOk(m, Entry(m, d, i, j)))
    && Exclusive(m, dirs)
  }

  // n references, on sixteen bits: one more than the largest count has wrapped to zero.
  ghost predicate CountIs(ref: uint16, n: int) {
    if n < REF_LIMIT then ref == n else n == REF_LIMIT && ref == 0
  }

  // Every count is exact up to the width of pp_ref; extra is a page with one reference that is
  // counted but not yet stored (-1 for none), as in the middle of page_insert.
  ghost predicate Counted(m: Mem, g: Ghost, extra: int) {
    forall p :: 0 <= p < |m.pages| ==> CountIs(m.pages[p].ref, |Refs(m, g, p)| + if p == extra then 1 else 0)
  }

  ghost predicate FreeUnreferenced(m: Mem, g: Ghost) {
    forall sl :: Live(g.dirs, sl) ==> Target(m, sl) !in g.list
  }

  ghost predicate Loose(m: Mem, g: Ghost, extra: int) {
    && Shape(m) && Chain(m, g.list) && Typed(m, g.dirs)
    && Counted(m, g, extra) && FreeUnreferenced(m, g) && extra !in g.list
  }

  // No frame has more references than pp_ref can count.
  ghost predicate Bounded(m: Mem, g: Ghost) {
    forall p :: 0 <= p < |m.pages| ==> |Refs(m, g, p)| < REF_LIMIT
  }

  ghost predicate Inv(m: Mem, g: Ghost) {
    Loose(m, g, -1) && Bounded(m, g)
  }

  // ---------------------------------------------------------------- how slots change

  // m1 differs from m0 only in what slot sl points at.
  ghost predicate OnlySlot(m0: Mem, m1: Mem, dirs: set<nat>, sl: Slot) {
    forall s :: Live(dirs, s) && s != sl ==> Target(m1, s) == Target(m0, s)
  }

  ghost predicate SameSlots(m0: Mem, m1: Mem, dirs: set<nat>) {
    forall s :: Live(dirs, s) ==> Target(m1, s) == Target(m0, s)
  }

  // The entries of every live table, permissions included, are unchanged except at (d, i, j).
  ghost predicate OnlyEntry(m0: Mem, m1: Mem, dirs: set<nat>, d: nat, i: nat, j: nat) {
    forall d': nat, i': nat, j': nat :: d' in dirs && i' < USER_PDES && j' < NPTENTRIES && (d', i', j') != (d, i, j)
      ==> Entry(m1, d', i', j') == Entry(m0, d', i', j')
  }

  ghost predicate SameEntries(m0: Mem, m1: Mem, dirs: set<nat>) {
    forall d: nat, i: nat, j: nat :: d in dirs && i < USER_PDES && j < NPTENTRIES ==>
      Entry(m1, d, i, j) == Entry(m0, d, i, j)
  }

  lemma RefsOnlySlot(m0: Mem, m1: Mem, g: Ghost, sl: Slot)
    requires Live(g.dirs, sl) && OnlySlot(m0, m1, g.dirs, sl)
    ensures forall g1: Ghost, p :: g1.dirs == g.dirs ==>
      Refs(m1, g1, p) == if p == Target(m1, sl) then Refs(m0, g, p) + {sl} else Refs(m0, g, p) - {sl}
  {
  }

  // Writing one word of a page table.
  lemma WriteEntry(m: Mem, g: Ghost, d: nat, i: nat, j: nat, w: nat) returns (m1: Mem)
    requires Shape(m) && Typed(m, g.dirs)
    requires Live(g.dirs, Pte(d, i, j)) && Word(m, d, i) != 0
    ensures var pt := FrameOf(Word(m, d, i));
      pt < |m.frames| && m1 == SetWord(m, pt, j, w)
    ensures Shape(m1) && forall d': nat, i': nat :: d' in g.dirs && i' < USER_PDES ==>
      Word(m1, d', i') == Word(m, d', i')
    ensures OnlySlot(m, m1, g.dirs, Pte(d, i, j)) && OnlyEntry(m, m1, g.dirs, d, i, j)
    ensures Entry(m1, d, i, j) == w
  {
    var pt := FrameOf(Word(m, d, i));
    assert EntryOk(m, Word(m, d, i));
    m1 := SetWord(m, pt, j, w);
    assert Target(m, Pde(d, i)) == pt;
    forall d': nat, i': nat | d' in g.dirs && i' < USER_PDES ensures Word(m1, d', i') == Word(m, d', i') {
      assert Target(m, Dir(d')) == d';
    }
    forall d': nat, i': nat, j': nat | d' in g.dirs && i' < USER_PDES && j' < NPTENTRIES
      ensures Entry(m1, d', i', j') == if (d', i', j') == (d, i, j) then w else Entry(m, d', i', j')
    {
      assert Target(m, Pde(d', i')) == Pointee(Word(m, d', i'));
    }
    forall s | Live(g.dirs, s) ensures Target(m1, s) == if s == Pte(d, i, j) then Pointee(w) else Target(m, s) {}
  }

  // The tables stay tables when the word is an entry for a frame that is none of them.
  lemma WritePte(m: Mem, g: Ghost, d: nat, i: nat, j: nat, w: nat) returns (m1: Mem)
    requires Shape(m) && Typed(m, g.dirs) && EntryOk(m, w)
    requires Live(g.dirs, Pte(d, i, j)) && Word(m, d, i) != 0
    requires forall s :: Live(g.dirs, s) && !s.Pte? ==> Target(m, s) != Pointee(w) || w == 0
    ensures var pt := FrameOf(Word(m, d, i));
      pt < |m.frames| && m1 == SetWord(m, pt, j, w)
    ensures Shape(m1) && Typed(m1, g.dirs)
    ensures OnlySlot(m, m1, g.dirs, Pte(d, i, j)) && OnlyEntry(m, m1, g.dirs, d, i, j)
    ensures Entry(m1, d, i, j) == w
  {
    m1 := WriteEntry(m, g, d, i, j, w);
  }

  // Writing one directory entry whose page table holds no mapping, before and after.
  lemma WritePde(m: Mem, g: Ghost, d: nat, i: nat, w: nat) returns (m1: Mem)
    requires Shape(m) && Typed(m, g.dirs) && EntryOk(m, w)
    requires Live(g.dirs, Pde(d, i)) && (forall j: nat :: j < NPTENTRIES ==> Entry(m, d, i, j) == 0)
    requires w != 0 ==> (forall j: nat :: j < NPTENTRIES ==> Word(m, FrameOf(w), j) == 0)
    requires forall s :: Live(g.dirs, s) ==> Target(m, s) != Pointee(w) || w == 0
    ensures m1 == SetWord(m, d, i, w)
    ensures Shape(m1) && Typed(m1, g.dirs)
    ensures OnlySlot(m, m1, g.dirs, Pde(d, i)) && Target(m1, Pde(d, i)) == Pointee(w)
    ensures SameEntries(m, m1, g.dirs)
    ensures Word(m1, d, i) == w
  {
    m1 := SetWord(m, d, i, w);
    assert Target(m, Dir(d)) == d;
    forall d': nat, i': nat | d' in g.dirs && i' < USER_PDES
      ensures Word(m1, d', i') == if (d', i') == (d, i) then w else Word(m, d', i') {
      assert Target(m, Dir(d')) == d';
    }
    forall d': nat, i': nat, j': nat | d' in g.dirs && i' < USER_PDES && j' < NPTENTRIES
      ensures Entry(m1, d', i', j') == Entry(m, d', i', j')
    {
      assert Target(m, Pde(d', i')) == Pointee(Word(m, d', i'));
      assert Live(g.dirs, Dir(d)) && Live(g.dirs, Pde(d', i'));
      assert Target(m, Pde(d', i')) != Target(m, Dir(d));
      if (d', i') != (d, i) && Word(m, d', i') != 0 {
        var pt := FrameOf(Word(m, d', i'));
        assert pt != d && m1.frames[pt] == m.frames[pt];
      } else if w != 0 && (d', i') == (d, i) {
        assert FrameOf(w) != d && m1.frames[FrameOf(w)] == m.frames[FrameOf(w)];
        assert Word(m, FrameOf(w), j') == 0;
      }
    }
    forall s | Live(g.dirs, s) ensures Target(m1, s) == if s == Pde(d, i) then Pointee(w) else Target(m, s) {}
  }

  // The contents of a frame that is no table or directory decide no mapping.
  lemma WriteNoTable(m: Mem, m1: Mem, dirs: set<nat>, p: nat)
    requires Shape(m) && Shape(m1) && Typed(m, dirs) && p < |m.frames|
    requires forall s :: Live(dirs, s) && !s.Pte? ==> Target(m, s) != p
    requires |m1.frames| == |m.frames| && m1.frames == m.frames[p := m1.frames[p]]
    ensures Typed(m1, dirs) && SameSlots(m, m1, dirs)
    ensures forall d: nat, i: nat :: d in dirs && i < USER_PDES ==> Word(m1, d, i) == Word(m, d, i)
    ensures SameEntries(m, m1, dirs)
  {
    forall d: nat, i: nat | d in dirs && i < USER_PDES ensures Word(m1, d, i) == Word(m, d, i) {
      assert Target(m, Dir(d)) == d;
    }
    forall d: nat, i: nat, j: nat | d in dirs && i < USER_PDES && j < NPTENTRIES
      ensures Entry(m1, d, i, j) == Entry(m, d, i, j)
    {
      assert Target(m, Pde(d, i)) == Pointee(Word(m, d, i));
    }
    forall s | Live(dirs, s) ensures Target(m1, s) == Target(m, s) {}
  }

  // ---------------------------------------------------------------- the free list

  // page_alloc without the clearing of the frame: unlink the head.
  function Pop(m: Mem): Mem
    requires 0 <= m.free < |m.pages|
  {
    m.(pages := m.pages[m.free := m.pages[m.free].(link := -1)], free := m.pages[m.free].link)
  }

  // page_free.
  function Push(m: Mem, p: nat): Mem
    requires p < |m.pages|
  {
    m.(pages := m.pages[p := m.pages[p].(link := m.free)], free := p)
  }

  function SetRef(m: Mem, p: nat, r: uint16): Mem
    requires p < |m.pages|
  {
    m.(pages := m.pages[p := m.pages[p].(ref := r)])
  }

  // page_decref: `--pp_ref` on sixteen bits, then page_free at zero.
  function Decref(m: Mem, p: nat): Mem
    requires p < |m.pages|
  {
    var m1 := SetRef(m, p, Dec16(m.pages[p].ref));
    if m1.pages[p].ref == 0 then Push(m1, p) else m1
  }

  lemma PopChain(m: Mem, list: seq<nat>)
    requires Chain(m, list) && list != []
    ensures m.free == list[0] && Chain(Pop(m), list[1..])
    ensures list[0] !in list[1..]
  {
    Unlink(Links(m.pages), Links(Pop(m).pages), m.free, list);
  }

  lemma PushChain(m: Mem, list: seq<nat>, p: nat)
    requires Chain(m, list) && p < |m.pages| && p !in list
    ensures Chain(Push(m, p), [p] + list)
  {
    Link(Links(m.pages), Links(Push(m, p).pages), m.free, list, p);
  }

  lemma ChainLinksOnly(m: Mem, m1: Mem, list: seq<nat>)
    requires Chain(m, list) && m1.free == m.free && |m1.pages| == |m.pages|
    requires forall p :: 0 <= p < |m.pages| ==> m1.pages[p].link == m.pages[p].link
    ensures Chain(m1, list)
  {
    assert Links(m1.pages) == Links(m.pages);
  }

  // The free list after slot sl gives up frame q.
  ghost function Released(m: Mem, g: Ghost, extra: int, sl: Slot, q: nat): seq<nat> {
    if Refs(m, g, q) == {sl} && q != extra then [q] + g.list else g.list
  }

  // page_decref on a page with n stored references and x more that are not stored: it is freed
  // exactly at n == 1, x == 0.
  lemma DecrefChain(m: Mem, list: seq<nat>, q: nat, n: nat, x: nat)
    requires Chain(m, list) && q < |m.pages| && q !in list
    requires 1 <= n < REF_LIMIT && x <= 1 && CountIs(m.pages[q].ref, n + x)
    ensures Decref(m, q).pages[q].ref == n - 1 + x
    ensures Chain(Decref(m, q), if n == 1 && x == 0 then [q] + list else list)
    ensures forall p :: 0 <= p < |m.pages| && p != q ==> Decref(m, q).pages[p].ref == m.pages[p].ref
  {
    var r := Dec16(m.pages[q].ref);
    assert r == n - 1 + x;
    var mr := SetRef(m, q, r);
    ChainLinksOnly(m, mr, list);
    if r == 0 {
      PushChain(mr, list, q);
    }
  }

  lemma LessReferences(s: set<Slot>, sl: Slot)
    ensures |s - {sl}| <= |s|
  {
    if sl in s { LastReference(s, sl); } else { assert s - {sl} == s; }
  }

  lemma LastReference(s: set<Slot>, sl: Slot)
    requires sl in s
    ensures |s - {sl}| == |s| - 1
    ensures |s| == 1 <==> s == {sl}
  {
    assert s == s - {sl} + {sl};
  }

  // Dropping one stored reference and one count keeps counts exact and frees the frame exactly
  // when that reference was its last.
  lemma Release(m: Mem, g: Ghost, extra: int, sl: Slot, q: nat, m1: Mem, g1: Ghost)
    requires Chain(m, g.list) && Counted(m, g, extra) && FreeUnreferenced(m, g) && extra !in g.list
    requires q < |m.pages| && sl in Refs(m, g, q) && |Refs(m, g, q)| < REF_LIMIT
    requires m1.pages == Decref(m, q).pages && m1.free == Decref(m, q).free
    requires forall p :: 0 <= p ==> Refs(m1, g1, p) == Refs(m, g, p) - {sl}
    requires g1.list == Released(m, g, extra, sl, q)
    ensures Chain(m1, g1.list) && Counted(m1, g1, extra) && FreeUnreferenced(m1, g1) && extra !in g1.list
  {
    var x := if q == extra then 1 else 0;
    assert q !in g.list by { assert Target(m, sl) == q; }
    LastReference(Refs(m, g, q), sl);
    DecrefChain(m, g.list, q, |Refs(m, g, q)|, x);
    assert Chain(m1, g1.list) by { assert Chain(Decref(m, q), g1.list); }
    forall p | 0 <= p < |m1.pages|
      ensures CountIs(m1.pages[p].ref, |Refs(m1, g1, p)| + if p == extra then 1 else 0)
    {
      if p != q {
        assert sl !in Refs(m, g, p);
        assert Refs(m1, g1, p) == Refs(m, g, p);
        assert m1.pages[p].ref == m.pages[p].ref;
      } else {
        assert |Refs(m1, g1, q)| == |Refs(m, g, q)| - 1;
      }
    }
    forall s | Live(g1.dirs, s) ensures Target(m1, s) !in g1.list {
      var t := Target(m1, s);
      if 0 <= t {
        assert s in Refs(m1, g1, t);
        assert s in Refs(m, g, t) - {sl};
        assert Target(m, s) == t;
      }
    }
  }

  lemma ReleaseKeeps(m: Mem, g: Ghost, extra: int, sl: Slot, q: nat, m1: Mem, g1: Ghost)
    requires Loose(m, g, extra) && Bounded(m, g) && q < |m.pages| && sl in Refs(m, g, q)
    requires m1.pages == Decref(m, q).pages && m1.free == Decref(m, q).free && Shape(m1) && Typed(m1, g1.dirs)
    requires forall p :: 0 <= p ==> Refs(m1, g1, p) == Refs(m, g, p) - {sl}
    requires g1.list == Released(m, g, extra, sl, q)
    ensures Loose(m1, g1, extra) && Bounded(m1, g1)
  {
    hide Shape, Typed, Chain, Counted, FreeUnreferenced, Released;
    Release(m, g, extra, sl, q, m1, g1);
    forall p | 0 <= p < |m1.pages| ensures |Refs(m1, g1, p)| < REF_LIMIT {
      LessReferences(Refs(m, g, p), sl);
    }
  }

  // One count and one stored reference more: the frame named `extra` has just been stored in sl.
  lemma Store(m: Mem, g: Ghost, sl: Slot, q: nat, m1: Mem)
    requires Loose(m, g, q) && q < |m.pages|
    requires Live(g.dirs, sl) && OnlySlot(m, m1, g.dirs, sl) && Target(m, sl) == -1 && Target(m1, sl) == q
    requires m1.pages == m.pages && m1.free == m.free && Shape(m1) && Typed(m1, g.dirs)
    ensures Loose(m1, g, -1)
    ensures forall p :: Refs(m1, g, p) == if p == q then Refs(m, g, p) + {sl} else Refs(m, g, p) - {sl}
    ensures forall p :: p != q && 0 <= p ==> Refs(m1, g, p) == Refs(m, g, p)
    ensures |Refs(m1, g, q)| == |Refs(m, g, q)| + 1
  {
    hide Typed, Shape, Linked;
    StoreRefs(m, g, sl, q, m1);
    ChainLinksOnly(m, m1, g.list);
    forall s | Live(g.dirs, s) ensures Target(m1, s) !in g.list {
      assert s != sl ==> Target(m1, s) == Target(m, s);
    }
  }

  lemma StoreRefs(m: Mem, g: Ghost, sl: Slot, q: nat, m1: Mem)
    requires Live(g.dirs, sl) && OnlySlot(m, m1, g.dirs, sl) && Target(m, sl) == -1 && Target(m1, sl) == q
    ensures forall p :: Refs(m1, g, p) == if p == q then Refs(m, g, p) + {sl} else Refs(m, g, p) - {sl}
    ensures forall p :: p != q && 0 <= p ==> Refs(m1, g, p) == Refs(m, g, p)
    ensures |Refs(m1, g, q)| == |Refs(m, g, q)| + 1
  {
    RefsOnlySlot(m, m1, g, sl);
    forall p | p != q && 0 <= p ensures Refs(m1, g, p) == Refs(m, g, p) {
      assert sl !in Refs(m, g, p);
    }
    assert sl !in Refs(m, g, q);
    assert Refs(m1, g, q) == Refs(m, g, q) + {sl};
  }

  // Hooking a freshly allocated, cleared frame into a directory as a page table.
  lemma InstallTable(m1: Mem, m2: Mem, g: Ghost, d: nat, i: nat, p: nat)
    requires Inv(m1, g) && p < |m1.pages| && m1.pages[p] == PageInfo(-1, 0) && p !in g.list
    requires m2 == SetRef(m1, p, 1)
    requires Live(g.dirs, Pde(d, i)) && Word(m1, d, i) == 0
    requires forall s :: Live(g.dirs, s) ==> Target(m1, s) != p
    requires forall k :: 0 <= k < NPTENTRIES ==> Word(m1, p, k) == 0
    ensures d < |m2.frames| && |m2.frames[d]| == NPTENTRIES
    ensures var m3 := SetWord(m2, d, i, p * PGSIZE + PTE_P + PTE_W + PTE_U);
      && Inv(m3, g) && OnlySlot(m1, m3, g.dirs, Pde(d, i)) && Target(m3, Pde(d, i)) == p
      && SameEntries(m1, m3, g.dirs)
  {
    hide Linked, Exclusive, Typed;
    var w := p * PGSIZE + PTE_P + PTE_W + PTE_U;
    TableEntry(p);
    DirRefs(m1, g, d);
    CountAhead(m1, m2, g, p);
    FramesDecideSlots(m1, m2, g.dirs);
    assert FrameOf(w) < |m2.frames| && EntryOk(m2, w);
    var m3 := WritePde(m2, g, d, i, w);
    Store(m2, g, Pde(d, i), p, m3);
    forall q | 0 <= q < |m3.pages| ensures |Refs(m3, g, q)| < REF_LIMIT {
      assert q != p ==> Refs(m3, g, q) == Refs(m1, g, q);
    }
  }

  lemma TableEntry(p: nat)
    ensures var w := p * PGSIZE + PTE_P + PTE_W + PTE_U; w != 0 && Present(w) && FrameOf(w) == p
  {
  }

  // The count of an unreferenced page goes up before the reference is stored.
  lemma CountAhead(m1: Mem, m2: Mem, g: Ghost, p: nat)
    requires Inv(m1, g) && p < |m1.pages| && m1.pages[p] == PageInfo(-1, 0) && p !in g.list
    requires m2 == SetRef(m1, p, 1) && forall s :: Live(g.dirs, s) ==> Target(m1, s) != p
    ensures Loose(m2, g, p) && Refs(m2, g, p) == Refs(m1, g, p) == {}
  {
    hide Linked, Exclusive, Typed;
    FramesDecideSlots(m1, m2, g.dirs);
    assert Refs(m1, g, p) == {};
    assert forall q :: Refs(m2, g, q) == Refs(m1, g, q);
    ChainLinksOnly(m1, m2, g.list);
  }

  // Taking the head of the free list, whatever is then written to that frame.
  lemma PopStep(m: Mem, g: Ghost, m1: Mem, p: nat)
    requires Inv(m, g) && g.list != [] && p == g.list[0]
    requires Chain(Pop(m), g.list[1..]) && m1.pages == Pop(m).pages && m1.free == Pop(m).free
    requires Shape(m1) && |m1.frames| == |m.frames| && p < |m.frames| && m1.frames == m.frames[p := m1.frames[p]]
    ensures var g1 := g.(list := g.list[1..]);
      && Inv(m1, g1) && p !in g1.list && m1.pages[p] == PageInfo(-1, 0)
    ensures SameSlots(m, m1, g.dirs) && SameEntries(m, m1, g.dirs)
    ensures forall s :: Live(g.dirs, s) ==> Target(m1, s) != p
  {
    var g1 := g.(list := g.list[1..]);
    assert g.list == [p] + g1.list;
    assert forall s :: Live(g.dirs, s) ==> Target(m, s) != p by { assert p in g.list; }
    WriteNoTable(m, m1, g.dirs, p);
    assert Refs(m, g, p) == {};
    assert forall q :: Refs(m1, g1, q) == Refs(m, g, q);
  }

  // The state changes of the four operations below touch pages[] and frames separately; slots only
  // look at frames.
  lemma FramesDecideSlots(m: Mem, m1: Mem, dirs: set<nat>)
    requires m1.frames == m.frames && |m1.pages| == |m.pages|
    ensures forall a, b :: Word(m1, a, b) == Word(m, a, b)
    ensures SameSlots(m, m1, dirs) && SameEntries(m, m1, dirs)
    ensures Shape(m) ==> Shape(m1)
    ensures Typed(m, dirs) ==> Typed(m1, dirs)
    ensures forall g: Ghost, p {:trigger Refs(m1, g, p)} :: g.dirs == dirs ==> Refs(m1, g, p) == Refs(m, g, p)
  {
    assert forall a, b :: Word(m1, a, b) == Word(m, a, b);
    assert forall d: nat, i: nat, j: nat :: Entry(m1, d, i, j) == Entry(m, d, i, j);
    assert forall s :: Target(m1, s) == Target(m, s);
  }

  // page_remove on a mapped address: page_decref, then the entry is cleared.
  lemma RemoveStep(m: Mem, g: Ghost, x: int, d: nat, i: nat, j: nat, q: nat) returns (m2: Mem, g2: Ghost)
    requires Loose(m, g, x) && Bounded(m, g) && Live(g.dirs, Pte(d, i, j))
    requires Word(m, d, i) != 0 && Entry(m, d, i, j) != 0 && q == FrameOf(Entry(m, d, i, j))
    ensures q < |m.pages| && (m.pages[q].ref == 1 ==> m.pages[q].link == -1)
    ensures var pt := FrameOf(Word(m, d, i));
      pt < |m.frames| && |m.frames[pt]| == NPTENTRIES && m2 == SetWord(Decref(m, q), pt, j, 0)
    ensures g2 == g.(list := Released(m, g, x, Pte(d, i, j), q))
    ensures Loose(m2, g2, x) && Bounded(m2, g2)
    ensures OnlySlot(m, m2, g.dirs, Pte(d, i, j)) && OnlyEntry(m, m2, g.dirs, d, i, j)
    ensures Entry(m2, d, i, j) == 0
  {
    hide Linked, Exclusive;
    var sl := Pte(d, i, j);
    assert EntryOk(m, Word(m, d, i)) && EntryOk(m, Entry(m, d, i, j));
    assert Target(m, sl) == q && q !in g.list;
    assert sl in Refs(m, g, q);
    var mw := WritePte(m, g, d, i, j, 0);
    m2 := SetWord(Decref(m, q), FrameOf(Word(m, d, i)), j, 0);
    g2 := g.(list := Released(m, g, x, sl, q));
    FramesDecideSlots(mw, m2, g.dirs);
    RefsOnlySlot(m, m2, g, sl);
    assert forall p :: Refs(m2, g2, p) == Refs(m2, g, p);
    ReleaseKeeps(m, g, x, sl, q, m2, g2);
  }

  // `pp->pp_ref++` of page_insert: from here to the store, p has one reference more than slots.
  lemma IncrefStep(m: Mem, g: Ghost, p: nat)
    requires Inv(m, g) && p < |m.pages| && p !in g.list
    ensures Loose(SetRef(m, p, Inc16(m.pages[p].ref)), g, p) && Bounded(SetRef(m, p, Inc16(m.pages[p].ref)), g)
  {
    hide Linked, Exclusive;
    var m1 := SetRef(m, p, Inc16(m.pages[p].ref));
    FramesDecideSlots(m, m1, g.dirs);
    ChainLinksOnly(m, m1, g.list);
  }

  // What the store of an entry for p leaves when the entry names f instead: a reference to p is
  // counted that nobody has, and one to f is not counted.
  ghost predicate Miscounted(m: Mem, g: Ghost, p: nat, f: nat) {
    && p != f && Shape(m) && Chain(m, g.list)
    && forall q :: 0 <= q < |m.pages| ==>
      CountIs(m.pages[q].ref, |Refs(m, g, q)| + (if q == p then 1 else 0) - if q == f then 1 else 0)
  }

  lemma StoreOther(m: Mem, g: Ghost, sl: Slot, p: nat, f: nat, m1: Mem)
    requires Loose(m, g, p) && Live(g.dirs, sl) && OnlySlot(m, m1, g.dirs, sl) && Target(m, sl) == -1
    requires Target(m1, sl) == f != p
    requires m1.pages == m.pages && m1.free == m.free && Shape(m1)
    ensures Miscounted(m1, g, p, f)
  {
    hide Typed, Shape, Linked;
    RefsOnlySlot(m, m1, g, sl);
    ChainLinksOnly(m, m1, g.list);
    forall q | 0 <= q < |m1.pages|
      ensures |Refs(m1, g, q)| == |Refs(m, g, q)| + if q == f then 1 else 0
    {
      assert sl !in Refs(m, g, q);
      assert q != f ==> Refs(m1, g, q) == Refs(m, g, q);
    }
  }

  // The counting invariant does not hold then.
  lemma MiscountedBreaks(m: Mem, g: Ghost, p: nat, f: nat)
    requires Miscounted(m, g, p, f) && p < |m.pages|
    ensures !Inv(m, g)
  {
    hide Shape, Chain, Typed, FreeUnreferenced;
    var n := |Refs(m, g, p)|;
    assert CountIs(m.pages[p].ref, n + 1);
    assert n < REF_LIMIT ==> !CountIs(m.pages[p].ref, n);
  }

  // Later, page_decref for the one reference frees f although there is another, and p keeps its
  // count when all its references have gone.
  lemma MiscountedLater(m: Mem, g: Ghost, p: nat, f: nat)
    requires Miscounted(m, g, p, f) && p < |m.pages|
    ensures f < |m.pages| && |Refs(m, g, f)| == 2 ==> Decref(m, f).free == f
    ensures Refs(m, g, p) == {} ==> m.pages[p].ref == 1
  {
    hide Shape, Chain;
    assert CountIs(m.pages[p].ref, |Refs(m, g, p)| + 1);
    if f < |m.pages| { assert CountIs(m.pages[f].ref, |Refs(m, g, f)| - 1); }
  }

  // In memory, pa2page of a mapped entry does not panic.
  lemma PagesInMemory(m: Mem, g: Ghost, d: nat, i: nat, j: nat)
    requires Inv(m, g) && Live(g.dirs, Pte(d, i, j)) && Entry(m, d, i, j) != 0
    ensures FrameOf(Entry(m, d, i, j)) < |m.pages|
  {
    hide Chain, Counted, FreeUnreferenced, Exclusive;
    assert EntryOk(m, Entry(m, d, i, j));
  }

  // The store of the new entry: every count is exact again, on sixteen bits, exactly if the entry
  // names the page that it was made for.
  lemma InsertStep(m: Mem, g: Ghost, d: nat, i: nat, j: nat, p: nat, perm: nat) returns (m1: Mem)
    requires Loose(m, g, p) && Bounded(m, g) && Live(g.dirs, Pte(d, i, j)) && p < |m.pages|
    requires Word(m, d, i) != 0 && Entry(m, d, i, j) == 0
    requires forall s :: Live(g.dirs, s) && !s.Pte? ==> Target(m, s) != p
    ensures var pt := FrameOf(Word(m, d, i));
      pt < |m.frames| && |m.frames[pt]| == NPTENTRIES && m1 == SetWord(m, pt, j, MakeEntry(p, perm))
    ensures OnlySlot(m, m1, g.dirs, Pte(d, i, j)) && OnlyEntry(m, m1, g.dirs, d, i, j)
    ensures Entry(m1, d, i, j) == MakeEntry(p, perm)
    ensures KeepsFrame(p, perm) ==> Loose(m1, g, -1) && (Bounded(m1, g) <==> |Refs(m, g, p)| < REF_LIMIT - 1)
    ensures !KeepsFrame(p, perm) ==> Miscounted(m1, g, p, FrameOf(MakeEntry(p, perm)))
  {
    hide Linked, Exclusive, MakeEntry, KeepsFrame;
    EntryNames(p, perm);
    assert EntryOk(m, Word(m, d, i));
    var w := MakeEntry(p, perm);
    if KeepsFrame(p, perm) {
      m1 := WritePte(m, g, d, i, j, w);
      Store(m, g, Pte(d, i, j), p, m1);
    } else {
      m1 := WriteEntry(m, g, d, i, j, w);
      StoreOther(m, g, Pte(d, i, j), p, FrameOf(w), m1);
    }
  }

  // ---------------------------------------------------------------- whole address spaces

  // env_setup_vm: a fresh frame becomes a page directory with no user mapping.
  lemma AddDirStep(m: Mem, g: Ghost, d: nat, m1: Mem, g1: Ghost)
    requires Inv(m, g) && d < |m.pages| && m.pages[d] == PageInfo(-1, 0) && d !in g.list
    requires forall s :: Live(g.dirs, s) ==> Target(m, s) != d
    requires g1 == g.(dirs := g.dirs + {d})
    requires Shape(m1) && m1.pages == SetRef(m, d, 1).pages && m1.free == m.free
    requires |m1.frames| == |m.frames| && m1.frames == m.frames[d := m1.frames[d]]
    requires forall i :: 0 <= i < USER_PDES ==> m1.frames[d][i] == 0
    ensures Inv(m1, g1)
    ensures SameSlots(m, m1, g.dirs) && SameEntries(m, m1, g.dirs)
    ensures forall s :: Live(g1.dirs, s) && s.d == d ==> Target(m1, s) == if s.Dir? then d else -1
    ensures forall i: nat, j: nat :: i < USER_PDES && j < NPTENTRIES ==> Entry(m1, d, i, j) == 0
  {
    hide Chain, Exclusive, Typed;
    assert Live(g.dirs, Dir(d)) ==> Target(m, Dir(d)) != d;
    WriteNoTable(m, m1, g.dirs, d);
    ChainLinksOnly(m, m1, g.list);
    assert forall i: nat :: i < USER_PDES ==> Word(m1, d, i) == 0;
    AddDirTyped(m, m1, g.dirs, d);
    forall p | 0 <= p ensures Refs(m1, g1, p) == if p == d then {Dir(d)} else Refs(m, g, p) {
      assert forall s :: Live(g1.dirs, s) && s.d != d ==> Live(g.dirs, s);
    }
  }

  lemma AddDirTyped(m: Mem, m1: Mem, dirs: set<nat>, d: nat)
    requires Typed(m1, dirs) && SameSlots(m, m1, dirs) && d < |m1.frames|
    requires forall s :: Live(dirs, s) ==> Target(m, s) != d
    requires forall i: nat :: i < USER_PDES ==> Word(m1, d, i) == 0
    ensures Typed(m1, dirs + {d})
  {
    assert forall s :: Live(dirs + {d}, s) && s.d != d ==> Live(dirs, s);
    assert forall s :: Live(dirs + {d}, s) && s.d == d ==> Target(m1, s) == if s.Dir? then d else -1;
  }

  // A page table is referenced by its directory entry only.
  lemma TableRefs(m: Mem, g: Ghost, d: nat, i: nat)
    requires Typed(m, g.dirs) && Live(g.dirs, Pde(d, i)) && Word(m, d, i) != 0
    ensures Refs(m, g, FrameOf(Word(m, d, i))) == {Pde(d, i)} && FrameOf(Word(m, d, i)) < |m.frames|
  {
    assert EntryOk(m, Word(m, d, i)) && Target(m, Pde(d, i)) == FrameOf(Word(m, d, i));
  }

  // env_free, one page table: its directory entry is cleared, then page_decref.
  lemma ClearPdeStep(m: Mem, g: Ghost, d: nat, i: nat, pt: nat) returns (m2: Mem, g2: Ghost)
    requires Inv(m, g) && Live(g.dirs, Pde(d, i)) && Word(m, d, i) != 0 && pt == FrameOf(Word(m, d, i))
    requires forall j: nat :: j < NPTENTRIES ==> Entry(m, d, i, j) == 0
    ensures d < |m.frames| && |m.frames[d]| == NPTENTRIES && pt < |m.pages| && m.pages[pt].link == -1
    ensures m2 == Decref(SetWord(m, d, i, 0), pt)
    ensures g2 == g.(list := Released(m, g, -1, Pde(d, i), pt))
    ensures Refs(m, g, pt) == {Pde(d, i)}
    ensures Inv(m2, g2) && OnlySlot(m, m2, g.dirs, Pde(d, i)) && Target(m2, Pde(d, i)) == -1
    ensures SameEntries(m, m2, g.dirs)
  {
    hide Linked, Exclusive, Typed, Counted, Bounded;
    var sl := Pde(d, i);
    TableRefs(m, g, d, i);
    DirRefs(m, g, d);
    assert sl in Refs(m, g, pt);
    OffListUnlinked(m, g.list, pt);
    var mw := WritePde(m, g, d, i, 0);
    m2 := Decref(mw, pt);
    g2 := g.(list := [pt] + g.list);
    FramesDecideSlots(mw, m2, g.dirs);
    RefsOnlySlot(m, m2, g, sl);
    assert forall p :: Refs(m2, g2, p) == Refs(m2, g, p);
    ReleaseKeeps(m, g, -1, sl, pt, m2, g2);
  }

  lemma OffListUnlinked(m: Mem, list: seq<nat>, p: nat)
    requires Chain(m, list) && p < |m.pages| && p !in list
    ensures m.pages[p].link == -1
  {
  }

  // A page directory is referenced by its environment only.
  lemma DirRefs(m: Mem, g: Ghost, d: nat)
    requires Typed(m, g.dirs) && d in g.dirs
    ensures Refs(m, g, d) == {Dir(d)} && d < |m.frames|
  {
    assert Target(m, Dir(d)) == d && Live(g.dirs, Dir(d));
  }

  lemma FewerDirsTyped(m: Mem, m1: Mem, dirs: set<nat>, d: nat)
    requires Typed(m, dirs) && m1.frames == m.frames
    ensures Typed(m1, dirs - {d})
  {
    assert forall a: nat, i: nat :: Word(m1, a, i) == Word(m, a, i);
    assert forall a: nat, i: nat, j: nat :: Entry(m1, a, i, j) == Entry(m, a, i, j);
    assert forall w: nat :: EntryOk(m1, w) == EntryOk(m, w);
    assert forall s :: Live(dirs - {d}, s) ==> Live(dirs, s) && Target(m1, s) == Target(m, s);
  }

  // env_free, last step: page_decref of a directory that maps nothing.
  lemma DropDirStep(m: Mem, g: Ghost, d: nat) returns (m1: Mem, g1: Ghost)
    requires Inv(m, g) && d in g.dirs
    requires forall s :: Live(g.dirs, s) && s.d == d && !s.Dir? ==> Target(m, s) == -1
    ensures d < |m.pages| && m.pages[d].link == -1
    ensures m1 == Decref(m, d) && g1 == Ghost([d] + g.list, g.dirs - {d})
    ensures Inv(m1, g1)
    ensures SameSlots(m, m1, g.dirs) && SameEntries(m, m1, g.dirs)
    ensures Refs(m, g, d) == {Dir(d)}
    ensures forall p :: 0 <= p ==> Refs(m1, g1, p) == Refs(m, g, p) - {Dir(d)}
  {
    hide Chain, Exclusive, Typed;
    var sl := Dir(d);
    DirRefs(m, g, d);
    assert d !in g.list by { assert sl in Refs(m, g, d); }
    OffListUnlinked(m, g.list, d);
    m1 := Decref(m, d);
    g1 := Ghost([d] + g.list, g.dirs - {d});
    FramesDecideSlots(m, m1, g.dirs);
    FewerDirsTyped(m, m1, g.dirs, d);
    forall p | 0 <= p ensures Refs(m1, g1, p) == Refs(m, g, p) - {sl} {
      forall s ensures s in Refs(m1, g1, p) <==> s in Refs(m, g, p) - {sl} {
        if s.d == d && !s.Dir? && Live(g.dirs, s) { assert Target(m, s) == -1; }
      }
    }
    ReleaseKeeps(m, g, -1, sl, d, m1, g1);
  }

  // The slots of d that env_free has cleared when it is at entry j of page table i.
  ghost predicate Before(s: Slot, i: nat, j: nat) {
    match s
    case Dir(_) => false
    case Pde(_, a) => a < i
    case Pte(_, a, b) => a < i || (a == i && b < j)
  }

  // What env_free(d) has done by then: only slots of d were cleared, and the free pages are the
  // ones that were free and the ones whose references have all gone.
  ghost predicate Torn(m0: Mem, m: Mem, dirs: set<nat>, d: nat, i: nat, j: nat) {
    && (forall s :: Live(dirs, s) ==> Target(m, s) == if s.d == d && Before(s, i, j) then -1 else Target(m0, s))
    && SameEntries(m0, m, dirs - {d})
  }

  ghost predicate Freed(m0: Mem, g0: Ghost, m: Mem, g: Ghost) {
    forall p: nat :: p in g.list <==> p in g0.list || (Refs(m0, g0, p) != {} && Refs(m, g, p) == {})
  }

  lemma FreedStep(m0: Mem, g0: Ghost, m: Mem, g: Ghost, m1: Mem, g1: Ghost, sl: Slot, q: nat)
    requires Freed(m0, g0, m, g) && sl in Refs(m, g, q) && sl in Refs(m0, g0, q)
    requires forall p :: 0 <= p ==> Refs(m1, g1, p) == Refs(m, g, p) - {sl}
    requires g1.list == Released(m, g, -1, sl, q)
    ensures Freed(m0, g0, m1, g1)
  {
    forall p: nat ensures p in g1.list <==> p in g0.list || (Refs(m0, g0, p) != {} && Refs(m1, g1, p) == {}) {
      if p == q {
        assert Refs(m, g, q) == Refs(m1, g1, q) + {sl};
      } else {
        assert sl !in Refs(m, g, p);
        assert Refs(m1, g1, p) == Refs(m, g, p);
        assert p in g1.list <==> p in g.list;
      }
    }
  }
}
