// The page allocator and the page-table operations of sched/kern/pmap.c, and the address-space
// half of env_setup_vm and env_free (sched/kern/env.c), updating memory in place.
module Pmap {
  import opened FreeList
  import opened PageTables

  const E_INVAL := 3
  const E_NO_MEM := 4
  const E_FAULT := 6
  const WORD_LIMIT := 0x1_0000_0000
  const UTOP := 0xeec0_0000
  const PTE_SYSCALL := 0xE07        // PTE_AVAIL | PTE_P | PTE_W | PTE_U

  predicate Writable(w: nat) { w / 2 % 2 == 1 }

  // check_perm without a page table entry: only PTE_SYSCALL bits, and PTE_P and PTE_U set.
  predicate PermOk(perm: nat) {
    Covers(PTE_SYSCALL, perm) && And(perm, PTE_P) != 0 && And(perm, PTE_U) != 0
  }

  lemma CoversStep(a: nat, b: nat)
    ensures Covers(a, b) <==> (b % 2 == 1 ==> a % 2 == 1) && Covers(a / 2, b / 2)
  {
  }

  lemma NothingCovered(b: nat)
    ensures Covers(0, b) <==> b == 0
  {
    CoversBits(0, b);
    forall k: nat ensures !Bit(0, k) { NoBit(k); }
    if b != 0 { SomeBit(b); }
  }

  lemma {:induction false} SomeBit(b: nat)
    requires b > 0
    ensures exists k: nat :: Bit(b, k)
  {
    if b % 2 == 1 {
      assert Bit(b, 0);
    } else {
      SomeBit(b / 2);
      var k: nat :| Bit(b / 2, k);
      assert Bit(b, k + 1);
    }
  }

  // Bits 0 and 2 set, 1 and 9 to 11 as one likes, and no others.
  lemma PermOkMeans(perm: nat)
    ensures PermOk(perm) <==> perm < 4096 && perm % 2 == 1 && perm / 4 % 2 == 1 && perm / 8 % 64 == 0
  {
    AndOne(perm);
    AndFour(perm);
    ThreeLow(perm);
    SixZero(perm / 8);
    ThreeHigh(perm / 512);
    assert perm / 8 / 64 == perm / 512;
  }

  lemma AndOne(perm: nat)
    ensures And(perm, 1) != 0 <==> perm % 2 == 1
  {
  }

  lemma AndFour(perm: nat)
    ensures And(perm, 4) != 0 <==> perm / 4 % 2 == 1
  {
    assert And(perm / 2 / 2, 1) == perm / 2 / 2 % 2;
    assert And(perm / 2, 2) == 2 * And(perm / 2 / 2, 1);
    assert And(perm, 4) == 2 * And(perm / 2, 2);
    assert perm / 2 / 2 == perm / 4;
  }

  lemma ThreeLow(perm: nat)
    ensures Covers(0xE07, perm) <==> Covers(0x1C0, perm / 8)
  {
    hide Covers;
    CoversStep(0xE07, perm);
    CoversStep(0x703, perm / 2);
    CoversStep(0x381, perm / 2 / 2);
    assert perm / 2 / 2 / 2 == perm / 8;
  }

  lemma SixZero(n: nat)
    ensures Covers(0x1C0, n) <==> n % 64 == 0 && Covers(7, n / 64)
  {
    hide Covers;
    ThreeZero(0x38, n);
    ThreeZero(7, n / 8);
    assert n / 8 / 8 == n / 64;
  }

  lemma ThreeZero(a: nat, n: nat)
    ensures Covers(8 * a, n) <==> n % 8 == 0 && Covers(a, n / 8)
  {
    hide Covers;
    CoversStep(8 * a, n);
    CoversStep(4 * a, n / 2);
    CoversStep(2 * a, n / 2 / 2);
    assert n / 2 / 2 / 2 == n / 8;
  }

  lemma ThreeHigh(n: nat)
    ensures Covers(7, n) <==> n < 8
  {
    CoversStep(7, n);
    CoversStep(3, n / 2);
    CoversStep(1, n / 2 / 2);
    NothingCovered(n / 2 / 2 / 2);
  }

  // Pages that page_init keeps off the free list: page 0, the AP entry code, the I/O hole, and the
  // kernel with what boot_alloc gave out.
  predicate Reserved(p: nat, kernEnd: nat) {
    p == 0 || p == 7 || 0xA0 <= p < 0x100 || 0x100 <= p < kernEnd
  }
  const UVPT_PDX := 957             // PDX(UVPT)

  // Frames that no one can be writing as a table: mapped user pages, kernel pages, and pages
  // handed out but not yet referenced.
  ghost predicate Untouchable(m: Mem, g: Ghost, f: int) {
    && 0 <= f < |m.frames| && f !in g.list
    && forall s :: Live(g.dirs, s) && !s.Pte? ==> Target(m, s) != f
  }

  ghost predicate ContentsKept(m0: Mem, m1: Mem, g: Ghost) {
    && |m1.frames| == |m0.frames|
    && forall f :: Untouchable(m0, g, f) ==> m1.frames[f] == m0.frames[f]
  }

  // Only page tables and directories are written, even among free frames.
  ghost predicate TablesOnly(m0: Mem, m1: Mem, dirs: set<nat>) {
    && |m1.frames| == |m0.frames|
    && forall f :: 0 <= f < |m0.frames| && (forall s :: Live(dirs, s) && !s.Pte? ==> Target(m0, s) != f) ==>
      m1.frames[f] == m0.frames[f]
  }

  // What page_remove does to the mapping (i, j) of d: the entry becomes 0 and no other entry
  // changes; the page it named is freed exactly when that was its last reference.
  ghost predicate Removed(m0: Mem, g0: Ghost, m1: Mem, g1: Ghost, x: int, d: nat, i: nat, j: nat) {
    && Entry(m1, d, i, j) == 0
    && OnlySlot(m0, m1, g0.dirs, Pte(d, i, j)) && OnlyEntry(m0, m1, g0.dirs, d, i, j)
    && g1.dirs == g0.dirs
    && var q := Target(m0, Pte(d, i, j));
      && (q == -1 ==> m1 == m0)
      && g1.list == if q == -1 then g0.list else Released(m0, g0, x, Pte(d, i, j), q)
  }

  // What a successful page_insert of p with perm does to the mapping (i, j) of d: one key of the
  // flat map changes; a page table is taken from the free list if there was none; the page that
  // was mapped there is freed exactly when that was its last reference and it is not p itself.
  ghost predicate Inserted(m0: Mem, g0: Ghost, m1: Mem, g1: Ghost, p: nat, d: nat, i: nat, j: nat, perm: nat) {
    && Entry(m1, d, i, j) == MakeEntry(p, perm)
    && OnlyEntry(m0, m1, g0.dirs, d, i, j)
    && g1.dirs == g0.dirs
    && var walked := if Word(m0, d, i) == 0 && g0.list != [] then g0.list[1..] else g0.list;
      var q := Target(m0, Pte(d, i, j));
      g1.list == if q != -1 && q != p && Refs(m0, g0, q) == {Pte(d, i, j)} then [q] + walked else walked
  }

  // env_page_map from srcva of src to dstva of dst, where src maps page p: one key of the flat map
  // changes. Both addresses then name p exactly if perm keeps its frame; otherwise the counts of p and
  // of the frame named instead are wrong.
  ghost predicate PageMapped(m0: Mem, g0: Ghost, m1: Mem, g1: Ghost, src: nat, srcva: nat, dst: nat, dstva: nat,
      perm: nat)
  {
    var from, to := Pte(src, PDX(srcva), PTX(srcva)), Pte(dst, PDX(dstva), PTX(dstva));
    var p := FrameOf(Entry(m0, src, PDX(srcva), PTX(srcva)));
    && p < |m0.pages| && Target(m0, from) == p
    && Inserted(m0, g0, m1, g1, p, dst, PDX(dstva), PTX(dstva), perm)
    && (Target(m1, from) == p && Target(m1, to) == p <==> KeepsFrame(p, perm))
    && (!KeepsFrame(p, perm) ==> Miscounted(m1, g1, p, FrameOf(MakeEntry(p, perm))))
  }

  // page_insert of p over slot `to` takes its count past what sixteen bits hold.
  ghost predicate Overflows(m: Mem, p: int, to: Slot) {
    0 <= p < |m.pages| && m.pages[p].ref == REF_LIMIT - 1 && Target(m, to) != p
  }

  predicate Aligned(a: nat) { a % PGSIZE == 0 }

  // ROUNDDOWN and ROUNDUP to a page, on 32 bits.
  function RoundDown(a: nat): (r: nat)
    ensures Aligned(r) && r <= a < r + PGSIZE
  {
    a - a % PGSIZE
  }

  function RoundUp(a: nat): nat { RoundDown((a + PGSIZE - 1) % WORD_LIMIT) }

  // va_hi of user_mem_check.
  function CheckEnd(va: nat, len: nat): nat { RoundUp((va + len) % WORD_LIMIT) }

  // Does the entry have all the bits of perm | PTE_P?
  predicate HasBits(w: nat, perm: nat) { And(w, Or(perm, PTE_P)) == Or(perm, PTE_P) }

  // Bit by bit: it is present and has every bit of perm.
  ghost predicate PresentWithAll(w: nat, perm: nat) { w % 2 == 1 && forall k: nat :: Bit(perm, k) ==> Bit(w, k) }

  lemma HasBitsMeans(w: nat, perm: nat)
    ensures HasBits(w, perm) <==> PresentWithAll(w, perm)
  {
    var all := Or(perm, PTE_P);
    AndCovers(w, all);
    CoversBits(w, all);
    BitSteps(w);
    forall k: nat ensures Bit(all, k) <==> Bit(perm, k) || k == 0 {
      OrBits(perm, PTE_P, k);
      OnlyBitZero(k);
    }
    if Covers(w, all) {
      assert Bit(all, 0);
      forall k: nat | Bit(perm, k) ensures Bit(w, k) { CoveredBit(w, all, k); }
    }
  }

  lemma CoveredBit(a: nat, b: nat, k: nat)
    requires Covers(a, b) && Bit(b, k)
    ensures Bit(a, k)
  {
    CoversBits(a, b);
  }

  lemma OnlyBitZero(k: nat)
    ensures Bit(1, k) <==> k == 0
  {
    if k > 0 { NoBit(k - 1); }
  }

  // For PTE_U | PTE_W: present, writable and a user entry.
  lemma HasUserWrite(w: nat)
    ensures HasBits(w, 6) <==> w % 2 == 1 && w / 2 % 2 == 1 && w / 4 % 2 == 1
  {
    assert Or(6, 1) == 7;
    AndCovers(w, 7);
    CoversStep(w, 7);
    CoversStep(w / 2, 3);
    CoversStep(w / 2 / 2, 1);
    assert w / 2 / 2 == w / 4;
  }

  // Byte b lies below UTOP and its page has every permission asked for.
  ghost predicate Accessible(m: Mem, d: nat, b: nat, perm: nat) {
    b < UTOP && HasBits(Entry(m, d, PDX(b), PTX(b)), perm)
  }

  lemma NoBitsInZero(perm: nat)
    ensures !HasBits(0, perm)
  {
    HasBitsMeans(0, perm);
  }

  lemma UserPdx(a: nat)
    requires a < UTOP
    ensures PDX(a) < USER_PDES && PTX(a) < NPTENTRIES
  {
  }

  lemma SamePage(a: nat, b: nat)
    requires Aligned(a) && a <= b < a + PGSIZE
    ensures PDX(b) == PDX(a) && PTX(b) == PTX(a) && RoundDown(b) == a
  {
    assert b / PGSIZE == a / PGSIZE;
    assert b / 0x40_0000 == b / PGSIZE / NPTENTRIES && a / 0x40_0000 == a / PGSIZE / NPTENTRIES;
  }

  lemma PageDecides(m: Mem, d: nat, a: nat, perm: nat)
    requires Aligned(a) && a < UTOP
    ensures forall b :: a <= b < a + PGSIZE ==>
      (Accessible(m, d, b, perm) <==> HasBits(Entry(m, d, PDX(a), PTX(a)), perm))
  {
    hide HasBits, PDX, PTX, Entry;
    forall b | a <= b < a + PGSIZE
      ensures Accessible(m, d, b, perm) <==> HasBits(Entry(m, d, PDX(a), PTX(a)), perm)
    {
      SamePage(a, b);
    }
  }

  lemma EndAligned(va: nat, len: nat)
    ensures Aligned(CheckEnd(va, len))
  {
  }

  lemma NextPage(a: nat, b: nat)
    requires Aligned(a) && Aligned(b) && a < b
    ensures Aligned(a + PGSIZE) && a + PGSIZE <= b
  {
  }

  // The condition on which user_mem_check returns 0.
  ghost predicate Accepts(m: Mem, d: nat, va: nat, len: nat, perm: nat) {
    CheckEnd(va, len) <= UTOP && forall b :: RoundDown(va) <= b < CheckEnd(va, len) ==> Accessible(m, d, b, perm)
  }

  lemma RoundsUp(e: nat)
    requires 0 < e < WORD_LIMIT
    ensures RoundUp(e) == if e <= WORD_LIMIT - PGSIZE then RoundDown(e - 1) + PGSIZE else 0
  {
    if e <= WORD_LIMIT - PGSIZE {
      assert (e + PGSIZE - 1) % WORD_LIMIT == e + PGSIZE - 1;
      assert (e - 1 + PGSIZE) % PGSIZE == (e - 1) % PGSIZE;
    } else {
      assert (e + PGSIZE - 1) % WORD_LIMIT == e + PGSIZE - 1 - WORD_LIMIT;
    }
  }

  lemma CheckEnds(va: nat, len: nat)
    requires 0 < len < WORD_LIMIT && va < WORD_LIMIT
    ensures va + len <= WORD_LIMIT - PGSIZE ==> CheckEnd(va, len) == RoundDown(va + len - 1) + PGSIZE
    ensures WORD_LIMIT - PGSIZE < va + len < WORD_LIMIT ==> CheckEnd(va, len) == 0
  {
    hide RoundUp, RoundDown;
    if va + len < WORD_LIMIT {
      assert (va + len) % WORD_LIMIT == va + len;
      RoundsUp(va + len);
    }
  }

  lemma RoundDownMonotone(a: nat, b: nat)
    requires a <= b
    ensures RoundDown(a) <= RoundDown(b)
  {
    hide RoundDown;
    if RoundDown(b) < RoundDown(a) { NextPage(RoundDown(b), RoundDown(a)); }
  }

  // When the end of the range wraps around, the loop looks at the page of va or at no page.
  lemma WrappedEnd(va: nat, len: nat)
    requires 0 < len < WORD_LIMIT <= va + len && va < WORD_LIMIT
    ensures CheckEnd(va, len) <= RoundDown(va) || CheckEnd(va, len) == RoundDown(va) + PGSIZE
  {
    var e := va + len - WORD_LIMIT;
    assert (va + len) % WORD_LIMIT == e;
    EndAligned(va, len);
    assert RoundUp(0) == 0;
    hide RoundUp, RoundDown;
    if e > 0 {
      RoundsUp(e);
      RoundDownMonotone(e - 1, va);
    }
    if RoundDown(va) < CheckEnd(va, len) { NextPage(RoundDown(va), CheckEnd(va, len)); }
  }

  lemma WrappedAccepts(m: Mem, d: nat, va: nat, len: nat, perm: nat)
    requires 0 < len < WORD_LIMIT <= va + len && va < WORD_LIMIT
    ensures Accepts(m, d, va, len, perm) <==>
      CheckEnd(va, len) <= UTOP && (CheckEnd(va, len) <= RoundDown(va) || Accessible(m, d, va, perm))
  {
    hide HasBits, PDX, PTX, CheckEnd, RoundDown, Entry;
    WrappedEnd(va, len);
    if RoundDown(va) < CheckEnd(va, len) <= UTOP {
      PageDecides(m, d, RoundDown(va), perm);
    }
  }

  // user_mem_check accepts a nonempty range exactly when all its bytes are accessible, as long as
  // rounding its end up does not pass 2^32. Beyond that no range is accessible. The ranges that end
  // in the last page below 2^32 are all accepted; those that reach 2^32 are accepted when their end,
  // wrapped around and rounded up, is below UTOP and not above the page of va, or just above that
  // page and va is accessible.
  lemma UserMemCheckMeaning(m: Mem, d: nat, va: nat, len: nat, perm: nat)
    requires 0 < len < WORD_LIMIT && va < WORD_LIMIT
    ensures va + len <= WORD_LIMIT - PGSIZE ==>
      (Accepts(m, d, va, len, perm) <==> forall b :: va <= b < va + len ==> Accessible(m, d, b, perm))
    ensures va + len > WORD_LIMIT - PGSIZE ==> !Accessible(m, d, va + len - 1, perm)
    ensures WORD_LIMIT - PGSIZE < va + len < WORD_LIMIT ==> Accepts(m, d, va, len, perm)
    ensures va + len >= WORD_LIMIT ==>
      (Accepts(m, d, va, len, perm) <==>
        CheckEnd(va, len) <= UTOP && (CheckEnd(va, len) <= RoundDown(va) || Accessible(m, d, va, perm)))
  {
    hide HasBits, PDX, PTX, CheckEnd;
    CheckEnds(va, len);
    var last := va + len - 1;
    if va + len >= WORD_LIMIT {
      WrappedAccepts(m, d, va, len, perm);
    }
    if va + len <= WORD_LIMIT - PGSIZE && forall b :: va <= b < va + len ==> Accessible(m, d, b, perm) {
      assert Accessible(m, d, va, perm) && Accessible(m, d, last, perm);
      forall b | RoundDown(va) <= b < CheckEnd(va, len) ensures Accessible(m, d, b, perm) {
        if b < va {
          SamePage(RoundDown(va), b);
          SamePage(RoundDown(va), va);
        } else if b > last {
          SamePage(RoundDown(last), b);
          SamePage(RoundDown(last), last);
        }
      }
    }
  }

  // So it answers the question it is asked exactly when rounding up does not pass 2^32, or when it
  // rejects a range beyond that: because the wrapped end is above UTOP, or the one page it looks at
  // is not accessible.
  lemma UserMemCheckExact(m: Mem, d: nat, va: nat, len: nat, perm: nat)
    requires 0 < len < WORD_LIMIT && va < WORD_LIMIT
    ensures (Accepts(m, d, va, len, perm) <==> forall b :: va <= b < va + len ==> Accessible(m, d, b, perm)) <==> (
      || va + len <= WORD_LIMIT - PGSIZE
      || CheckEnd(va, len) > UTOP
      || (CheckEnd(va, len) > RoundDown(va) && !Accessible(m, d, va, perm)))
  {
    hide HasBits, PDX, PTX, CheckEnd, Accepts;
    UserMemCheckMeaning(m, d, va, len, perm);
    CheckEnds(va, len);
  }

  // Byte b may be accessed: below UTOP, mapped, and with every bit of perm in its entry.
  ghost predicate Allowed(m: Mem, d: nat, b: nat, perm: nat) {
    b < 0xEEC0_0000
    && PresentWithAll(Entry(m, d, b / 0x40_0000, b / 0x1000 % 1024), perm)
  }

  lemma PageIndices(b: nat)
    ensures PTX(b) == b / 0x1000 % 1024 && (b < UTOP ==> PDX(b) == b / 0x40_0000)
  {
  }

  lemma AccessibleMeans(m: Mem, d: nat, b: nat, perm: nat)
    ensures Accessible(m, d, b, perm) <==> Allowed(m, d, b, perm)
  {
    PageIndices(b);
    hide PresentWithAll, Entry, HasBits, PDX, PTX;
    HasBitsMeans(Entry(m, d, PDX(b), PTX(b)), perm);
  }

  lemma CheckedRange(m: Mem, d: nat, va: nat, len: nat, perm: nat)
    requires va < WORD_LIMIT && len < WORD_LIMIT
    ensures 0 < len && va + len <= WORD_LIMIT - PGSIZE ==>
      (Accepts(m, d, va, len, perm) <==> forall b :: va <= b < va + len ==> Allowed(m, d, b, perm))
  {
    hide Accessible, Allowed, Accepts;
    if 0 < len {
      UserMemCheckMeaning(m, d, va, len, perm);
      forall b: nat ensures Accessible(m, d, b, perm) <==> Allowed(m, d, b, perm) { AccessibleMeans(m, d, b, perm); }
    }
  }

  // So a range with a page that is not writable is refused to whoever asks to write, as long as
  // rounding its end up does not pass 2^32.
  lemma ReadOnlyRefused(m: Mem, d: nat, va: nat, len: nat, perm: nat, b: nat)
    requires va <= b < va + len <= WORD_LIMIT - PGSIZE && len > 0
    requires Bit(perm, 1) && !Writable(Entry(m, d, PDX(b), PTX(b)))
    ensures !Accepts(m, d, va, len, perm)
  {
    hide Entry, PDX, PTX, Accepts;
    var w := Entry(m, d, PDX(b), PTX(b));
    UserMemCheckMeaning(m, d, va, len, perm);
    HasBitsMeans(w, perm);
    assert Bit(w, 1) == (w / 2 % 2 == 1);
    assert !Accessible(m, d, b, perm);
  }

  // A range that starts in the kernel and wraps around is accepted whatever is mapped there.
  lemma KernelRangeAccepted(m: Mem, d: nat, perm: nat)
    ensures Accepts(m, d, 0xF000_0000, 0x1000_1000, perm) && !Accessible(m, d, 0xF000_0000, perm)
  {
    assert CheckEnd(0xF000_0000, 0x1000_1000) == 0x1000 && RoundDown(0xF000_0000) == 0xF000_0000;
    WrappedAccepts(m, d, 0xF000_0000, 0x1000_1000, perm);
  }

  // kern_pgdir is nobody's table and maps nothing below UTOP.
  ghost predicate KernelOk(m: Mem, g: Ghost, k: nat) {
    && k < |m.frames| && |m.frames[k]| == NPTENTRIES
    && (forall i :: 0 <= i < USER_PDES ==> m.frames[k][i] == 0)
    && k !in g.list
    && (forall s :: Live(g.dirs, s) ==> Target(m, s) != k)
  }

  lemma NotKernel(m: Mem, g: Ghost, k: nat, s: Slot)
    requires KernelOk(m, g, k) && Live(g.dirs, s)
    ensures Target(m, s) != k < |m.frames|
  {
  }

  lemma KernelFrames(m: Mem, m1: Mem, g: Ghost, k: nat)
    requires KernelOk(m, g, k) && m1.frames == m.frames && |m1.pages| == |m.pages|
    ensures KernelOk(m1, g, k)
  {
    FramesDecideSlots(m, m1, g.dirs);
  }

  lemma KernelKept(m: Mem, g: Ghost, m1: Mem, g1: Ghost, x: int, k: nat, sl: Slot, q: nat)
    requires KernelOk(m, g, k) && Shape(m1) && |m1.frames| == |m.frames| && m1.frames[k] == m.frames[k]
    requires Live(g.dirs, sl) && Target(m, sl) == q && g1.dirs <= g.dirs
    requires OnlySlot(m, m1, g.dirs, sl) && (sl in Slots(g1.dirs) ==> Target(m1, sl) == -1)
    requires g1.list == g.list || g1.list == [q] + g.list || g1.list == Released(m, g, x, sl, q)
    ensures KernelOk(m1, g1, k)
  {
    forall s | Live(g1.dirs, s) ensures Target(m1, s) != k {
      assert s != sl ==> Target(m1, s) == Target(m, s);
    }
  }

  // pgdir_walk adds at most the reference of the directory entry to a page that was free, so it
  // leaves the references of every other page alone.
  lemma WalkKeepsRefs(m0: Mem, g0: Ghost, m1: Mem, g1: Ghost, d: nat, i: nat, q: int)
    requires OnlySlot(m0, m1, g0.dirs, Pde(d, i)) && g1.dirs == g0.dirs && Live(g0.dirs, Pde(d, i))
    requires Target(m1, Pde(d, i)) == Target(m0, Pde(d, i)) ||
      (Target(m0, Pde(d, i)) == -1 && Target(m1, Pde(d, i)) in g0.list)
    requires 0 <= q && q !in g0.list
    ensures Refs(m1, g1, q) == Refs(m0, g0, q)
  {
  }

  // The count of p after page_insert fits sixteen bits unless it was full and gained a reference.
  lemma InsertOutcome(m0: Mem, g0: Ghost, m1: Mem, g1: Ghost, m2: Mem, m3: Mem, g3: Ghost, d: nat, i: nat, j: nat,
      p: nat)
    requires Inv(m0, g0) && p < |m0.pages| && p !in g0.list && Live(g0.dirs, Pte(d, i, j))
    requires OnlySlot(m0, m1, g0.dirs, Pde(d, i)) && SameEntries(m0, m1, g0.dirs) && g1.dirs == g0.dirs
    requires Target(m1, Pde(d, i)) == Target(m0, Pde(d, i)) ||
      (Target(m0, Pde(d, i)) == -1 && Target(m1, Pde(d, i)) in g0.list)
    requires m2.frames == m1.frames && |m2.pages| == |m1.pages|
    requires Removed(m2, g1, m3, g3, p, d, i, j)
    ensures forall m4 :: OnlyEntry(m3, m4, g0.dirs, d, i, j) ==> OnlyEntry(m0, m4, g0.dirs, d, i, j)
    ensures var q := Target(m0, Pte(d, i, j));
      && g3.list == (if q != -1 && q != p && Refs(m0, g0, q) == {Pte(d, i, j)} then [q] + g1.list else g1.list)
      && (|Refs(m3, g3, p)| < REF_LIMIT - 1 <==> m0.pages[p].ref != REF_LIMIT - 1 || q == p)
  {
    hide Linked, Exclusive;
    var sl := Pte(d, i, j);
    var q := Target(m0, sl);
    FramesDecideSlots(m1, m2, g0.dirs);
    assert Target(m2, sl) == q;
    WalkKeepsRefs(m0, g0, m1, g1, d, i, p);
    if q != -1 {
      assert q !in g0.list;
      WalkKeepsRefs(m0, g0, m1, g1, d, i, q);
    }
    RefsOnlySlot(m2, m3, g1, sl);
    assert Refs(m3, g3, p) == Refs(m0, g0, p) - {sl};
    if q == p {
      LastReference(Refs(m0, g0, p), sl);
    } else {
      assert sl !in Refs(m0, g0, p);
      assert Refs(m3, g3, p) == Refs(m0, g0, p);
    }
  }

  // Only a page table is written by the final store, so page_insert keeps the contents of every
  // frame that is not a table, and kern_pgdir.
  lemma InsertKeeps(m0: Mem, g0: Ghost, m1: Mem, g1: Ghost, m2: Mem, m3: Mem, g3: Ghost, m4: Mem, d: nat, i: nat,
      j: nat, p: nat, w: nat, k: nat)
    requires Live(g0.dirs, Pte(d, i, j)) && g1.dirs == g0.dirs && g3.dirs == g0.dirs
    requires ContentsKept(m0, m1, g0) && m2.frames == m1.frames && |m2.pages| == |m1.pages|
    requires TablesOnly(m2, m3, g1.dirs)
    requires OnlySlot(m0, m1, g0.dirs, Pde(d, i)) && OnlySlot(m2, m3, g0.dirs, Pte(d, i, j))
    requires Target(m1, Pde(d, i)) == Target(m0, Pde(d, i)) ||
      (Target(m0, Pde(d, i)) == -1 && Target(m1, Pde(d, i)) in g0.list)
    requires g1.list == g0.list || (g0.list != [] && g1.list == g0.list[1..])
    requires var pt := Target(m3, Pde(d, i));
      0 <= pt < |m3.frames| && |m3.frames[pt]| == NPTENTRIES && m4 == SetWord(m3, pt, j, w)
    requires KernelOk(m3, g3, k) && OnlySlot(m3, m4, g0.dirs, Pte(d, i, j))
    ensures ContentsKept(m0, m4, g0) && (Target(m4, Pte(d, i, j)) != k ==> KernelOk(m4, g3, k))
  {
    FramesDecideSlots(m1, m2, g0.dirs);
    assert Target(m3, Pde(d, i)) == Target(m1, Pde(d, i));
    forall f | Untouchable(m0, g0, f) ensures m4.frames[f] == m0.frames[f] {
      assert f !in g1.list;
      assert Untouchable(m2, g1, f);
      assert f != Target(m3, Pde(d, i));
    }
    forall s | Live(g3.dirs, s) && s != Pte(d, i, j) ensures Target(m4, s) != k {
      assert Target(m4, s) == Target(m3, s);
    }
  }

  // The rest of page_insert, from the memory after pgdir_walk (m1), the increment (m2) and
  // page_remove (m3) on.
  lemma InsertFinish(m0: Mem, g0: Ghost, m1: Mem, g1: Ghost, m2: Mem, m3: Mem, g3: Ghost, d: nat, i: nat, j: nat,
      p: nat, perm: nat, k: nat)
    returns (m4: Mem)
    requires Inv(m0, g0) && p < |m0.pages| && p !in g0.list && Live(g0.dirs, Pte(d, i, j)) && p != k
    requires forall s :: Live(g0.dirs, s) && !s.Pte? ==> Target(m0, s) != p
    requires Loose(m1, g1, -1) && OnlySlot(m0, m1, g0.dirs, Pde(d, i)) && SameEntries(m0, m1, g0.dirs)
    requires g1.dirs == g0.dirs
    requires Word(m1, d, i) != 0 && ContentsKept(m0, m1, g0)
    requires if Word(m0, d, i) != 0 then m1 == m0 && g1 == g0
      else g0.list != [] && Target(m1, Pde(d, i)) == g0.list[0] && g1.list == g0.list[1..]
    requires m2.frames == m1.frames && |m2.pages| == |m1.pages|
    requires Removed(m2, g1, m3, g3, p, d, i, j) && TablesOnly(m2, m3, g1.dirs)
    requires Loose(m3, g3, p) && Bounded(m3, g3) && KernelOk(m3, g3, k) && |m3.pages| == |m0.pages|
    ensures var pt := FrameOf(Word(m1, d, i));
      pt < |m3.frames| && |m3.frames[pt]| == NPTENTRIES && m4 == SetWord(m3, pt, j, MakeEntry(p, perm))
    ensures Inserted(m0, g0, m4, g3, p, d, i, j, perm) && ContentsKept(m0, m4, g0)
    ensures KeepsFrame(p, perm) ==> (
      && Loose(m4, g3, -1) && KernelOk(m4, g3, k)
      && (Bounded(m4, g3) <==> m0.pages[p].ref != REF_LIMIT - 1 || Target(m0, Pte(d, i, j)) == p))
    ensures !KeepsFrame(p, perm) ==> Miscounted(m4, g3, p, FrameOf(MakeEntry(p, perm)))
  {
    hide KeepsFrame, MakeEntry, Miscounted, Typed, Chain, Counted, FreeUnreferenced, Bounded, OnlyEntry, KernelOk,
      ContentsKept, TablesOnly, Entry, Shape;
    FramesDecideSlots(m1, m2, g0.dirs);
    assert Target(m3, Pde(d, i)) == Target(m2, Pde(d, i)) == FrameOf(Word(m1, d, i));
    InsertOutcome(m0, g0, m1, g1, m2, m3, g3, d, i, j, p);
    forall s | Live(g3.dirs, s) && !s.Pte? ensures Target(m3, s) != p {
      assert Target(m3, s) == Target(m2, s) == Target(m1, s);
    }
    EntryNames(p, perm);
    m4 := InsertStep(m3, g3, d, i, j, p, perm);
    InsertKeeps(m0, g0, m1, g1, m2, m3, g3, m4, d, i, j, p, MakeEntry(p, perm), k);
  }

  lemma TornSteps(m0: Mem, m: Mem, m1: Mem, dirs: set<nat>, d: nat, i: nat, j: nat)
    requires Torn(m0, m, dirs, d, i, j) && d in dirs && i < USER_PDES && j <= NPTENTRIES
    ensures (j < NPTENTRIES && OnlyEntry(m, m1, dirs, d, i, j) && OnlySlot(m, m1, dirs, Pte(d, i, j))
             && Target(m1, Pte(d, i, j)) == -1) ==> Torn(m0, m1, dirs, d, i, j + 1)
    ensures (j == NPTENTRIES && SameEntries(m, m1, dirs) && OnlySlot(m, m1, dirs, Pde(d, i))
             && Target(m1, Pde(d, i)) == -1) ==> Torn(m0, m1, dirs, d, i + 1, 0)
    ensures j == 0 && Word(m, d, i) == 0 ==> Torn(m0, m, dirs, d, i + 1, 0)
  {
    assert Word(m, d, i) == 0 ==> forall k: nat :: Target(m, Pte(d, i, k)) == -1;
  }

  // The reference counted by the slot that env_free clears next is one of d's own.
  lemma TornRefs(m0: Mem, g0: Ghost, m: Mem, g: Ghost, m1: Mem, g1: Ghost, d: nat, i: nat, j: nat, sl: Slot, q: nat)
    requires Torn(m0, m, g0.dirs, d, i, j) && Freed(m0, g0, m, g) && g.dirs == g0.dirs && g1.dirs == g0.dirs
    requires Live(g0.dirs, sl) && sl.d == d && Target(m, sl) == q
    requires OnlySlot(m, m1, g0.dirs, sl) && Target(m1, sl) == -1
    requires g1.list == Released(m, g, -1, sl, q)
    ensures Freed(m0, g0, m1, g1)
  {
    RefsOnlySlot(m, m1, g, sl);
    assert forall p :: 0 <= p ==> Refs(m1, g1, p) == Refs(m, g, p) - {sl};
    FreedStep(m0, g0, m, g, m1, g1, sl, q);
  }

  // When every slot of d is gone, the references left are the other environments'.
  lemma TornAll(m0: Mem, g0: Ghost, m: Mem, gm: Ghost, m1: Mem, g1: Ghost, d: nat)
    requires Torn(m0, m, g0.dirs, d, USER_PDES, 0) && gm.dirs == g0.dirs
    requires forall p :: 0 <= p ==> Refs(m1, g1, p) == Refs(m, gm, p) - {Dir(d)}
    ensures forall p: nat :: Refs(m1, g1, p) == {} <==> forall s :: s in Refs(m0, g0, p) ==> s.d == d
  {
    forall p: nat ensures Refs(m1, g1, p) == {} <==> forall s :: s in Refs(m0, g0, p) ==> s.d == d {
      forall s ensures s in Refs(m1, g1, p) <==> s in Refs(m0, g0, p) && s.d != d {
        if Live(g0.dirs, s) {
          assert Target(m, s) == if s.d == d && Before(s, USER_PDES, 0) then -1 else Target(m0, s);
        }
      }
      if s :| s in Refs(m0, g0, p) && s.d != d { assert s in Refs(m1, g1, p); }
      if s :| s in Refs(m1, g1, p) { assert s in Refs(m0, g0, p) && s.d != d; }
    }
  }

  lemma EmptyChain(m: Mem)
    requires m.free == -1 && forall p: nat :: p < |m.pages| ==> m.pages[p].link == -1
    ensures Chain(m, [])
  {
  }

  lemma ClearLink(m: Mem, m1: Mem, list: seq<nat>, i: nat)
    requires Chain(m, list) && i < |m.pages| && i !in list
    requires m1 == m.(pages := m.pages[i := m.pages[i].(link := -1)])
    ensures Chain(m1, list)
  {
    OffListUnlinked(m, list, i);
    ChainLinksOnly(m, m1, list);
  }

  lemma NobodyRefers(m: Mem, g: Ghost, k: nat)
    requires Shape(m) && Chain(m, g.list) && g.dirs == {} && k < |m.frames| && k !in g.list
    requires forall p: nat :: p < |m.pages| ==> m.pages[p].ref == 0
    requires forall i :: 0 <= i < USER_PDES ==> m.frames[k][i] == 0
    ensures Loose(m, g, -1) && Bounded(m, g) && KernelOk(m, g, k)
  {
    hide Chain;
    assert forall q :: Refs(m, g, q) == {};
  }

  lemma NothingKept(m: Mem, g: Ghost)
    ensures ContentsKept(m, m, g)
  {
  }

  // page_alloc of p, and then an operation that keeps what was mapped: p itself keeps its contents too.
  lemma KeptAfterAlloc(m0: Mem, g0: Ghost, m1: Mem, g1: Ghost, m2: Mem, p: nat)
    requires g0.list != [] && p == g0.list[0] && g1 == g0.(list := g0.list[1..]) && p !in g1.list && p < |m1.frames|
    requires forall s :: Live(g0.dirs, s) ==> Target(m1, s) == Target(m0, s) != p
    requires |m1.frames| == |m0.frames| && forall f :: 0 <= f < |m0.frames| && f != p ==> m1.frames[f] == m0.frames[f]
    requires ContentsKept(m1, m2, g1)
    ensures ContentsKept(m0, m2, g0) && |m2.frames| == |m1.frames| && m2.frames[p] == m1.frames[p]
  {
    assert Untouchable(m1, g1, p);
    forall f | Untouchable(m0, g0, f) ensures m2.frames[f] == m0.frames[f] {
      assert f !in g1.list && Untouchable(m1, g1, f);
    }
  }

  class PhysicalMemory {
    const pages: array<PageInfo>
    const frames: array<seq<nat>>   // physical memory: 1024 words of 32 bits a frame
    const kernPgdir: nat            // the frame of kern_pgdir
    var freeList: int               // page_free_list
    ghost var g: Ghost

    ghost function State(): Mem
      reads this, pages, frames
    {
      Mem(pages[..], freeList, frames[..])
    }

    // Exact counts, except that page x (if not -1) is counted once more than it is referenced.
    ghost predicate ValidPlus(x: int)
      reads this, pages, frames
    {
      Loose(State(), g, x) && Bounded(State(), g) && KernelOk(State(), g, kernPgdir)
    }

    ghost predicate Valid()
      reads this, pages, frames
    {
      ValidPlus(-1)
    }

    // page_alloc; -1 is NULL.
    method PageAlloc(zero: bool) returns (p: int)
      requires Valid()
      modifies this, pages, frames
      ensures old(g.list) == [] ==> p == -1 && State() == old(State()) && g == old(g)
      ensures old(g.list) != [] ==>
        && p == old(g.list)[0] && g == old(g).(list := old(g.list)[1..])
        && p !in g.list && p < pages.Length && pages[p] == PageInfo(-1, 0)
        && (zero ==> forall k :: 0 <= k < NPTENTRIES ==> Word(State(), p, k) == 0)
      ensures Valid()
      ensures forall s :: Live(g.dirs, s) ==> Target(State(), s) == old(Target(State(), s)) != p || p == -1
      ensures SameEntries(old(State()), State(), g.dirs)
      ensures forall f :: 0 <= f < frames.Length && f != p ==> frames[f] == old(frames[f])
    {
      ghost var m0 := State();
      if freeList == -1 {
        return -1;
      }
      assert g.list != [] && g.list[0] == freeList;
      PopChain(m0, g.list);
      p := freeList;
      freeList := pages[p].link;
      pages[p] := pages[p].(link := -1);
      assert State() == Pop(m0);
      if zero {
        frames[p] := seq(NPTENTRIES, _ => 0);
      }
      PopStep(m0, g, State(), p);
      g := g.(list := g.list[1..]);
      hide PageTables.Inv;
    }

    // page_free. Its two panics are the preconditions.
    method PageFree(p: nat)
      requires p < pages.Length && pages[p].ref == 0 && pages[p].link == -1
      modifies this`freeList, pages
      ensures State() == Push(old(State()), p)
    {
      pages[p] := pages[p].(link := freeList);
      freeList := p;
    }

    // page_decref.
    method PageDecref(p: nat)
      requires p < pages.Length && (pages[p].ref == 1 ==> pages[p].link == -1)
      modifies this`freeList, pages
      ensures State() == Decref(old(State()), p)
    {
      pages[p] := pages[p].(ref := Dec16(pages[p].ref));
      if pages[p].ref == 0 {
        PageFree(p);
      }
    }

    // pgdir_walk: the frame of the page table that holds the entry of va, or -1 for NULL. The entry
    // itself is word PTX(va) of that frame.
    method PgdirWalk(d: nat, va: nat, create: bool, ghost x: int := -1) returns (pt: int)
      requires ValidPlus(x) && (create ==> x == -1) && d in g.dirs && PDX(va) < USER_PDES
      modifies this, pages, frames
      ensures ValidPlus(x) && g.dirs == old(g.dirs)
      ensures pt == -1 <==> old(Word(State(), d, PDX(va)) == 0 && (!create || g.list == []))
      ensures pt == -1 || old(Word(State(), d, PDX(va))) != 0 ==> State() == old(State()) && g == old(g)
      ensures pt != -1 && old(Word(State(), d, PDX(va))) == 0 ==>
        && pt == old(g.list)[0] && g.list == old(g.list)[1..]
        && Word(State(), d, PDX(va)) == pt * PGSIZE + PTE_P + PTE_W + PTE_U
      ensures pt != -1 ==> Word(State(), d, PDX(va)) != 0 && pt == FrameOf(Word(State(), d, PDX(va)))
      ensures OnlySlot(old(State()), State(), g.dirs, Pde(d, PDX(va))) && SameEntries(old(State()), State(), g.dirs)
      ensures ContentsKept(old(State()), State(), old(g))
    {
      hide Chain, Counted, FreeUnreferenced, Bounded, PDX;
      ghost var m0, g0 := State(), g;
      var i := PDX(va);
      var page := -1;
      assert Target(m0, Dir(d)) == d;
      if frames[d][i] == 0 && create {
        page := PageAlloc(true);
        if page != -1 {
          ghost var m1 := State();
          assert Target(m1, Dir(d)) == d != page;
          assert frames[d][i] == 0;
          pages[page] := pages[page].(ref := Inc16(pages[page].ref));
          ghost var m2 := State();
          assert m2 == SetRef(m1, page, 1);
          var w := page * PGSIZE + PTE_P + PTE_W + PTE_U;
          frames[d] := frames[d][i := w];
          InstallTable(m1, m2, g, d, i, page);
          assert State() == SetWord(m2, d, i, w);
        }
      }
      if frames[d][i] != 0 {
        return frames[d][i] / PGSIZE;
      }
      return -1;
    }

    // page_lookup: the page mapped at va, or -1. pt, the frame of the page table that maps it, is
    // only stored when there is one: otherwise a caller's variable keeps whatever it had.
    method PageLookup(d: nat, va: nat, ghost x: int := -1) returns (page: int, pt: int)
      requires ValidPlus(x) && d in g.dirs && PDX(va) < USER_PDES
      modifies this, pages, frames
      ensures State() == old(State()) && g == old(g)
      ensures page == Target(State(), Pte(d, PDX(va), PTX(va)))
      ensures page != -1 ==> (
        && 0 <= page < pages.Length && Word(State(), d, PDX(va)) != 0
        && pt == FrameOf(Word(State(), d, PDX(va))) && 0 <= pt < frames.Length)
      ensures page == -1 <==> Entry(State(), d, PDX(va), PTX(va)) == 0
    {
      pt := *;
      var pte := PgdirWalk(d, va, false, x);
      assert Live(g.dirs, Pte(d, PDX(va), PTX(va)));
      assert EntryOk(State(), Word(State(), d, PDX(va)));
      assert EntryOk(State(), Entry(State(), d, PDX(va), PTX(va)));
      if pte == -1 || frames[pte][PTX(va)] == 0 {
        return -1, pt;
      }
      pt := pte;
      page := frames[pt][PTX(va)] / PGSIZE;
    }

    // page_remove.
    method PageRemove(d: nat, va: nat, ghost x: int := -1)
      requires ValidPlus(x) && d in g.dirs && PDX(va) < USER_PDES
      modifies this, pages, frames
      ensures ValidPlus(x)
      ensures Removed(old(State()), old(g), State(), g, x, d, PDX(va), PTX(va))
      ensures TablesOnly(old(State()), State(), old(g.dirs))
    {
      hide PDX, PTX, Typed, Chain, Counted, FreeUnreferenced, Bounded, KernelOk, Released;
      ghost var m0, i, j := State(), PDX(va), PTX(va);
      var page, pt := PageLookup(d, va, x);
      if page == -1 {
        return;
      }
      assert Live(g.dirs, Pde(d, i)) && Target(m0, Pde(d, i)) == pt;
      NotKernel(m0, g, kernPgdir, Pde(d, i));
      assert Live(g.dirs, Pte(d, i, j));
      ghost var m2, g2 := RemoveStep(m0, g, x, d, i, j, page);
      PageDecref(page);
      frames[pt] := frames[pt][PTX(va) := 0];
      assert State() == m2;
      KernelKept(m0, g, m2, g2, x, kernPgdir, Pte(d, i, j), page);
      g := g2;
      hide Loose;
    }

    // A frame that user mappings may refer to: not free, not a table or directory, not kern_pgdir.
    ghost predicate Mappable(p: nat)
      reads this, pages, frames
    {
      && p < pages.Length && p !in g.list && p != kernPgdir
      && forall s :: Live(g.dirs, s) && !s.Pte? ==> Target(State(), s) != p
    }

    // page_insert. It keeps every count exact unless the count of p is already the largest a
    // sixteen-bit pp_ref can hold and p is not what va maps already, or perm has bits above the low
    // twelve that are not in the address of p. Then the entry names another frame, f, and the
    // reference counted is not the one stored.
    method PageInsert(d: nat, p: nat, va: nat, perm: nat) returns (r: int)
      requires Valid() && d in g.dirs && PDX(va) < USER_PDES && Mappable(p)
      modifies this, pages, frames
      ensures r == 0 || r == -E_NO_MEM
      ensures r == -E_NO_MEM <==> old(Word(State(), d, PDX(va)) == 0 && g.list == [])
      ensures r == -E_NO_MEM ==> State() == old(State()) && g == old(g)
      ensures r == 0 ==> Inserted(old(State()), old(g), State(), g, p, d, PDX(va), PTX(va), perm)
      ensures r == -E_NO_MEM || KeepsFrame(p, perm) ==> Loose(State(), g, -1) && KernelOk(State(), g, kernPgdir)
      ensures r == 0 && !KeepsFrame(p, perm) ==> Miscounted(State(), g, p, FrameOf(MakeEntry(p, perm)))
      ensures Valid() <==> (
        || r == -E_NO_MEM
        || (KeepsFrame(p, perm)
            && (old(pages[p].ref) != REF_LIMIT - 1 || old(Target(State(), Pte(d, PDX(va), PTX(va)))) == p)))
      ensures ContentsKept(old(State()), State(), old(g))
    {
      ghost var m0, g0, i, j := State(), g, PDX(va), PTX(va);
      hide Typed, Chain, Counted, FreeUnreferenced, Bounded, Entry, OnlyEntry, KernelOk, ContentsKept, TablesOnly, PDX,
        PTX, Removed, Inserted, MakeEntry, KeepsFrame, Miscounted;
      var pt := PgdirWalk(d, va, true);
      if pt == -1 {
        return -E_NO_MEM;
      }
      ghost var m1, g1 := State(), g;
      IncrefStep(m1, g, p);
      pages[p] := pages[p].(ref := Inc16(pages[p].ref));
      ghost var m2 := State();
      assert m2 == SetRef(m1, p, Inc16(m1.pages[p].ref));
      FramesDecideSlots(m1, m2, g.dirs);
      KernelFrames(m1, m2, g, kernPgdir);
      PageRemove(d, va, p);
      ghost var m3 := State();
      ghost var m4 := InsertFinish(m0, g0, m1, g1, m2, m3, g, d, i, j, p, perm, kernPgdir);
      frames[pt] := frames[pt][PTX(va) := MakeEntry(p, perm)];
      assert State() == m4;
      if !KeepsFrame(p, perm) { MiscountedBreaks(m4, g, p, FrameOf(MakeEntry(p, perm))); }
      return 0;
    }

    // The address-space part of env_setup_vm: the frame of the new page directory, or -1.
    method EnvSetupVm() returns (d: int)
      requires Valid()
      modifies this, pages, frames
      ensures Valid()
      ensures d == -1 <==> old(g.list) == []
      ensures d == -1 ==> State() == old(State()) && g == old(g)
      ensures d != -1 ==> (
        && d == old(g.list)[0] && d !in old(g.dirs)
        && g == Ghost(old(g.list)[1..], old(g.dirs) + {d}))
      ensures SameSlots(old(State()), State(), old(g.dirs)) && SameEntries(old(State()), State(), old(g.dirs))
      ensures d != -1 ==> forall i: nat, j: nat :: i < USER_PDES && j < NPTENTRIES ==> Entry(State(), d, i, j) == 0
      ensures d != -1 ==> (
        && 0 <= d < frames.Length && |frames[kernPgdir]| == NPTENTRIES
        && frames[d] == frames[kernPgdir][UVPT_PDX := d * PGSIZE + PTE_P + PTE_U])
      ensures forall f :: 0 <= f < frames.Length && f != d ==> frames[f] == old(frames[f])
    {
      hide Chain, Counted, FreeUnreferenced, Bounded, Typed;
      d := PageAlloc(true);
      if d == -1 {
        return;
      }
      ghost var m1, g1 := State(), g;
      frames[d] := frames[kernPgdir];
      pages[d] := pages[d].(ref := Inc16(pages[d].ref));
      frames[d] := frames[d][UVPT_PDX := d * PGSIZE + PTE_P + PTE_U];
      ghost var m2 := State();
      g := g.(dirs := g.dirs + {d});
      assert m2.frames == m1.frames[d := m2.frames[d]];
      assert Target(m1, Dir(d)) == d;
      AddDirStep(m1, g1, d, m2, g);
      assert KernelOk(m2, g, kernPgdir);
    }

    // The inner loop of env_free: unmap every entry of one page table.
    method UnmapTable(d: nat, i: nat, pt: nat, ghost m0: Mem, ghost g0: Ghost)
      requires Valid() && d in g.dirs && i < USER_PDES && g.dirs == g0.dirs
      requires Target(State(), Pde(d, i)) == pt
      requires Torn(m0, State(), g.dirs, d, i, 0) && Freed(m0, g0, State(), g)
      modifies this, pages, frames
      ensures Valid() && g.dirs == g0.dirs && Target(State(), Pde(d, i)) == pt
      ensures Torn(m0, State(), g.dirs, d, i, NPTENTRIES) && Freed(m0, g0, State(), g)
    {
      hide Chain, Counted, FreeUnreferenced, Bounded, Exclusive, Freed, Released, TablesOnly, KernelOk;
      var pteno := 0;
      while pteno < NPTENTRIES
        invariant 0 <= pteno <= NPTENTRIES
        invariant Valid() && g.dirs == g0.dirs
        invariant Target(State(), Pde(d, i)) == pt
        invariant Torn(m0, State(), g.dirs, d, i, pteno) && Freed(m0, g0, State(), g)
      {
        ghost var m, gm := State(), g;
        assert EntryOk(m, Word(m, d, i)) && EntryOk(m, Entry(m, d, i, pteno));
        if Present(frames[pt][pteno]) {
          AddressParts(i, pteno, 0);
          ghost var q := FrameOf(frames[pt][pteno]);
          PageRemove(d, PGADDR(i, pteno, 0));
          TornRefs(m0, g0, m, gm, State(), g, d, i, pteno, Pte(d, i, pteno), q);
        }
        TornSteps(m0, m, State(), g.dirs, d, i, pteno);
        pteno := pteno + 1;
      }
    }

    // One round of the outer loop: unmap the table, clear its directory entry, drop the table.
    method FreeTable(d: nat, i: nat, ghost m0: Mem, ghost g0: Ghost)
      requires Valid() && d in g.dirs && i < USER_PDES && g.dirs == g0.dirs
      requires Torn(m0, State(), g.dirs, d, i, 0) && Freed(m0, g0, State(), g)
      modifies this, pages, frames
      ensures Valid() && g.dirs == g0.dirs
      ensures Torn(m0, State(), g.dirs, d, i + 1, 0) && Freed(m0, g0, State(), g)
    {
      hide Chain, Counted, FreeUnreferenced, Bounded, Exclusive, Freed, Released, TablesOnly, KernelOk;
      NotKernel(State(), g, kernPgdir, Dir(d));
      assert EntryOk(State(), Word(State(), d, i));
      if !Present(frames[d][i]) {
        TornSteps(m0, State(), State(), g.dirs, d, i, 0);
        return;
      }
      var pt := frames[d][i] / PGSIZE;
      UnmapTable(d, i, pt, m0, g0);
      ghost var m, gm := State(), g;
      forall j: nat | j < NPTENTRIES ensures Entry(m, d, i, j) == 0 {
        assert Target(m, Pte(d, i, j)) == -1;
      }
      ghost var m2, g2 := ClearPdeStep(m, g, d, i, pt);
      frames[d] := frames[d][i := 0];
      assert State() == SetWord(m, d, i, 0);
      PageDecref(pt);
      assert State() == m2;
      KernelKept(m, g, m2, g2, -1, kernPgdir, Pde(d, i), pt);
      g := g2;
      TornSteps(m0, m, m2, g.dirs, d, i, NPTENTRIES);
      TornRefs(m0, g0, m, gm, m2, g, d, i, NPTENTRIES, Pde(d, i), pt);
    }

    // env_free(d): the whole user part of an address space and its directory are given back. A page
    // becomes free exactly when it was referenced and all its references were d's; every other
    // directory translates as before.
    method EnvFree(d: nat)
      requires Valid() && d in g.dirs
      modifies this, pages, frames
      ensures Valid() && g.dirs == old(g.dirs) - {d}
      ensures forall p: nat :: p in g.list <==>
        p in old(g.list) || (old(Refs(State(), g, p)) != {} && forall s :: s in old(Refs(State(), g, p)) ==> s.d == d)
      ensures SameEntries(old(State()), State(), g.dirs)
    {
      hide Chain, Counted, FreeUnreferenced, Bounded, Exclusive, KernelOk;
      ghost var m0, g0 := State(), g;
      var pdeno := 0;
      while pdeno < USER_PDES
        invariant 0 <= pdeno <= USER_PDES
        invariant Valid() && g.dirs == g0.dirs
        invariant Torn(m0, State(), g.dirs, d, pdeno, 0) && Freed(m0, g0, State(), g)
      {
        FreeTable(d, pdeno, m0, g0);
        pdeno := pdeno + 1;
      }
      ghost var m, gm := State(), g;
      assert Target(m0, Dir(d)) == d && Target(m, Dir(d)) == d;
      ghost var m1, g1 := DropDirStep(m, g, d);
      PageDecref(d);
      assert State() == m1;
      KernelKept(m, gm, m1, g1, -1, kernPgdir, Dir(d), d);
      g := g1;
      FreedStep(m0, g0, m, gm, m1, g1, Dir(d), d);
      TornAll(m0, g0, m, gm, m1, g1, d);
    }

    // page_init: kernEnd is the page number of boot_alloc(0). Every page that is not reserved is put
    // on the free list, and the invariant starts to hold.
    constructor PageInit(memory: array<seq<nat>>, kernEnd: nat, kernPgdir: nat)
      requires memory.Length <= 0x10_0000
      requires forall f :: 0 <= f < memory.Length ==> |memory[f]| == NPTENTRIES
      requires kernPgdir < memory.Length && Reserved(kernPgdir, kernEnd)
      requires forall i :: 0 <= i < USER_PDES ==> memory[kernPgdir][i] == 0
      ensures Valid() && g.dirs == {} && frames == memory && this.kernPgdir == kernPgdir && fresh(pages)
      ensures forall p: nat :: p in g.list <==>
        0 < p < pages.Length && p != 0x7000 / PGSIZE && (p < 0xA0 || p >= 0x100) && (p < 0x100 || p >= kernEnd)
    {
      hide Chain, Loose, Bounded, KernelOk;
      frames := memory;
      this.kernPgdir := kernPgdir;
      freeList := -1;
      pages := new PageInfo[memory.Length](_ => PageInfo(-1, 0));
      g := Ghost([], {});
      new;
      EmptyChain(State());
      var i := 0;
      while i < pages.Length
        invariant 0 <= i <= pages.Length == frames.Length && fresh(pages)
        invariant frames[..] == old(memory[..])
        invariant Chain(State(), g.list) && g.dirs == {}
        invariant forall p: nat :: p < pages.Length ==> pages[p].ref == 0
        invariant forall p: nat :: p in g.list <==> p < i && !Reserved(p, kernEnd)
      {
        ghost var m := State();
        pages[i] := pages[i].(link := -1);
        ClearLink(m, State(), g.list, i);
        if !Reserved(i, kernEnd) {
          PushChain(State(), g.list, i);
          m := State();
          pages[i] := PageInfo(freeList, 0);
          freeList := i;
          assert State() == Push(m, i);
          g := g.(list := [i] + g.list);
        }
        i := i + 1;
      }
      NobodyRefers(State(), g, kernPgdir);
    }

    // env_page_alloc (sched/kern/syscall.c). Its failure after page_alloc is the one leak: the page
    // taken was the last free one and is referenced by nobody.
    method EnvPageAlloc(d: nat, va: nat, perm: nat) returns (r: int)
      requires Valid() && d in g.dirs && PDX(va) < USER_PDES
      modifies this, pages, frames
      ensures Valid() && g.dirs == old(g.dirs)
      ensures r == 0 || r == -E_NO_MEM || r == -E_INVAL
      ensures r == -E_INVAL <==> !PermOk(perm)
      ensures r == -E_INVAL || old(g.list) == [] ==> State() == old(State()) && g == old(g)
      ensures PermOk(perm) ==>
        (r == -E_NO_MEM <==> |old(g.list)| < if old(Word(State(), d, PDX(va))) == 0 then 2 else 1)
      ensures r == -E_NO_MEM && old(g.list) != [] ==> g.list == [] && Refs(State(), g, old(g.list)[0]) == {}
      ensures r != 0 ==> SameEntries(old(State()), State(), g.dirs)
      ensures ContentsKept(old(State()), State(), old(g))
      ensures r == 0 ==> (
        && old(g.list) != [] && perm < PGSIZE
        && OnlyEntry(old(State()), State(), g.dirs, d, PDX(va), PTX(va))
        && Entry(State(), d, PDX(va), PTX(va)) == MakeEntry(old(g.list)[0], perm)
        && forall k :: 0 <= k < NPTENTRIES ==> Word(State(), old(g.list)[0], k) == 0)
    {
      hide Chain, Counted, FreeUnreferenced, Typed, Bounded, ContentsKept, KeepsFrame, PDX, PTX, PermOk;
      NothingKept(State(), g);
      PermOkMeans(perm);
      if !PermOk(perm) {
        return -E_INVAL;
      }
      ghost var m0, g0 := State(), g;
      var p := PageAlloc(true);
      if p == -1 {
        return -E_NO_MEM;
      }
      ghost var m1, g1 := State(), g;
      assert Word(m1, d, PDX(va)) == Word(m0, d, PDX(va)) by { assert Target(m1, Dir(d)) == d; }
      EntryNames(p, perm);
      r := PageInsert(d, p, va, perm);
      KeptAfterAlloc(m0, g0, m1, g1, State(), p);
      assert forall k :: Word(State(), p, k) == Word(m1, p, k);
    }

    // env_page_map: give dst the frame that src maps at srcva.
    method EnvPageMap(src: nat, srcva: nat, dst: nat, dstva: nat, perm: nat) returns (r: int)
      requires Valid() && src in g.dirs && dst in g.dirs && PDX(srcva) < USER_PDES && PDX(dstva) < USER_PDES
      modifies this, pages, frames
      ensures r == 0 || r == -E_NO_MEM || r == -E_INVAL
      ensures r == -E_INVAL <==> old(
        var w := Entry(State(), src, PDX(srcva), PTX(srcva));
        w == 0 || (Writable(perm) && !Writable(w)))
      ensures r == -E_NO_MEM <==> r != -E_INVAL && old(Word(State(), dst, PDX(dstva)) == 0 && g.list == [])
      ensures r != 0 ==> State() == old(State()) && g == old(g) && Valid()
      ensures ContentsKept(old(State()), State(), old(g))
      ensures r == 0 ==> (
        && PageMapped(old(State()), old(g), State(), g, src, srcva, dst, dstva, perm)
        && var p := FrameOf(old(Entry(State(), src, PDX(srcva), PTX(srcva))));
          && (KeepsFrame(p, perm) ==> Loose(State(), g, -1) && KernelOk(State(), g, kernPgdir))
          && (Valid() <==> KeepsFrame(p, perm) && !Overflows(old(State()), p, Pte(dst, PDX(dstva), PTX(dstva)))))
    {
      hide KeepsFrame, MakeEntry, Miscounted;
      var page, pt := PageLookup(src, srcva);
      if page == -1 {
        return -E_INVAL;
      }
      assert Live(g.dirs, Pte(src, PDX(srcva), PTX(srcva)));
      if Writable(perm) && !Writable(frames[pt][PTX(srcva)]) {
        return -E_INVAL;
      }
      EntryNames(page, perm);
      r := PageInsert(dst, page, dstva, perm);
    }

    // The test of one page in user_mem_check.
    method CheckPage(d: nat, va: nat, perm: nat) returns (ok: bool)
      requires Valid() && d in g.dirs && PDX(va) < USER_PDES
      modifies this, pages, frames
      ensures State() == old(State()) && g == old(g)
      ensures ok <==> HasBits(Entry(State(), d, PDX(va), PTX(va)), perm)
    {
      hide Chain, Counted, FreeUnreferenced, Bounded, Exclusive, KernelOk, ContentsKept, HasBits, PDX, PTX;
      NoBitsInZero(perm);
      var pt := PgdirWalk(d, va, false);
      assert EntryOk(State(), Word(State(), d, PDX(va)));
      ok := pt != -1 && HasBits(frames[pt][PTX(va)], perm);
    }

    // user_mem_check: 0 and -E_FAULT, with the faulting address it records. Without 32-bit wrap it
    // answers for every byte of the range; in the loop it records the least address that fails.
    method UserMemCheck(d: nat, va: nat, len: nat, perm: nat) returns (r: int, faultAddr: int)
      requires Valid() && d in g.dirs && va < WORD_LIMIT && len < WORD_LIMIT
      modifies this, pages, frames
      ensures State() == old(State()) && g == old(g)
      ensures r == 0 || r == -E_FAULT
      ensures r == 0 <==> Accepts(State(), d, va, len, perm)
      ensures 0 < len && va + len <= WORD_LIMIT - PGSIZE ==>
        (r == 0 <==> forall b :: va <= b < va + len ==> Allowed(State(), d, b, perm))
      ensures r != 0 && CheckEnd(va, len) <= UTOP ==> (
        && va <= faultAddr < CheckEnd(va, len) && !Accessible(State(), d, faultAddr, perm)
        && forall b :: va <= b < faultAddr ==> Accessible(State(), d, b, perm))
      ensures r != 0 && CheckEnd(va, len) > UTOP ==> faultAddr == va
    {
      hide HasBits, PDX, PTX, Loose, Bounded, KernelOk, RoundDown, CheckEnd, Aligned, Entry, PhysicalMemory.State,
        Allowed;
      assert Aligned(CheckEnd(va, len)) by { EndAligned(va, len); }
      ghost var m0 := State();
      CheckedRange(m0, d, va, len, perm);
      var hi := CheckEnd(va, len);
      if hi > UTOP {
        return -E_FAULT, va;
      }
      var act := RoundDown(va);
      while act < hi
        invariant Aligned(act) && RoundDown(va) <= act <= (if RoundDown(va) < hi then hi else RoundDown(va))
        invariant State() == m0 && Valid() && g == old(g)
        invariant forall b :: RoundDown(va) <= b < act ==> Accessible(m0, d, b, perm)
        decreases hi - act
      {
        UserPdx(act);
        NextPage(act, hi);
        var ok := CheckPage(d, act, perm);
        PageDecides(m0, d, act, perm);
        if !ok {
          assert !Accessible(m0, d, act, perm);
          return -E_FAULT, if act > va then act else va;
        }
        act := act + PGSIZE;
      }
      return 0, -1;
    }
  }
}
