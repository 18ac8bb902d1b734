// Copy-on-write fork (sched/lib/fork.c) over the page system calls, and the eager copy of
// sched/user/dumbfork.c that it must be indistinguishable from.
module CowFork {

  const USER_PAGES := 955 * 1024              // UTOP >> PGSHIFT
  const UXSTACK_PAGE := USER_PAGES - 1        // (UXSTACKTOP >> PGSHIFT) - 1
  const PFTEMP_PAGE := 0x7FF                  // PFTEMP >> PGSHIFT
  const PAGE_WORDS := 1024
  const FEC_WR: bv32 := 2

  // An environment and a virtual page number.
  type Va = (nat, nat)

  type Content = c: seq<nat> | |c| == PAGE_WORDS witness seq(PAGE_WORDS, _ => 0)

  function ZeroPage(): Content { seq(PAGE_WORDS, _ => 0) }

  function WriteWord(page: Content, k: nat, w: nat): Content
    requires k < PAGE_WORDS
  {
    var words: seq<nat> := page;
    words[k := w]
  }

  // A present user entry: the frame, PTE_W, PTE_COW, and whether it has cache-control bits.
  datatype Pte = Pte(frame: nat, w: bool, cow: bool, io: bool)

  // All user mappings, and the contents of the physical pages.
  datatype Memory = Memory(pt: map<Va, Pte>, frames: map<nat, Content>)

  // The reference: every environment has its own copy of every page it maps.
  type Copies = map<Va, Content>

  // ---------------------------------------------------------------- the page system calls

  ghost predicate Unmapped(m: Memory, f: nat) {
    forall a :: a in m.pt ==> m.pt[a].frame != f
  }

  // sys_page_alloc, given the frame that page_alloc returned.
  function PageAlloc(m: Memory, a: Va, w: bool, f: nat): Memory {
    Memory(m.pt[a := Pte(f, w, false, false)], m.frames[f := ZeroPage()])
  }

  // sys_page_map succeeds unless the source is unmapped or would gain write permission.
  predicate CanMap(m: Memory, src: Va, w: bool) { src in m.pt && (w ==> m.pt[src].w) }

  function PageMap(m: Memory, src: Va, dst: Va, w: bool, cow: bool, io: bool): Memory
    requires CanMap(m, src, w)
  {
    Memory(m.pt[dst := Pte(m.pt[src].frame, w, cow, io)], m.frames)
  }

  function PageUnmap(m: Memory, a: Va): Memory { Memory(m.pt - {a}, m.frames) }

  function Contents(m: Memory, a: Va): Content
    requires a in m.pt && m.pt[a].frame in m.frames
  {
    m.frames[m.pt[a].frame]
  }

  // memmove of a whole page into frame f.
  function CopyPage(m: Memory, f: nat, page: Content): Memory { Memory(m.pt, m.frames[f := page]) }

  // ---------------------------------------------------------------- the library

  // sys_page_map of page v of src at the same address of dst, copy-on-write, with the cache-control
  // bits of the source if it has any.
  function ShareCow(m: Memory, src: nat, v: nat, dst: nat): Memory
    requires (src, v) in m.pt
  {
    PageMap(m, (src, v), (dst, v), false, true, m.pt[(src, v)].io)
  }

  // duppage of page v from parent to child.
  function Duppage(m: Memory, parent: nat, child: nat, v: nat): Memory
    requires (parent, v) in m.pt
  {
    if m.pt[(parent, v)].w || m.pt[(parent, v)].cow then
      ShareCow(ShareCow(m, parent, v, child), parent, v, parent)
    else
      PageMap(m, (parent, v), (child, v), false, false, m.pt[(parent, v)].io)
  }

  // What duppage is for: a page that is writable or copy-on-write ends up copy-on-write and not
  // writable on both sides, any other is shared as it is; the frame and the cache-control bits stay.
  lemma DuppageMarks(m: Memory, parent: nat, child: nat, v: nat)
    requires (parent, v) in m.pt && parent != child
    ensures var e, m1 := m.pt[(parent, v)], Duppage(m, parent, child, v);
      && m1.frames == m.frames
      && (e.w || e.cow ==>
          m1.pt == m.pt[(child, v) := Pte(e.frame, false, true, e.io)][(parent, v) := Pte(e.frame, false, true, e.io)])
      && (!e.w && !e.cow ==> m1.pt == m.pt[(child, v) := Pte(e.frame, false, false, e.io)])
  {
  }

  // The panic guard of pgfault, a bitwise test where a logical one was meant.
  predicate GuardPanics(err: bv32, cow: bool) {
    (err & FEC_WR) & (if cow then 0 else 1) != 0
  }

  // What its comment asks for: the fault was a write, to a copy-on-write page; otherwise panic.
  predicate ShouldPanic(err: bv32, cow: bool) { !(err & FEC_WR != 0 && cow) }

  // The guard never fires, so it does what it should exactly for write faults on copy-on-write
  // pages.
  lemma GuardMeetsIntent(err: bv32, cow: bool)
    ensures !GuardPanics(err, cow)
    ensures GuardPanics(err, cow) == ShouldPanic(err, cow) <==> err & FEC_WR != 0 && cow
  {
    assert (err & 2) & 1 == 0;
  }

  // pgfault at page v of environment e, given the frame page_alloc returned: a new page at PFTEMP
  // gets the contents, is mapped over the faulting page, and PFTEMP is unmapped.
  function Pgfault(m: Memory, e: nat, v: nat, f: nat): Memory
    requires (e, v) in m.pt && m.pt[(e, v)].frame in m.frames
  {
    PageUnmap(PageMap(CopyPage(PageAlloc(m, (e, PFTEMP_PAGE), true, f), f, Contents(m, (e, v))),
                      (e, PFTEMP_PAGE), (e, v), true, false, false),
              (e, PFTEMP_PAGE))
  }

  // ---------------------------------------------------------------- invariant and refinement

  // No page that is mapped twice is writable anywhere, and PFTEMP is only used inside pgfault.
  ghost predicate Private(m: Memory) {
    && (forall a :: a in m.pt ==> m.pt[a].frame in m.frames)
    && (forall a, b :: a in m.pt && b in m.pt && a != b && m.pt[a].frame == m.pt[b].frame ==> !m.pt[a].w)
    && (forall a :: a in m.pt ==> a.1 != PFTEMP_PAGE && a.1 < USER_PAGES)
  }

  // Every environment reads in m what it reads in the reference.
  ghost predicate Refines(m: Memory, r: Copies) {
    && m.pt.Keys == r.Keys
    && forall a :: a in m.pt ==> m.pt[a].frame in m.frames && Contents(m, a) == r[a]
  }

  // ---------------------------------------------------------------- steps

  // One step of a run: duppage of one page, the allocation of a child's exception stack, a user
  // write to a writable page, or a write fault on a page that is not writable. New frames come from
  // page_alloc.
  datatype Step =
    | Dup(parent: nat, child: nat, v: nat)
    | StackPage(child: nat, f: nat)
    | Write(e: nat, v: nat, k: nat, w: nat)
    | Fault(e: nat, v: nat, f: nat)

  ghost predicate Enabled(m: Memory, s: Step) {
    match s
    case Dup(p, c, v) => p != c && (p, v) in m.pt
    case StackPage(c, f) => Unmapped(m, f)
    case Write(e, v, k, w) => (e, v) in m.pt && m.pt[(e, v)].w && m.pt[(e, v)].frame in m.frames && k < PAGE_WORDS
    case Fault(e, v, f) => (e, v) in m.pt && !m.pt[(e, v)].w && m.pt[(e, v)].frame in m.frames && Unmapped(m, f)
  }

  ghost function Exec(m: Memory, s: Step): Memory
    requires Enabled(m, s)
  {
    match s
    case Dup(p, c, v) => Duppage(m, p, c, v)
    case StackPage(c, f) => PageAlloc(m, (c, UXSTACK_PAGE), true, f)
    case Write(e, v, k, w) =>
      Memory(m.pt, m.frames[m.pt[(e, v)].frame := WriteWord(Contents(m, (e, v)), k, w)])
    case Fault(e, v, f) => Pgfault(m, e, v, f)
  }

  // The same step when fork copies eagerly: faults do not exist.
  ghost function Eager(r: Copies, s: Step): Copies {
    match s
    case Dup(p, c, v) => if (p, v) in r then r[(c, v) := r[(p, v)]] else r
    case StackPage(c, f) => r[(c, UXSTACK_PAGE) := ZeroPage()]
    case Write(e, v, k, w) => if (e, v) in r && k < PAGE_WORDS then r[(e, v) := WriteWord(r[(e, v)], k, w)] else r
    case Fault(e, v, f) => r
  }

  // The three system calls of pgfault leave one change: the faulting page has its own new frame
  // with the old contents, writable; the temporary mapping is gone.
  lemma PgfaultEffect(m: Memory, e: nat, v: nat, f: nat)
    requires (e, v) in m.pt && m.pt[(e, v)].frame in m.frames && v != PFTEMP_PAGE && (e, PFTEMP_PAGE) !in m.pt
    ensures Pgfault(m, e, v, f) ==
      Memory(m.pt[(e, v) := Pte(f, true, false, false)], m.frames[f := Contents(m, (e, v))])
  {
    assert Pgfault(m, e, v, f).pt == m.pt[(e, v) := Pte(f, true, false, false)];
    assert Pgfault(m, e, v, f).frames == m.frames[f := Contents(m, (e, v))];
  }

  // Giving a page a frame of its own.
  lemma OwnFrame(m: Memory, r: Copies, a: Va, f: nat, page: Content, m1: Memory)
    requires Private(m) && Refines(m, r) && Unmapped(m, f) && a.1 != PFTEMP_PAGE && a.1 < USER_PAGES
    requires m1 == Memory(m.pt[a := Pte(f, true, false, false)], m.frames[f := page])
    ensures Private(m1) && Refines(m1, r[a := page])
  {
    forall b | b in m1.pt && b != a ensures m1.pt[b] == m.pt[b] && m1.pt[b].frame != f {}
  }

  // Sharing a page without write permission on either side.
  lemma ShareFrame(m: Memory, r: Copies, src: Va, dst: Va, cow: bool, io: bool)
    requires Private(m) && Refines(m, r) && src in m.pt && dst.1 == src.1
    requires src == dst || !m.pt[src].w
    ensures var m1 := PageMap(m, src, dst, false, cow, io);
      Private(m1) && Refines(m1, r[dst := r[src]])
  {
    var m1 := PageMap(m, src, dst, false, cow, io);
    forall a, b | a in m1.pt && b in m1.pt && a != b && m1.pt[a].frame == m1.pt[b].frame ensures !m1.pt[a].w {
      assert a != dst ==> m1.pt[a] == m.pt[a];
      assert b != dst ==> m1.pt[b] == m.pt[b];
      assert a != dst && a != src && b == dst ==> m.pt[a].frame == m.pt[src].frame;
    }
  }

  // duppage may be read as marking the parent's page first: no other order is observable in one
  // step.
  lemma DuppageEffect(m: Memory, p: nat, c: nat, v: nat)
    requires (p, v) in m.pt && p != c
    ensures m.pt[(p, v)].w || m.pt[(p, v)].cow ==> Duppage(m, p, c, v) == ShareCow(ShareCow(m, p, v, p), p, v, c)
  {
    if m.pt[(p, v)].w || m.pt[(p, v)].cow {
      assert Duppage(m, p, c, v).pt == ShareCow(ShareCow(m, p, v, p), p, v, c).pt;
    }
  }

  lemma DupRefines(m: Memory, r: Copies, p: nat, c: nat, v: nat)
    requires Private(m) && Refines(m, r) && p != c && (p, v) in m.pt
    ensures Private(Duppage(m, p, c, v)) && Refines(Duppage(m, p, c, v), r[(c, v) := r[(p, v)]])
  {
    var io := m.pt[(p, v)].io;
    if m.pt[(p, v)].w || m.pt[(p, v)].cow {
      DuppageEffect(m, p, c, v);
      var m1 := ShareCow(m, p, v, p);
      ShareFrame(m, r, (p, v), (p, v), true, io);
      assert r[(p, v) := r[(p, v)]] == r;
      ShareFrame(m1, r, (p, v), (c, v), true, io);
    } else {
      ShareFrame(m, r, (p, v), (c, v), false, io);
    }
  }

  // A write lands in a frame that nobody else maps.
  lemma WriteRefines(m: Memory, r: Copies, a: Va, page: Content)
    requires Private(m) && Refines(m, r) && a in m.pt && m.pt[a].w
    ensures var m1 := CopyPage(m, m.pt[a].frame, page);
      Private(m1) && Refines(m1, r[a := page])
  {
    var m1 := CopyPage(m, m.pt[a].frame, page);
    forall b | b in m1.pt && b != a ensures m1.pt[b].frame in m1.frames && Contents(m1, b) == r[b] {
      assert m.pt[b].frame != m.pt[a].frame;
    }
  }

  lemma StepRefines(m: Memory, r: Copies, s: Step)
    requires Private(m) && Refines(m, r) && Enabled(m, s)
    ensures Private(Exec(m, s)) && Refines(Exec(m, s), Eager(r, s))
  {
    match s
    case Dup(p, c, v) => DupRefines(m, r, p, c, v);
    case StackPage(c, f) => OwnFrame(m, r, (c, UXSTACK_PAGE), f, ZeroPage(), Exec(m, s));
    case Write(e, v, k, w) => WriteRefines(m, r, (e, v), WriteWord(Contents(m, (e, v)), k, w));
    case Fault(e, v, f) =>
      PgfaultEffect(m, e, v, f);
      OwnFrame(m, r, (e, v), f, Contents(m, (e, v)), Exec(m, s));
      assert r[(e, v) := r[(e, v)]] == r;
  }

  // ---------------------------------------------------------------- whole runs

  ghost predicate IsRun(states: seq<Memory>, steps: seq<Step>) {
    && |states| == |steps| + 1
    && forall i :: 0 <= i < |steps| ==> Enabled(states[i], steps[i]) && states[i + 1] == Exec(states[i], steps[i])
  }

  ghost function EagerRun(r: Copies, steps: seq<Step>): Copies {
    if steps == [] then r else Eager(EagerRun(r, steps[..|steps| - 1]), steps[|steps| - 1])
  }

  // Copy-on-write is invisible: whatever the interleaving of forks, writes and faults of any
  // environments, after every prefix of the run every environment reads what it would read if each
  // duppage had copied the page; and no page with two mappings is writable anywhere.
  lemma {:induction false} CowRefinesEagerCopy(states: seq<Memory>, steps: seq<Step>, r: Copies, n: nat)
    requires IsRun(states, steps) && Private(states[0]) && Refines(states[0], r) && n <= |steps|
    ensures Private(states[n]) && Refines(states[n], EagerRun(r, steps[..n]))
  {
    hide Exec, Enabled, Private, Refines, Eager;
    if n == 0 {
      assert steps[..0] == [];
    } else {
      CowRefinesEagerCopy(states, steps, r, n - 1);
      assert Enabled(states[n - 1], steps[n - 1]) && states[n - 1 + 1] == Exec(states[n - 1], steps[n - 1]);
      StepRefines(states[n - 1], EagerRun(r, steps[..n - 1]), steps[n - 1]);
      assert steps[..n][..n - 1] == steps[..n - 1];
    }
  }

  // Once the eager reference has two copies they part ways: a write by one environment is never
  // read by another.
  lemma WritesStayPrivate(m: Memory, r: Copies, s: Step, a: Va)
    requires Private(m) && Refines(m, r) && s.Write? && Enabled(m, s) && a in m.pt && a != (s.e, s.v)
    ensures a in Exec(m, s).pt && Exec(m, s).pt[a].frame in Exec(m, s).frames
    ensures Contents(Exec(m, s), a) == Contents(m, a)
  {
    StepRefines(m, r, s);
  }

  // Why one duppage must count as one step: after its first sys_page_map the parent can still write
  // the page, the child maps the same frame, and such a write shows in the child.
  lemma HalfwayWriteLeaks(m: Memory, p: nat, c: nat, v: nat, k: nat, w: nat)
    requires Private(m) && p != c && (p, v) in m.pt && m.pt[(p, v)].w && k < PAGE_WORDS
    requires w != Contents(m, (p, v))[k]
    ensures var half := ShareCow(m, p, v, c);
      && !Private(half) && Enabled(half, Write(p, v, k, w))
      && var after := Exec(half, Write(p, v, k, w));
        (c, v) in after.pt && after.pt[(c, v)].frame in after.frames && Contents(after, (c, v)) != Contents(m, (p, v))
  {
    var half := ShareCow(m, p, v, c);
    assert half.pt[(c, v)].frame == half.pt[(p, v)].frame;
    assert Contents(Exec(half, Write(p, v, k, w)), (c, v))[k] == w;
  }

  // ---------------------------------------------------------------- dumbfork's duppage

  const UTEMP_PAGE := 0x400

  // duppage of sched/user/dumbfork.c: allocate in the child, map it at UTEMP, copy, unmap.
  function DumbDuppage(m: Memory, parent: nat, child: nat, v: nat, f: nat): Memory
    requires (parent, v) in m.pt && m.pt[(parent, v)].frame in m.frames
  {
    PageUnmap(CopyPage(PageMap(PageAlloc(m, (child, v), true, f), (child, v), (parent, UTEMP_PAGE), true, false, false),
                       f, Contents(m, (parent, v))),
              (parent, UTEMP_PAGE))
  }

  // The reference step is what dumbfork's own code does.
  lemma DumbforkIsEager(m: Memory, r: Copies, p: nat, c: nat, v: nat, f: nat)
    requires Private(m) && Refines(m, r) && p != c && (p, v) in m.pt && Unmapped(m, f)
    requires (p, UTEMP_PAGE) !in m.pt
    ensures Private(DumbDuppage(m, p, c, v, f)) && Refines(DumbDuppage(m, p, c, v, f), Eager(r, Dup(p, c, v)))
  {
    var m1 := DumbDuppage(m, p, c, v, f);
    assert m1.pt == m.pt[(c, v) := Pte(f, true, false, false)];
    assert m1.frames == m.frames[f := Contents(m, (p, v))];
    OwnFrame(m, r, (c, v), f, Contents(m, (p, v)), m1);
  }

  // ---------------------------------------------------------------- fork

  // The page loop of fork, over the pages below n.
  function ForkPages(m: Memory, parent: nat, child: nat, n: nat): Memory {
    if n == 0 then m
    else
      ForkPage(ForkPages(m, parent, child, n - 1), parent, child, n - 1)
  }

  function ForkPage(m: Memory, parent: nat, child: nat, v: nat): Memory {
    if v != UXSTACK_PAGE && (parent, v) in m.pt then Duppage(m, parent, child, v) else m
  }

  class UserMemory {
    var pt: map<Va, Pte>
    var frames: map<nat, Content>

    ghost function State(): Memory reads this { Memory(pt, frames) }

    // sys_page_map with the calling environment's id already resolved; false is an error.
    method SysPageMap(src: Va, dst: Va, w: bool, cow: bool, io: bool) returns (ok: bool)
      modifies this
      ensures ok == CanMap(old(State()), src, w)
      ensures State() == if ok then PageMap(old(State()), src, dst, w, cow, io) else old(State())
    {
      if src !in pt || (w && !pt[src].w) {
        return false;
      }
      pt := pt[dst := Pte(pt[src].frame, w, cow, io)];
      return true;
    }

    // duppage; false where the C code panics.
    method DupOnePage(parent: nat, child: nat, v: nat) returns (ok: bool)
      modifies this
      ensures ok == ((parent, v) in old(pt))
      ensures State() == if ok then Duppage(old(State()), parent, child, v) else old(State())
      ensures parent != child && ok && (old(pt)[(parent, v)].w || old(pt)[(parent, v)].cow) ==> (
        var e := Pte(old(pt)[(parent, v)].frame, false, true, old(pt)[(parent, v)].io);
        pt == old(pt)[(child, v) := e][(parent, v) := e])
      ensures parent != child && ok && !old(pt)[(parent, v)].w && !old(pt)[(parent, v)].cow ==>
        pt == old(pt)[(child, v) := Pte(old(pt)[(parent, v)].frame, false, false, old(pt)[(parent, v)].io)]
    {
      if (parent, v) !in pt {
        return false;
      }
      var pte := pt[(parent, v)];
      if pte.w || pte.cow {
        ok := SysPageMap((parent, v), (child, v), false, true, pte.io);
        ok := SysPageMap((parent, v), (parent, v), false, true, pte.io);
      } else {
        ok := SysPageMap((parent, v), (child, v), false, false, pte.io);
      }
    }

    // fork, from the return of sys_exofork in the parent on: child is a new environment, and
    // stackFrame is the frame of its exception stack.
    method Fork(parent: nat, child: nat, stackFrame: nat)
      requires parent != child
      modifies this
      ensures State() ==
        PageAlloc(ForkPages(old(State()), parent, child, USER_PAGES), (child, UXSTACK_PAGE), true, stackFrame)
    {
      var pnum := 0;
      while pnum < USER_PAGES
        invariant 0 <= pnum <= USER_PAGES
        invariant State() == ForkPages(old(State()), parent, child, pnum)
      {
        if pnum != UXSTACK_PAGE && (parent, pnum) in pt {
          var ok := DupOnePage(parent, child, pnum);
        }
        pnum := pnum + 1;
      }
      pt := pt[(child, UXSTACK_PAGE) := Pte(stackFrame, true, false, false)];
      frames := frames[stackFrame := ZeroPage()];
    }
  }

  // What fork leaves in the page tables, entry by entry.
  ghost predicate ForkMarked(pt: map<Va, Pte>, pt1: map<Va, Pte>, parent: nat, child: nat, n: nat) {
    && (forall v: nat :: v < n && v != UXSTACK_PAGE && (parent, v) in pt ==> PageMarked(pt, pt1, parent, child, v))
    && (forall a: Va :: (a.0 != parent && a.0 != child) || a.1 >= n || a.1 == UXSTACK_PAGE || (parent, a.1) !in pt ==>
        SameEntry(pt, pt1, a))
  }

  ghost predicate PageMarked(pt: map<Va, Pte>, pt1: map<Va, Pte>, parent: nat, child: nat, v: nat)
    requires (parent, v) in pt
  {
    var e := pt[(parent, v)];
    && (parent, v) in pt1 && (child, v) in pt1
    && pt1[(child, v)] == Pte(e.frame, false, e.w || e.cow, e.io)
    && pt1[(parent, v)] == if e.w || e.cow then Pte(e.frame, false, true, e.io) else e
  }

  ghost predicate SameEntry(pt: map<Va, Pte>, pt1: map<Va, Pte>, a: Va) {
    (a in pt1 <==> a in pt) && (a in pt ==> pt1[a] == pt[a])
  }

  lemma ForkMarkedStep(pt: map<Va, Pte>, pt0: map<Va, Pte>, pt1: map<Va, Pte>, parent: nat, child: nat, v: nat)
    requires ForkMarked(pt, pt0, parent, child, v) && parent != child
    requires v == UXSTACK_PAGE || (parent, v) !in pt0 ==> pt1 == pt0
    requires v != UXSTACK_PAGE && (parent, v) in pt0 ==> (
      var e := pt0[(parent, v)];
      var marked := Pte(e.frame, false, e.w || e.cow, e.io);
      pt1 == pt0[(child, v) := marked][(parent, v) := if e.w || e.cow then marked else e])
    ensures ForkMarked(pt, pt1, parent, child, v + 1)
  {
    assert SameEntry(pt, pt0, (parent, v));
    forall a: Va | a.1 != v || (a.0 != parent && a.0 != child) ensures SameEntry(pt0, pt1, a) {}
    forall u: nat | u < v && u != UXSTACK_PAGE && (parent, u) in pt ensures PageMarked(pt, pt1, parent, child, u) {
      assert PageMarked(pt, pt0, parent, child, u);
      assert SameEntry(pt0, pt1, (parent, u)) && SameEntry(pt0, pt1, (child, u));
    }
  }

  // After the loop every page of the parent but its exception stack is mapped by the child; where it
  // was writable or copy-on-write, both are copy-on-write and neither is writable.
  lemma {:induction false} ForkMarks(m: Memory, parent: nat, child: nat, n: nat)
    requires parent != child
    ensures ForkMarked(m.pt, ForkPages(m, parent, child, n).pt, parent, child, n)
    ensures ForkPages(m, parent, child, n).frames == m.frames
  {
    hide Duppage, ForkMarked;
    if n == 0 {
      NothingMarked(m.pt, parent, child);
      return;
    }
    ForkMarks(m, parent, child, n - 1);
    var m0, v := ForkPages(m, parent, child, n - 1), n - 1;
    if v != UXSTACK_PAGE && (parent, v) in m0.pt {
      DuppageMarks(m0, parent, child, v);
      var e := m0.pt[(parent, v)];
      assert !e.w && !e.cow ==>
        m0.pt[(child, v) := Pte(e.frame, false, false, e.io)][(parent, v) := e]
        == m0.pt[(child, v) := Pte(e.frame, false, false, e.io)];
    }
    ForkMarkedStep(m.pt, m0.pt, ForkPages(m, parent, child, n).pt, parent, child, v);
  }

  lemma NothingMarked(pt: map<Va, Pte>, parent: nat, child: nat)
    ensures ForkMarked(pt, pt, parent, child, 0)
  {
  }

  // What the page loop has given the child so far, in the reference.
  ghost predicate CopiedBelow(r: Copies, r1: Copies, parent: nat, child: nat, n: nat) {
    && (forall v: nat :: v < n && v != UXSTACK_PAGE && (parent, v) in r ==>
      (child, v) in r1 && r1[(child, v)] == r[(parent, v)])
    && (forall v: nat :: (child, v) in r1 && (child, v) !in r ==> v < n && v != UXSTACK_PAGE && (parent, v) in r)
    && (forall a :: a in r ==> a in r1)
    && (forall a :: a in r1 && a.0 != child ==> a in r && r1[a] == r[a])
  }

  // One round of the loop in the reference.
  ghost function CopyOne(r: Copies, parent: nat, child: nat, v: nat): Copies {
    if v != UXSTACK_PAGE && (parent, v) in r then r[(child, v) := r[(parent, v)]] else r
  }

  lemma CopiedStep(r: Copies, r1: Copies, parent: nat, child: nat, n: nat)
    requires CopiedBelow(r, r1, parent, child, n) && parent != child
    ensures CopiedBelow(r, CopyOne(r1, parent, child, n), parent, child, n + 1)
  {
  }

  lemma NothingCopied(r: Copies, parent: nat, child: nat)
    ensures CopiedBelow(r, r, parent, child, 0)
  {
  }

  lemma ForkPageRefines(m: Memory, r: Copies, parent: nat, child: nat, v: nat)
    requires Private(m) && Refines(m, r) && parent != child
    ensures Private(ForkPage(m, parent, child, v))
    ensures Refines(ForkPage(m, parent, child, v), CopyOne(r, parent, child, v))
  {
    if v != UXSTACK_PAGE && (parent, v) in m.pt {
      DupRefines(m, r, parent, child, v);
    }
  }

  lemma {:induction false} ForkPagesRefine(m: Memory, r: Copies, parent: nat, child: nat, n: nat) returns (r1: Copies)
    requires Private(m) && Refines(m, r) && parent != child && n <= USER_PAGES
    ensures Private(ForkPages(m, parent, child, n)) && Refines(ForkPages(m, parent, child, n), r1)
    ensures CopiedBelow(r, r1, parent, child, n)
  {
    hide Private, Refines, CopiedBelow, ForkPage, CopyOne;
    if n == 0 {
      NothingCopied(r, parent, child);
      return r;
    }
    var r2 := ForkPagesRefine(m, r, parent, child, n - 1);
    CopiedStep(r, r2, parent, child, n - 1);
    ForkPageRefines(ForkPages(m, parent, child, n - 1), r2, parent, child, n - 1);
    r1 := CopyOne(r2, parent, child, n - 1);
  }

  // fork maps no page that was not mapped before.
  lemma {:induction false} ForkUnmapped(m: Memory, parent: nat, child: nat, n: nat, f: nat)
    requires Unmapped(m, f)
    ensures Unmapped(ForkPages(m, parent, child, n), f)
  {
    if n > 0 {
      ForkUnmapped(m, parent, child, n - 1, f);
    }
  }

  lemma PagesAreUser(m: Memory, r: Copies)
    requires Private(m) && Refines(m, r)
    ensures forall a :: a in r ==> a.1 < USER_PAGES
  {
  }

  // fork gives a new child every page of the parent but the exception stack, with the parent's
  // contents, and a zeroed exception stack; nobody else's memory changes, the parent's included.
  lemma ForkCopies(m: Memory, r: Copies, parent: nat, child: nat, f: nat) returns (r1: Copies)
    requires Private(m) && Refines(m, r) && parent != child && Unmapped(m, f)
    requires forall v: nat :: (child, v) !in r
    ensures var m1 := PageAlloc(ForkPages(m, parent, child, USER_PAGES), (child, UXSTACK_PAGE), true, f);
      Private(m1) && Refines(m1, r1)
    ensures forall v: nat :: (child, v) in r1 <==> v == UXSTACK_PAGE || (parent, v) in r
    ensures forall v: nat :: (child, v) in r1 ==>
      r1[(child, v)] == if v == UXSTACK_PAGE then ZeroPage() else r[(parent, v)]
    ensures forall a: Va :: a.0 != child ==> (a in r1 <==> a in r) && (a in r ==> r1[a] == r[a])
  {
    hide ForkPages, Unmapped, Private, Refines, ZeroPage;
    var r0 := ForkPagesRefine(m, r, parent, child, USER_PAGES);
    ForkUnmapped(m, parent, child, USER_PAGES, f);
    PagesAreUser(m, r);
    var m0 := ForkPages(m, parent, child, USER_PAGES);
    OwnFrame(m0, r0, (child, UXSTACK_PAGE), f, ZeroPage(), PageAlloc(m0, (child, UXSTACK_PAGE), true, f));
    r1 := r0[(child, UXSTACK_PAGE) := ZeroPage()];
  }
}
