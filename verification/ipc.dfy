// Message passing between environments (sched/kern/syscall.c): what every run of receives and sends
// keeps, and how a page is passed.
module Ipc {
  import opened PageTables
  import opened Pmap

  const E_IPC_NOT_RECV := 7

  // The env_ipc_* fields.
  datatype Mailbox = Mailbox(recving: bool, dstva: nat, value: nat, from: int, perm: nat)

  // ---------------------------------------------------------------- whole runs

  // What happens to the mailboxes: a call of sys_ipc_recv, in vain or not, a successful send, and
  // env_alloc of the slot.
  datatype Event = Recv(e: nat, dstva: nat) | Sent(e: nat, from: int, value: nat, perm: nat) | Alloc(e: nat)

  predicate GoodDstva(dstva: nat) { dstva < UTOP && dstva % PGSIZE == 0 }

  function AfterRecv(m: Mailbox, dstva: nat): Mailbox {
    m.(recving := true, dstva := if GoodDstva(dstva) then dstva else m.dstva)
  }

  function AfterSend(m: Mailbox, from: int, value: nat, perm: nat): Mailbox {
    m.(recving := false, from := from, value := value, perm := perm)
  }

  predicate Can(ms: seq<Mailbox>, ev: Event) {
    ev.e < |ms| && (ev.Sent? ==> ms[ev.e].recving)
  }

  function After(ms: seq<Mailbox>, ev: Event): seq<Mailbox>
    requires Can(ms, ev)
  {
    var m := ms[ev.e];
    ms[ev.e :=
      match ev
      case Recv(_, dstva) => AfterRecv(m, dstva)
      case Sent(_, from, value, perm) => AfterSend(m, from, value, perm)
      case Alloc(_) => m.(recving := false)]
  }

  ghost predicate IsStep(ms: seq<Mailbox>, ev: Event, ms1: seq<Mailbox>) { Can(ms, ev) && ms1 == After(ms, ev) }

  ghost predicate IsRun(states: seq<seq<Mailbox>>, evs: seq<Event>) {
    && |states| == |evs| + 1
    && forall i :: 0 <= i < |evs| ==> IsStep(states[i], evs[i], states[i + 1])
  }

  ghost predicate Received(evs: seq<Event>, e: nat, j: int) { 0 <= j < |evs| && evs[j].Recv? && evs[j].e == e }

  ghost predicate Delivered(evs: seq<Event>, e: nat, i: int) { 0 <= i < |evs| && evs[i].Sent? && evs[i].e == e }

  // A mailbox that is open at n was opened by a receive, with no delivery in between.
  lemma {:induction false} OpenedByRecv(states: seq<seq<Mailbox>>, evs: seq<Event>, e: nat, n: nat) returns (j: nat)
    requires IsRun(states, evs) && n <= |evs| && e < |states[0]| && !states[0][e].recving
    ensures |states[n]| == |states[0]|
    ensures states[n][e].recving ==> j < n && Received(evs, e, j) && forall k :: j < k < n ==> !Delivered(evs, e, k)
  {
    j := 0;
    if n > 0 {
      assert IsStep(states[n - 1], evs[n - 1], states[n - 1 + 1]);
      j := OpenedByRecv(states, evs, e, n - 1);
      if Received(evs, e, n - 1) {
        j := n - 1;
      }
    }
  }

  // Every delivery to e was asked for by a sys_ipc_recv of e that no other delivery had used.
  lemma DeliveryNeedsRecv(states: seq<seq<Mailbox>>, evs: seq<Event>, e: nat, i: nat) returns (j: nat)
    requires IsRun(states, evs) && e < |states[0]| && !states[0][e].recving && Delivered(evs, e, i)
    ensures j < i && Received(evs, e, j) && forall k :: j < k < i ==> !Delivered(evs, e, k)
  {
    j := OpenedByRecv(states, evs, e, i);
    assert IsStep(states[i], evs[i], states[i + 1]);
  }

  // So between two deliveries to e it called sys_ipc_recv again: no message overwrites another.
  lemma OneRecvPerDelivery(states: seq<seq<Mailbox>>, evs: seq<Event>, e: nat, i: nat, i': nat) returns (j: nat)
    requires IsRun(states, evs) && e < |states[0]| && !states[0][e].recving
    requires i < i' && Delivered(evs, e, i) && Delivered(evs, e, i')
    ensures i < j < i' && Received(evs, e, j)
  {
    j := DeliveryNeedsRecv(states, evs, e, i');
    assert !(j < i < i') ==> i <= j;
    assert j != i;
  }

  // What was delivered stays until the next sys_ipc_recv of e, and nothing more is delivered.
  lemma {:induction false} DeliveryStays(states: seq<seq<Mailbox>>, evs: seq<Event>, e: nat, i: nat, n: nat)
    requires IsRun(states, evs) && Delivered(evs, e, i) && i < n <= |evs|
    requires forall k :: i < k < n ==> !Received(evs, e, k)
    ensures e < |states[n]| && !states[n][e].recving
    ensures states[n][e].value == evs[i].value && states[n][e].from == evs[i].from && states[n][e].perm == evs[i].perm
    ensures forall k :: i < k < n ==> !Delivered(evs, e, k)
    decreases n
  {
    assert IsStep(states[n - 1], evs[n - 1], states[n - 1 + 1]);
    if n > i + 1 {
      DeliveryStays(states, evs, e, i, n - 1);
      assert !Received(evs, e, n - 1);
    }
  }

  // Where a page is wanted: the address of the receiver's last good sys_ipc_recv, whatever calls with
  // bad addresses, deliveries or env_alloc came after it.
  lemma {:induction false} WantedAtLastRecv(states: seq<seq<Mailbox>>, evs: seq<Event>, e: nat, j: nat, n: nat)
    requires IsRun(states, evs) && Received(evs, e, j) && j < n <= |evs|
    requires evs[j].dstva < 0xEEC0_0000 && evs[j].dstva % 4096 == 0
    requires forall k :: j < k < n && Received(evs, e, k) ==> evs[k].dstva >= 0xEEC0_0000 || evs[k].dstva % 4096 != 0
    ensures e < |states[n]| && states[n][e].dstva == evs[j].dstva
    decreases n
  {
    assert IsStep(states[n - 1], evs[n - 1], states[n - 1 + 1]);
    if n > j + 1 {
      WantedAtLastRecv(states, evs, e, j, n - 1);
    }
  }

  // ---------------------------------------------------------------- sending a page

  // perm | PTE_U | PTE_P, bits 2 and 0.
  function WithUserPresent(perm: nat): nat {
    perm + (if perm % 2 == 0 then 1 else 0) + (if perm / 4 % 2 == 0 then 4 else 0)
  }

  lemma UserPresentIsOr(perm: nat)
    ensures WithUserPresent(perm) == Or(perm, 5)
  {
    var q := perm / 2 / 2;
    assert Or(q, 1) == q + (if q % 2 == 0 then 1 else 0) by { assert Or(q / 2, 0) == q / 2; }
    assert Or(perm / 2, 2) == (perm / 2) % 2 + 2 * Or(q, 1);
    assert Or(perm, 5) == 1 + 2 * Or(perm / 2, 2);
    assert perm / 4 == q;
  }

  // Bit by bit: those of perm, and bits 0 and 2.
  lemma UserPresentBits(perm: nat, k: nat)
    ensures Bit(WithUserPresent(perm), k) <==> Bit(perm, k) || k == 0 || k == 2
  {
    UserPresentIsOr(perm);
    OrBits(perm, 5, k);
    BitsOfFive(k);
  }

  lemma BitsOfFive(k: nat)
    ensures Bit(5, k) <==> k == 0 || k == 2
  {
    if k > 2 { NoBit(k - 3); assert Bit(5, k) == Bit(2, k - 1) == Bit(1, k - 2) == Bit(0, k - 3); }
  }

  // A frame that one user mapping names is named by user mappings only.
  lemma MappedByUsersOnly(m: Mem, g: Ghost, sl: Slot, p: nat)
    requires Inv(m, g) && Live(g.dirs, sl) && sl.Pte? && Target(m, sl) == p
    ensures forall s :: s in Refs(m, g, p) ==> s.Pte?
    ensures p < |m.pages| && p !in g.list && m.pages[p].ref == |Refs(m, g, p)|
  {
    hide Chain;
    forall s | s in Refs(m, g, p) ensures s.Pte? {
      assert Live(g.dirs, s) && Target(m, s) == Target(m, sl) != -1;
    }
    assert EntryOk(m, Entry(m, sl.d, sl.i, sl.j));
  }

  // Mapping a page that was free at one entry adds no reference to any other mapped page, and takes
  // one from the page that was mapped there.
  lemma CountAfterAlloc(m0: Mem, g0: Ghost, m1: Mem, g1: Ghost, to: Slot, q: nat, sl: Slot, p: nat)
    requires Inv(m0, g0) && Inv(m1, g1) && g1.dirs == g0.dirs
    requires Live(g0.dirs, to) && to.Pte? && Live(g0.dirs, sl) && sl.Pte? && sl != to && Target(m0, sl) == p
    requires OnlyEntry(m0, m1, g0.dirs, to.d, to.i, to.j) && q in g0.list && Target(m1, to) == q
    ensures Target(m1, sl) == p != q && p < |m0.pages| && p < |m1.pages|
    ensures m1.pages[p].ref == m0.pages[p].ref - if Target(m0, to) == p then 1 else 0
  {
    hide Chain, Inv, Exclusive;
    assert Target(m1, sl) == p;
    MappedByUsersOnly(m0, g0, sl, p);
    MappedByUsersOnly(m1, g1, sl, p);
    forall s ensures s in Refs(m1, g1, p) <==> s in Refs(m0, g0, p) - {to} {
      if s.Pte? && s != to && Live(g0.dirs, s) { assert Target(m1, s) == Target(m0, s); }
    }
    assert Refs(m1, g1, p) == Refs(m0, g0, p) - {to};
    if to in Refs(m0, g0, p) {
      LastReference(Refs(m0, g0, p), to);
    } else {
      assert Refs(m1, g1, p) == Refs(m0, g0, p);
    }
  }

  lemma SameWritable(perm: nat)
    ensures Writable(WithUserPresent(perm)) == Writable(perm)
  {
    hide Writable;
    var high, low := perm / 4, perm % 4;
    var newLow := if low % 2 == 0 then low + 1 else low;
    var newHigh := if high % 2 == 0 then high + 1 else high;
    assert perm % 2 == low % 2 by { EvenPart(2 * high, low); }
    assert WithUserPresent(perm) == 4 * newHigh + newLow;
    WritableLow(high, low);
    WritableLow(newHigh, newLow);
  }

  lemma WritableLow(high: nat, low: nat)
    requires low < 4
    ensures Writable(4 * high + low) <==> low >= 2
  {
    assert (4 * high + low) / 2 == 2 * high + low / 2;
    EvenPart(high, low / 2);
  }

  lemma NothingChanged(m: Mem, dirs: set<nat>, d: nat, i: nat, j: nat)
    ensures OnlyEntry(m, m, dirs, d, i, j) && SameEntries(m, m, dirs)
  {
  }

  // The receiver's new page, and the sender's mapping, after env_page_alloc.
  lemma AfterAlloc(m0: Mem, g0: Ghost, m1: Mem, g1: Ghost, to: Slot, q: nat, perm: nat, from: Slot)
    requires Inv(m0, g0) && Inv(m1, g1) && g1.dirs == g0.dirs && to.Pte? && from.Pte? && Live(g0.dirs, to)
    requires Live(g0.dirs, from)
    requires OnlyEntry(m0, m1, g0.dirs, to.d, to.i, to.j) && q in g0.list
    requires perm < PGSIZE && Entry(m1, to.d, to.i, to.j) == MakeEntry(q, perm)
    requires Target(m0, from) != -1 && (Writable(perm) ==> Writable(Entry(m0, from.d, from.i, from.j)))
    ensures Word(m1, to.d, to.i) != 0
    ensures to != from ==> Entry(m1, from.d, from.i, from.j) == Entry(m0, from.d, from.i, from.j)
    ensures Entry(m1, from.d, from.i, from.j) != 0
    ensures Writable(perm) ==> Writable(Entry(m1, from.d, from.i, from.j))
    ensures Overflows(m1, Target(m1, from), to) <==> Overflows(m0, Target(m0, from), to)
  {
    hide Inv, Word;
    assert Word(m1, to.d, to.i) != 0;
    WritableEntry(q, perm);
    if to != from {
      MappedByUsersOnly(m0, g0, from, Target(m0, from));
      CountAfterAlloc(m0, g0, m1, g1, to, q, from, Target(m0, from));
    }
  }

  lemma WritableEntry(q: nat, perm: nat)
    requires perm < PGSIZE
    ensures Writable(MakeEntry(q, perm)) == Writable(perm)
  {
    hide MakeEntry;
    BitOne(MakeEntry(q, perm));
  }

  lemma EvenPart(a: nat, b: nat)
    ensures (2 * a + b) % 2 == b % 2
  {
  }

  lemma BitOne(w: nat)
    ensures w / 2 % 2 == w % PGSIZE / 2 % 2
  {
    var high, low := w / PGSIZE, w % PGSIZE;
    assert w / 2 == 2 * (1024 * high) + low / 2;
    EvenPart(1024 * high, low / 2);
  }

  lemma Passed(m0: Mem, m1: Mem, m2: Mem, g2: Ghost, g1: Ghost, src: nat, srcva: nat, dst: nat, dstva: nat, perm: nat)
    requires perm < PGSIZE && src in g1.dirs && PDX(srcva) < USER_PDES && PTX(srcva) < NPTENTRIES
    requires OnlyEntry(m0, m1, g1.dirs, dst, PDX(dstva), PTX(dstva))
    requires SentFrame(m1, src, srcva) >= 0
    requires Inserted(m1, g1, m2, g2, SentFrame(m1, src, srcva), dst, PDX(dstva), PTX(dstva), perm)
    requires SentFrame(m2, src, srcva) == SentFrame(m1, src, srcva) == SentFrame(m2, dst, dstva)
    ensures OnlyEntry(m0, m2, g1.dirs, dst, PDX(dstva), PTX(dstva))
    ensures SentFrame(m0, src, srcva) != -1 ==> PagePassed(m0, m2, g1.dirs, src, srcva, dst, dstva, perm)
  {
    hide PDX, PTX;
  }

  // What page_lookup finds for the sender: the frame, or -1, and the entry.
  ghost function SentFrame(m: Mem, d: nat, srcva: nat): int { Target(m, Pte(d, PDX(srcva), PTX(srcva))) }

  ghost function SentEntry(m: Mem, d: nat, srcva: nat): nat { Entry(m, d, PDX(srcva), PTX(srcva)) }

  // env_page_alloc at the receiver and then env_page_map from the sender's address to it.
  ghost predicate PagePassed(m0: Mem, m1: Mem, dirs: set<nat>, src: nat, srcva: nat, dst: nat, dstva: nat, perm: nat) {
    && SentFrame(m0, src, srcva) >= 0 && perm < PGSIZE
    && OnlyEntry(m0, m1, dirs, dst, PDX(dstva), PTX(dstva))
    && SentFrame(m1, dst, dstva) == SentFrame(m1, src, srcva)
    && ((dst, PDX(dstva), PTX(dstva)) != (src, PDX(srcva), PTX(srcva)) ==>
        SentEntry(m1, dst, dstva) == MakeEntry(SentFrame(m0, src, srcva), perm))
  }

  // The page part of sys_ipc_try_send, for a page mapped at srcva: it is mapped at the receiver's
  // dstva. The only errors are those of env_page_alloc, and they change no mapping; counts stay
  // exact unless the page's own count is full and the receiver had not mapped it there before.
  method PassPage(mem: PhysicalMemory, src: nat, srcva: nat, dst: nat, dstva: nat, perm: nat) returns (r: int)
    requires mem.Valid() && src in mem.g.dirs && dst in mem.g.dirs && srcva < UTOP && dstva < UTOP
    requires SentFrame(mem.State(), src, srcva) != -1
    requires Writable(perm) ==> Writable(SentEntry(mem.State(), src, srcva))
    modifies mem, mem.pages, mem.frames
    ensures mem.g.dirs == old(mem.g.dirs) && (r == 0 || r == -E_INVAL || r == -E_NO_MEM)
    ensures r == -E_INVAL <==> !PermOk(perm)
    ensures PermOk(perm) ==>
      (r == -E_NO_MEM <==> |old(mem.g.list)| < if old(Word(mem.State(), dst, PDX(dstva))) == 0 then 2 else 1)
    ensures r != 0 ==> SameEntries(old(mem.State()), mem.State(), mem.g.dirs)
    ensures r == -E_INVAL ==> mem.State() == old(mem.State())
    ensures r == 0 ==> PagePassed(old(mem.State()), mem.State(), mem.g.dirs, src, srcva, dst, dstva, perm)
    ensures mem.Valid() <==>
      !(r == 0 && Overflows(old(mem.State()), old(SentFrame(mem.State(), src, srcva)),
                            Pte(dst, PDX(dstva), PTX(dstva))))
    ensures Loose(mem.State(), mem.g, -1) && KernelOk(mem.State(), mem.g, mem.kernPgdir)
  {
    UserPdx(srcva);
    UserPdx(dstva);
    EntryNames(SentFrame(mem.State(), src, srcva), perm);
    hide Loose, Bounded, KernelOk, PDX, PTX, PermOk, Entry, Word, OnlyEntry, SameEntries, Inserted, KeepsFrame,
      Miscounted, MakeEntry;
    ghost var m0, g0 := mem.State(), mem.g;
    r := mem.EnvPageAlloc(dst, dstva, perm);
    if r < 0 {
      if r == -E_INVAL { NothingChanged(m0, mem.g.dirs, dst, PDX(dstva), PTX(dstva)); }
      return;
    }
    ghost var m1, g1 := mem.State(), mem.g;
    ghost var to, from, q := Pte(dst, PDX(dstva), PTX(dstva)), Pte(src, PDX(srcva), PTX(srcva)), g0.list[0];
    AfterAlloc(m0, g0, m1, g1, to, q, perm, from);
    r := mem.EnvPageMap(src, srcva, dst, dstva, perm);
    Passed(m0, m1, mem.State(), mem.g, g1, src, srcva, dst, dstva, perm);
  }

  // *srcpte & PTE_W, for a page that is mapped.
  method SourceWritable(mem: PhysicalMemory, src: nat, srcva: nat) returns (w: bool)
    requires mem.Valid() && src in mem.g.dirs && srcva < UTOP && SentFrame(mem.State(), src, srcva) != -1
    modifies mem, mem.pages, mem.frames
    ensures mem.Valid() && mem.State() == old(mem.State()) && mem.g == old(mem.g)
    ensures w <==> Writable(SentEntry(mem.State(), src, srcva))
  {
    UserPdx(srcva);
    hide Loose, Bounded, KernelOk, PDX, PTX, Writable;
    var page, pt := mem.PageLookup(src, srcva);
    w := Writable(mem.frames[pt][PTX(srcva)]);
  }
}
