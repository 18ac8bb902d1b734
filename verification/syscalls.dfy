// The kernel's environments, mailboxes and run queues together: env_alloc and env_destroy
// (sched/kern/env.c), sys_env_set_priority, sys_ipc_recv and sys_ipc_try_send
// (sched/kern/syscall.c), with the lookups that decide whom they act on.
module Syscalls {
  import opened EnvManager
  import opened EnvTable
  import opened EnvTypes
  import opened FreeList
  import opened Ipc
  import opened Mlfq
  import MlfqSpec
  import opened PageTables
  import opened Pmap

  // The scheduler's fields of envs[] against the table: one env_status, and a queue number.
  ghost predicate Agree(t: Table, info: seq<MlfqSpec.EnvInfo>) {
    && |t.envs| == |info| == NENV
    && forall e :: 0 <= e < NENV ==>
      info[e].status == t.envs[e].status && 0 <= info[e].currentQueue < MlfqSpec.MAX_QUEUES
  }

  // The same except for the status of slot e.
  ghost predicate AgreeBut(t: Table, info: seq<MlfqSpec.EnvInfo>, e: nat) {
    && |t.envs| == |info| == NENV
    && forall f :: 0 <= f < NENV ==>
      (f != e ==> info[f].status == t.envs[f].status) && 0 <= info[f].currentQueue < MlfqSpec.MAX_QUEUES
  }

  lemma StillAgree(t: Table, t1: Table, info: seq<MlfqSpec.EnvInfo>, e: nat)
    requires Agree(t, info) && |t1.envs| == NENV && forall f :: 0 <= f < NENV && f != e ==> t1.envs[f] == t.envs[f]
    ensures AgreeBut(t1, info, e)
  {
  }

  function WithStatus(s: MlfqSpec.Sched, e: nat, st: Status): MlfqSpec.Sched
    requires e < |s.info|
  {
    s.(info := s.info[e := s.info[e].(status := st)])
  }

  // The scheduler's fields of a new environment, before its entry is pushed.
  function Started(s: MlfqSpec.Sched, e: nat): MlfqSpec.Sched
    requires e < |s.info|
  {
    s.(info := s.info[e := s.info[e].(status := Runnable, executions := 0)])
  }

  // Every ring has room for one entry more.
  ghost predicate Room(s: MlfqSpec.Sched) {
    forall q: nat :: q < |s.queues| ==> |s.queues[q]| < NENV
  }

  // The slot that envid2env finds for envid.
  function Addressee(t: Table, envid: int): (e: nat)
    ensures e < NENV
  {
    if |t.envs| != NENV then 0
    else
      var found := Envid2Env(t, envid, false);
      if found.Found? && 0 <= found.e < NENV then found.e else 0
  }

  // `parent ? parent->current_queue : 0`.
  function ParentQueue(t: Table, info: seq<MlfqSpec.EnvInfo>, parent: int): int {
    if !(|t.envs| == |info| == NENV) then 0
    else
      var found := Envid2Env(t, parent, false);
      if found.Found? && 0 <= found.e < NENV then info[found.e].currentQueue else 0
  }

  // An environment may change the priority of itself and its children.
  predicate Owns(t: Table, e: nat)
    requires e < |t.envs| && 0 <= t.cur < |t.envs|
  {
    e == t.cur || t.envs[e].parent == t.envs[t.cur].id
  }

  // Being found and owned is being found by the lookup that checks permission.
  lemma OwnsMeans(t: Table, list: seq<nat>, envid: int)
    requires TableOk(t, list) && IsLive(t, t.cur)
    ensures var e := Addressee(t, envid);
      && e < |t.envs| && 0 <= t.cur < |t.envs|
      && (Envid2Env(t, envid, false) != BadEnv && Owns(t, e) <==> Envid2Env(t, envid, true) == Found(e))
  {
    hide Linked;
    LookupMeaning(t, list, if envid == 0 then 1 else envid, Addressee(t, envid), true);
  }

  lemma LookupLive(t: Table, list: seq<nat>, envid: int, e: int)
    requires TableOk(t, list) && IsLive(t, t.cur) && Envid2Env(t, envid, false) == Found(e)
    ensures IsLive(t, e) && e == Addressee(t, envid)
  {
    hide Linked;
    if envid != 0 { LookupMeaning(t, list, envid, e, false); }
  }

  // A lookup that also checks the caller's permission finds the same slot.
  lemma CheckedLookup(t: Table, list: seq<nat>, envid: int, e: int)
    requires TableOk(t, list) && IsLive(t, t.cur) && Envid2Env(t, envid, true) == Found(e)
    ensures IsLive(t, e) && e == Addressee(t, envid)
  {
    hide Linked;
    if envid != 0 {
      LookupMeaning(t, list, envid, e, true);
      LookupMeaning(t, list, envid, e, false);
    }
  }

  lemma UserPresentKeepsFrame(p: nat, perm: nat)
    ensures KeepsFrame(p, WithUserPresent(perm)) == KeepsFrame(p, perm)
  {
    hide Covers;
    var high, low := perm / 8, perm % 8;
    var newLow := WithUserPresent(perm) - 8 * high;
    assert perm % 2 == low % 2 by { EvenPart(4 * high, low); }
    assert perm / 4 == 2 * high + low / 4;
    EvenPart(high, low / 4);
    assert newLow < 8;
    HighPart(high, low);
    HighPart(high, newLow);
  }

  lemma HighPart(high: nat, low: nat)
    requires low < 8
    ensures (8 * high + low) / PGSIZE == high / 512
  {
  }

  predicate BadPage(va: nat) { va >= UTOP || va % PGSIZE != 0 }

  lemma EnvCount(t: Table, list: seq<nat>)
    requires TableOk(t, list)
    ensures |t.envs| == NENV
  {
  }

  // What becomes of a page offered at srcva, given how many pages are free: -E_INVAL for an unaligned
  // address, for write permission that the sender lacks, or, if the receiver wants the page, for
  // permission bits that are not for users; -E_NO_MEM if env_page_alloc then lacks a page.
  ghost function PageResult(m: Mem, free: nat, src: nat, srcva: nat, dst: nat, dstva: nat, perm: nat): (r: int)
    ensures r == 0 || r == -E_INVAL || r == -E_NO_MEM
  {
    if srcva % PGSIZE != 0 || (Writable(perm) && !Writable(SentEntry(m, src, srcva))) then -E_INVAL
    else if dstva == 0 then 0
    else if !PermOk(WithUserPresent(perm)) then -E_INVAL
    else if free < if Word(m, dst, PDX(dstva)) == 0 then 2 else 1 then -E_NO_MEM
    else 0
  }

  // The queue of a new environment, told from the other side: that of the environment its parent id
  // is found to be (for id 0, the current one), or queue 0.
  lemma ParentQueueMeans(t: Table, list: seq<nat>, info: seq<MlfqSpec.EnvInfo>, parent: int, f: nat)
    requires TableOk(t, list) && |info| == NENV && f < NENV
    ensures parent != 0 && IsLive(t, f) && t.envs[f].id == parent ==>
      ParentQueue(t, info, parent) == info[f].currentQueue
    ensures parent != 0 && (forall g: nat :: IsLive(t, g) ==> t.envs[g].id != parent) ==>
      ParentQueue(t, info, parent) == 0
    ensures parent == 0 ==> ParentQueue(t, info, 0) == if 0 <= t.cur < NENV then info[t.cur].currentQueue else 0
  {
    hide Linked, EnvX;
    if parent != 0 {
      LookupMeaning(t, list, parent, f, false);
      if Envid2Env(t, parent, false).Found? {
        var e := Envid2Env(t, parent, false).e;
        assert IsLive(t, e) && t.envs[e].id == parent;
      }
    }
  }

  // The same error by error.
  lemma PageResultMeans(m: Mem, free: nat, src: nat, srcva: nat, dst: nat, dstva: nat, perm: nat)
    ensures var r := PageResult(m, free, src, srcva, dst, dstva, perm);
      && (r == -E_INVAL <==>
          || srcva % 4096 != 0
          || (Bit(perm, 1) && !Bit(SentEntry(m, src, srcva), 1))
          || (dstva != 0 && !(perm < 4096 && perm / 8 % 64 == 0)))
      && (r == -E_NO_MEM <==>
          r != -E_INVAL && dstva != 0 && free < if Word(m, dst, PDX(dstva)) == 0 then 2 else 1)
  {
    hide Word, PDX, PTX, Entry, PermOk, Covers;
    PermOkMeans(WithUserPresent(perm));
    PresentPerm(perm);
    BitSteps(perm);
    BitSteps(SentEntry(m, src, srcva));
    assert Bit(perm, 0 + 1) == Bit(perm / 2, 0);
    assert Bit(SentEntry(m, src, srcva), 0 + 1) == Bit(SentEntry(m, src, srcva) / 2, 0);
    BitSteps(perm / 2);
    BitSteps(SentEntry(m, src, srcva) / 2);
  }

  lemma PresentPerm(perm: nat)
    ensures var w := WithUserPresent(perm);
      w % 2 == 1 && w / 4 % 2 == 1 && (w < 4096 <==> perm < 4096) && w / 8 == perm / 8
  {
    var high, low := perm / 8, perm % 8;
    var newLow := WithUserPresent(perm) - 8 * high;
    assert perm % 2 == low % 2 by { EvenPart(4 * high, low); }
    assert perm / 4 == 2 * high + low / 4;
    EvenPart(high, low / 4);
    assert newLow < 8 && newLow % 2 == 1 && newLow / 4 == 1;
    LowOctet(high, newLow);
  }

  lemma LowOctet(high: nat, low: nat)
    requires low < 8 && low % 2 == 1 && low / 4 == 1
    ensures var w := 8 * high + low; w % 2 == 1 && w / 4 % 2 == 1 && w / 8 == high
  {
    EvenPart(4 * high, low);
    EvenPart(high, 1);
    assert (8 * high + low) / 4 == 2 * high + 1;
  }

  // The books are in order and no entry is for slot e.
  ghost predicate Unqueued(s: MlfqSpec.Sched, e: nat) {
    MlfqSpec.Booked(s) && e < NENV && forall a :: a in MlfqSpec.Entries(s) ==> EnvX(a) != e
  }

  // A new entry for a slot that is queued nowhere keeps the scheduler's books.
  lemma StartedBooks(s: MlfqSpec.Sched, e: nat, id: int, q: nat)
    requires Unqueued(s, e) && q < MlfqSpec.MAX_QUEUES && e == EnvX(id)
    ensures MlfqSpec.Booked(MlfqSpec.Push(Started(s, e), id, q))
    ensures MlfqSpec.Entries(MlfqSpec.Push(Started(s, e), id, q)) == MlfqSpec.Entries(s) + multiset{id}
  {
    hide EnvX;
    MlfqSpec.BookedRings(s, Started(s, e));
    MlfqSpec.AllocPushes(Started(s, e), id, q);
  }

  class Kernel {
    const envs: Envs
    const sched: Scheduler
    const mail: array<Mailbox>

    // Everything but the counts of the pages.
    ghost predicate Sound()
      reads this, envs, envs.envs, envs.mem, sched, sched.q0, sched.q1, sched.q2, sched.q3, sched.envs, mail
    {
      && TableOk(envs.State(), envs.list) && DirsOk(envs.State(), envs.mem.g.dirs)
      && sched.Valid() && Agree(envs.State(), sched.envs[..])
      && mail.Length == NENV && forall e :: 0 <= e < NENV ==> mail[e].dstva == 0 || GoodDstva(mail[e].dstva)
    }

    ghost predicate Valid()
      reads this, envs, envs.envs, envs.mem, envs.mem.pages, envs.mem.frames
      reads sched, sched.q0, sched.q1, sched.q2, sched.q3, sched.envs, mail
    {
      Sound() && envs.mem.Valid()
    }

    // At boot, nobody waits for a message.
    constructor (envs: Envs, sched: Scheduler)
      requires envs.Valid() && sched.Valid() && Agree(envs.State(), sched.envs[..])
      ensures Valid() && this.envs == envs && this.sched == sched && fresh(mail)
      ensures forall e :: 0 <= e < NENV ==> mail[e] == Mailbox(false, 0, 0, 0, 0)
    {
      this.envs := envs;
      this.sched := sched;
      mail := new Mailbox[NENV](_ => Mailbox(false, 0, 0, 0, 0));
    }

    // A store to env_status.
    method SetStatus(e: nat, st: Status)
      requires Sound() && IsLive(envs.State(), e) && st != Free
      modifies envs.envs, sched.envs
      ensures Sound()
      ensures envs.State() == StatusStep(old(envs.State()), e, st)
      ensures sched.State() == WithStatus(old(sched.State()), e, st)
      ensures envs.envs[..] == old(envs.envs[..])[e := old(envs.envs[e]).(status := st)]
      ensures sched.envs[..] == old(sched.envs[..])[e := old(sched.envs[e]).(status := st)]
    {
      hide TableOk, DirsOk;
      ghost var t, s := envs.State(), sched.State();
      StatusKeeps(t, envs.list, e, st);
      StatusDirs(t, envs.mem.g.dirs, e, st);
      envs.envs[e] := envs.envs[e].(status := st);
      sched.envs[e] := sched.envs[e].(status := st);
      assert envs.State() == StatusStep(t, e, st);
      assert sched.State() == WithStatus(s, e, st);
    }

    // sys_ipc_recv, up to its call of sys_yield. It opens the mailbox even when it then fails.
    method SysIpcRecv(dstva: nat) returns (r: int)
      requires Valid() && IsLive(envs.State(), envs.curenv)
      modifies envs.envs, sched.envs, mail
      ensures Valid() && (r == 0 || r == -E_INVAL) && (r == 0 <==> GoodDstva(dstva))
      ensures mail[..] == After(old(mail[..]), Recv(envs.curenv, dstva))
      ensures r == 0 <==> dstva < 0xEEC0_0000 && dstva % 4096 == 0
      ensures var was := old(mail[envs.curenv]);
        mail[..] == old(mail[..])[envs.curenv :=
          Mailbox(true, if r == 0 then dstva else was.dstva, was.value, was.from, was.perm)]
      ensures r != 0 ==> envs.envs[..] == old(envs.envs[..]) && sched.envs[..] == old(sched.envs[..])
      ensures r == 0 ==> (
        && envs.envs[..] == old(envs.envs[..])[envs.curenv := old(envs.envs[envs.curenv]).(status := NotRunnable)]
        && sched.envs[..] == old(sched.envs[..])[envs.curenv := old(sched.envs[envs.curenv]).(status := NotRunnable)])
      ensures envs.State() ==
        if r == 0 then StatusStep(old(envs.State()), envs.curenv, NotRunnable) else old(envs.State())
      ensures sched.State() ==
        if r == 0 then WithStatus(old(sched.State()), envs.curenv, NotRunnable) else old(sched.State())
    {
      hide TableOk, DirsOk, Agree, PhysicalMemory.ValidPlus;
      EnvCount(envs.State(), envs.list);
      var e := envs.curenv;
      mail[e] := mail[e].(recving := true);
      if dstva >= UTOP || dstva % PGSIZE != 0 {
        return -E_INVAL;
      }
      mail[e] := mail[e].(dstva := dstva);
      SetStatus(e, NotRunnable);
      return 0;
    }

    // sys_page_map. It checks addresses and environments, but not perm: with bits above the low
    // twelve that are not in the address of the page, the mapping made is not the one asked for, and
    // the counts of two pages are wrong from then on.
    method SysPageMap(srcId: int, srcva: nat, dstId: int, dstva: nat, perm: nat) returns (r: int)
      requires Valid() && IsLive(envs.State(), envs.curenv)
      modifies envs.mem, envs.mem.pages, envs.mem.frames
      ensures Sound() && (r == 0 || r == -E_INVAL || r == -E_BAD_ENV || r == -E_NO_MEM)
      ensures r != 0 ==> Valid() && envs.mem.State() == old(envs.mem.State()) && envs.mem.g == old(envs.mem.g)
      ensures var t, bad := envs.State(), BadPage(srcva) || BadPage(dstva);
        && 0 <= t.cur < |t.envs| == NENV
        && var found := Envid2Env(t, srcId, true) != BadEnv && Envid2Env(t, dstId, true) != BadEnv;
          && (r == -E_BAD_ENV <==> !bad && !found)
          && (bad ==> r == -E_INVAL)
          && (!bad && found ==> (
              var src, dst := t.envs[Addressee(t, srcId)].pgdir, t.envs[Addressee(t, dstId)].pgdir;
              && src >= 0 && dst >= 0
              && var m, w := old(envs.mem.State()), old(SentEntry(envs.mem.State(), src, srcva));
                && (r == -E_INVAL <==> w == 0 || (Writable(perm) && !Writable(w)))
                && (r == -E_NO_MEM <==> r != -E_INVAL && Word(m, dst, PDX(dstva)) == 0 && old(envs.mem.g.list) == [])
                && (r == 0 ==> (
                    && PageMapped(m, old(envs.mem.g), envs.mem.State(), envs.mem.g, src, srcva, dst, dstva,
                                  WithUserPresent(perm))
                    && (Valid() <==>
                        KeepsFrame(FrameOf(w), perm) && !Overflows(m, FrameOf(w), Pte(dst, PDX(dstva), PTX(dstva))))))))
    {
      hide TableOk, DirsOk, Agree, PhysicalMemory.ValidPlus, PDX, PTX, OnlyEntry, Released, Refs, Loose, KernelOk,
        WithUserPresent, Writable, KeepsFrame, Miscounted, MakeEntry, Entry, Word;
      ghost var t, list := envs.State(), envs.list;
      EnvCount(t, list);
      if BadPage(srcva) || BadPage(dstva) {
        return -E_INVAL;
      }
      var err, srcEnv := envs.Envid2Env(srcId, true);
      if err != 0 {
        return err;
      }
      var dstEnv;
      err, dstEnv := envs.Envid2Env(dstId, true);
      if err != 0 {
        return err;
      }
      CheckedLookup(t, list, srcId, srcEnv);
      CheckedLookup(t, list, dstId, dstEnv);
      DirOf(t, envs.mem.g.dirs, srcEnv);
      DirOf(t, envs.mem.g.dirs, dstEnv);
      UserPdx(srcva);
      UserPdx(dstva);
      SameWritable(perm);
      UserPresentKeepsFrame(FrameOf(SentEntry(envs.mem.State(), envs.envs[srcEnv].pgdir, srcva)), perm);
      r := envs.mem.EnvPageMap(envs.envs[srcEnv].pgdir, srcva, envs.envs[dstEnv].pgdir, dstva, WithUserPresent(perm));
    }

    // What the message says about the sender's page: sys_ipc_try_send follows a pointer that
    // page_lookup only stores for a mapped page, so where it gets that far a page must be mapped.
    ghost predicate Sendable(envid: int, srcva: nat)
      requires Valid() && IsLive(envs.State(), envs.curenv)
      reads this, envs, envs.envs, envs.mem, envs.mem.pages, envs.mem.frames
      reads sched, sched.q0, sched.q1, sched.q2, sched.q3, sched.envs, mail
    {
      Envid2Env(envs.State(), envid, false).Found? && mail[Addressee(envs.State(), envid)].recving
      && srcva < UTOP && srcva % PGSIZE == 0 ==>
        envs.envs[envs.curenv].pgdir >= 0 && SentFrame(envs.mem.State(), envs.envs[envs.curenv].pgdir, srcva) != -1
    }

    // The part of sys_ipc_try_send for an address below UTOP.
    method SendPage(dst: nat, srcva: nat, perm: nat) returns (r: int, newPerm: nat)
      requires Valid() && IsLive(envs.State(), envs.curenv) && IsLive(envs.State(), dst) && srcva < UTOP
      requires srcva % PGSIZE == 0 ==>
        envs.envs[envs.curenv].pgdir >= 0 && SentFrame(envs.mem.State(), envs.envs[envs.curenv].pgdir, srcva) != -1
      modifies envs.mem, envs.mem.pages, envs.mem.frames
      ensures Sound() && envs.envs[envs.curenv].pgdir >= 0 && envs.envs[dst].pgdir >= 0
      ensures r == PageResult(old(envs.mem.State()), |old(envs.mem.g.list)|, envs.envs[envs.curenv].pgdir, srcva,
                              envs.envs[dst].pgdir, mail[dst].dstva, perm)
      ensures r != 0 || mail[dst].dstva == 0 ==>
        SameEntries(old(envs.mem.State()), envs.mem.State(), envs.mem.g.dirs) && Valid()
      ensures r == 0 ==> newPerm == if mail[dst].dstva != 0 then WithUserPresent(perm) else mail[dst].perm
      ensures r == 0 && mail[dst].dstva != 0 ==> (
        && PagePassed(old(envs.mem.State()), envs.mem.State(), envs.mem.g.dirs,
                      envs.envs[envs.curenv].pgdir, srcva, envs.envs[dst].pgdir, mail[dst].dstva, WithUserPresent(perm))
        && (Valid() <==> !Overflows(old(envs.mem.State()),
              old(SentFrame(envs.mem.State(), envs.envs[envs.curenv].pgdir, srcva)),
              Pte(envs.envs[dst].pgdir, PDX(mail[dst].dstva), PTX(mail[dst].dstva)))))
    {
      hide TableOk, DirsOk, Agree, PhysicalMemory.State, PhysicalMemory.ValidPlus, PagePassed, SameEntries, Overflows,
        PermOk, PDX, PTX, WithUserPresent, Writable, Loose, KernelOk;
      EnvCount(envs.State(), envs.list);
      newPerm := mail[dst].perm;
      SameMappings(envs.mem.State(), envs.mem.g.dirs);
      DirOf(envs.State(), envs.mem.g.dirs, envs.curenv);
      DirOf(envs.State(), envs.mem.g.dirs, dst);
      if srcva % PGSIZE != 0 {
        return -E_INVAL, newPerm;
      }
      var src := envs.envs[envs.curenv].pgdir;
      var writable := SourceWritable(envs.mem, src, srcva);
      if Writable(perm) && !writable {
        return -E_INVAL, newPerm;
      }
      if mail[dst].dstva != 0 {
        newPerm := WithUserPresent(perm);
        SameWritable(perm);
        r := PassPage(envs.mem, src, srcva, envs.envs[dst].pgdir, mail[dst].dstva, newPerm);
        return;
      }
      return 0, newPerm;
    }

    // sys_ipc_try_send, for a page that can be sent. The receiver is the current environment for
    // envid 0.
    method SysIpcTrySend(envid: int, value: nat, srcva: nat, perm: nat) returns (r: int)
      requires Valid() && IsLive(envs.State(), envs.curenv) && Sendable(envid, srcva)
      modifies envs.envs, envs.mem, envs.mem.pages, envs.mem.frames, sched.envs, mail
      ensures Sound()
      ensures r == -E_BAD_ENV <==> old(Envid2Env(envs.State(), envid, false)) == BadEnv
      ensures r == -E_IPC_NOT_RECV <==> r != -E_BAD_ENV && !old(mail[Addressee(envs.State(), envid)].recving)
      ensures r != 0 ==> (
        && mail[..] == old(mail[..]) && envs.State() == old(envs.State()) && sched.State() == old(sched.State())
        && SameEntries(old(envs.mem.State()), envs.mem.State(), envs.mem.g.dirs) && Valid())
      ensures r != -E_BAD_ENV && r != -E_IPC_NOT_RECV ==> (
        var e := Addressee(old(envs.State()), envid);
        var src, dst, box := old(envs.envs[envs.curenv].pgdir), old(envs.envs[e].pgdir), old(mail[e]);
        && src >= 0 && dst >= 0 && box.recving
        && r == (if srcva >= UTOP then 0
                 else PageResult(old(envs.mem.State()), |old(envs.mem.g.list)|, src, srcva, dst, box.dstva, perm))
        && (r == 0 ==> (
          && envs.State() == StatusStep(old(envs.State()), e, Runnable)
          && sched.State() == WithStatus(old(sched.State()), e, Runnable)
          && mail[..] == After(old(mail[..]), Sent(e, old(envs.envs[envs.curenv].id), value,
               if srcva >= UTOP then 0 else if box.dstva != 0 then WithUserPresent(perm) else box.perm))
          && mail[..] == old(mail[..])[e := Mailbox(false, box.dstva, value, old(envs.envs[envs.curenv].id),
               if srcva >= 0xEEC0_0000 then 0 else if box.dstva != 0 then WithUserPresent(perm) else box.perm)]
          && envs.envs[..] == old(envs.envs[..])[e := old(envs.envs[e]).(status := Runnable)]
          && sched.envs[..] == old(sched.envs[..])[e := old(sched.envs[e]).(status := Runnable)]))
        && (srcva >= UTOP || box.dstva == 0 ==>
             SameEntries(old(envs.mem.State()), envs.mem.State(), envs.mem.g.dirs) && Valid())
        && (r == 0 && srcva < UTOP && box.dstva != 0 ==> (
          && PagePassed(old(envs.mem.State()), envs.mem.State(), envs.mem.g.dirs, src, srcva, dst, box.dstva,
            WithUserPresent(perm))
          && (Valid() <==> !Overflows(old(envs.mem.State()), SentFrame(old(envs.mem.State()), src, srcva),
                Pte(dst, PDX(box.dstva), PTX(box.dstva)))))))
    {
      hide TableOk, DirsOk, Agree, PhysicalMemory.State, PhysicalMemory.ValidPlus, PagePassed, SameEntries, Overflows,
        PDX, PTX, Scheduler.State, WithUserPresent, PageResult, SentFrame, StatusStep, WithStatus, After;
      ghost var t, list := envs.State(), envs.list;
      EnvCount(t, list);
      SameMappings(envs.mem.State(), envs.mem.g.dirs);
      var err, dst := envs.Envid2Env(envid, false);
      if err != 0 {
        return err;
      }
      LookupLive(t, list, envid, dst);
      DirOf(t, envs.mem.g.dirs, envs.curenv);
      DirOf(t, envs.mem.g.dirs, dst);
      if !mail[dst].recving {
        return -E_IPC_NOT_RECV;
      }
      var newPerm := 0;
      if srcva < UTOP {
        r, newPerm := SendPage(dst, srcva, perm);
        if r < 0 {
          return;
        }
      }
      Deliver(dst, value, newPerm);
      return 0;
    }

    // The stores at the end of sys_ipc_try_send.
    method Deliver(dst: nat, value: nat, perm: nat)
      requires Sound() && IsLive(envs.State(), envs.curenv) && IsLive(envs.State(), dst) && dst < mail.Length
      requires mail[dst].recving
      modifies envs.envs, sched.envs, mail
      ensures Sound()
      ensures mail[..] == After(old(mail[..]), Sent(dst, old(envs.envs[envs.curenv].id), value, perm))
      ensures envs.State() == StatusStep(old(envs.State()), dst, Runnable)
      ensures sched.State() == WithStatus(old(sched.State()), dst, Runnable)
      ensures mail[..] == old(mail[..])[dst :=
        Mailbox(false, old(mail[dst]).dstva, value, old(envs.envs[envs.curenv].id), perm)]
      ensures envs.envs[..] == old(envs.envs[..])[dst := old(envs.envs[dst]).(status := Runnable)]
      ensures sched.envs[..] == old(sched.envs[..])[dst := old(sched.envs[dst]).(status := Runnable)]
    {
      hide TableOk, DirsOk, Agree;
      EnvCount(envs.State(), envs.list);
      mail[dst] := AfterSend(mail[dst], envs.envs[envs.curenv].id, value, perm);
      SetStatus(dst, Runnable);
    }

    // The rest of env_alloc, once the table has the new environment: the mailbox is closed, the
    // scheduler's fields start afresh, and the new id is queued where its parent is, or in queue 0.
    method StartEnv(e: nat, parent: int)
      requires e < NENV && |envs.State().envs| == NENV && EnvX(envs.envs[e].id) == e && envs.envs[e].status == Runnable
      requires sched.Valid() && AgreeBut(envs.State(), sched.envs[..], e) && Room(sched.State())
      requires mail.Length == NENV
      modifies mail, sched.q0, sched.q1, sched.q2, sched.q3, sched.q0.envs, sched.q1.envs, sched.q2.envs, sched.q3.envs,
        sched.envs
      ensures sched.Valid() && Agree(envs.State(), sched.envs[..])
      ensures mail[..] == After(old(mail[..]), Ipc.Alloc(e))
      ensures var q := ParentQueue(envs.State(), Started(old(sched.State()), e).info, parent);
        && 0 <= q < MlfqSpec.MAX_QUEUES
        && sched.State() == MlfqSpec.Push(Started(old(sched.State()), e), envs.envs[e].id, q)
        && sched.State().queues == old(sched.State().queues)[q := old(sched.State().queues[q]) + [envs.envs[e].id]]
        && sched.envs[..] == old(sched.envs[..])[e := MlfqSpec.EnvInfo(Runnable, q, 0)]
      ensures mail[..] == old(mail[..])[e := old(mail[e]).(recving := false)]
    {
      hide EnvX, MlfqSpec.Push, Agree;
      ghost var s := sched.State();
      assert s.info == sched.envs[..];
      mail[e] := mail[e].(recving := false);
      sched.envs[e] := sched.envs[e].(status := Runnable, executions := 0);
      assert sched.State() == Started(s, e);
      var err, parentEnv := envs.Envid2Env(parent, false);
      var q := if err == 0 && 0 <= parentEnv < NENV then sched.envs[parentEnv].currentQueue else 0;
      StartedAgrees(envs.State(), s, e, envs.envs[e].id, q);
      sched.SchedPushEnv(envs.envs[e].id, q);
    }

    // env_alloc.
    method EnvAlloc(parent: int) returns (r: int, e: int)
      requires Valid() && Room(sched.State())
      modifies envs, envs.envs, envs.mem, envs.mem.pages, envs.mem.frames, mail
      modifies sched.q0, sched.q1, sched.q2, sched.q3, sched.q0.envs, sched.q1.envs, sched.q2.envs, sched.q3.envs,
        sched.envs
      ensures Valid()
      ensures r == 0 || r == -E_NO_FREE_ENV || r == -E_NO_MEM
      ensures r == -E_NO_FREE_ENV <==> forall s: nat :: s < NENV ==> IsLive(old(envs.State()), s)
      ensures r == -E_NO_MEM <==> r != -E_NO_FREE_ENV && old(envs.mem.g.list) == []
      ensures r != 0 ==> (
        && envs.State() == old(envs.State()) && mail[..] == old(mail[..]) && sched.State() == old(sched.State())
        && envs.mem.State() == old(envs.mem.State()))
      ensures r == 0 ==> (
        && old(envs.list) != [] && e == old(envs.list)[0] < NENV && old(envs.mem.g.list) != []
        && envs.State() == AllocStep(old(envs.State()), parent, old(envs.mem.g.list)[0])
        && mail[..] == After(old(mail[..]), Ipc.Alloc(e))
        && var q := ParentQueue(envs.State(), Started(old(sched.State()), e).info, parent);
          && 0 <= q < MlfqSpec.MAX_QUEUES
          && sched.State() == MlfqSpec.Push(Started(old(sched.State()), e), envs.envs[e].id, q)
          && sched.State().queues == old(sched.State().queues)[q := old(sched.State().queues[q]) + [envs.envs[e].id]]
          && sched.envs[..] == old(sched.envs[..])[e := MlfqSpec.EnvInfo(Runnable, q, 0)])
      ensures r == 0 ==> (
        && Created(old(envs.envs[..]), envs.envs[..], e, parent, old(envs.mem.g.list)[0])
        && envs.curenv == old(envs.curenv) && mail[..] == old(mail[..])[e := old(mail[e]).(recving := false)]
        && (IsLive(old(envs.State()), old(envs.curenv)) && parent == old(envs.envs[envs.curenv].id) ==>
            Envid2Env(envs.State(), envs.envs[e].id, true) == Found(e)))
      ensures r == 0 && Unqueued(old(sched.State()), e) ==> (
        && MlfqSpec.Booked(sched.State())
        && MlfqSpec.Entries(sched.State()) == MlfqSpec.Entries(old(sched.State())) + multiset{envs.envs[e].id})
    {
      hide Created, Envid2Env, IdOk, NextId, PhysicalMemory.State, PhysicalMemory.ValidPlus, DirsOk, TableOk,
        AllocStep, Unqueued, EnvX, Agree, AgreeBut, ParentQueue, Scheduler.State, Started, MlfqSpec.Push;
      ghost var s, t0, list := sched.State(), envs.State(), envs.list;
      ghost var d := if envs.mem.g.list == [] then -1 else envs.mem.g.list[0];
      EnvCount(t0, list);
      r, e := envs.EnvAlloc(parent);
      if r < 0 {
        return;
      }
      NewEnv(t0, list, parent, d);
      StillAgree(t0, envs.State(), sched.envs[..], e);
      assert envs.Valid();
      StartEnv(e, parent);
      assert TableOk(envs.State(), envs.list) && DirsOk(envs.State(), envs.mem.g.dirs) && envs.mem.Valid();
      assert sched.Valid() && Agree(envs.State(), sched.envs[..]);
      if Unqueued(s, e) {
        StartedBooks(s, e, envs.envs[e].id, ParentQueue(envs.State(), Started(s, e).info, parent));
      }
    }

    // env_destroy; resched tells that sched_yield is called. The entry of a freed environment stays
    // in its ring.
    method EnvDestroy(e: nat) returns (resched: bool)
      requires Valid() && IsLive(envs.State(), e)
      modifies envs, envs.envs, envs.mem, envs.mem.pages, envs.mem.frames, sched.envs
      ensures Valid() && (resched <==> old(envs.curenv) == e)
      ensures var marked := old(envs.envs[e].status) == Running && old(envs.curenv) != e;
        && envs.envs[..] == old(envs.envs[..])[e :=
            if marked then old(envs.envs[e]).(status := Dying)
            else old(envs.envs[e]).(link := old(envs.freeList), status := Free, pgdir := -1)]
        && sched.envs[..] == old(sched.envs[..])[e := old(sched.envs[e]).(status := if marked then Dying else Free)]
        && envs.curenv == (if resched then -1 else old(envs.curenv))
        && envs.freeList == (if marked then old(envs.freeList) else e)
      ensures var marked := old(envs.envs[e].status) == Running && old(envs.curenv) != e;
        && envs.State() == (
            if marked then StatusStep(old(envs.State()), e, Dying)
            else FreeStep(old(envs.State()), e).(cur := if old(envs.curenv) == e then -1 else old(envs.curenv)))
        && sched.State() == WithStatus(old(sched.State()), e, if marked then Dying else Free)
        && envs.mem.g.dirs == old(envs.mem.g.dirs) - (if marked then {} else {old(envs.envs[e].pgdir)})
        && (forall p: nat :: p in envs.mem.g.list <==>
            || p in old(envs.mem.g.list)
            || (!marked && old(Refs(envs.mem.State(), envs.mem.g, p)) != {}
                && forall s :: s in old(Refs(envs.mem.State(), envs.mem.g, p)) ==> s.d == old(envs.envs[e].pgdir)))
      ensures SameEntries(old(envs.mem.State()), envs.mem.State(), envs.mem.g.dirs)
    {
      hide TableOk, DirsOk, Agree, PhysicalMemory.State, PhysicalMemory.ValidPlus, SameEntries;
      ghost var t, s := envs.State(), sched.State();
      assert s.info == sched.envs[..];
      EnvCount(t, envs.list);
      SameMappings(envs.mem.State(), envs.mem.g.dirs);
      DestroyedAgrees(t, s.info, e);
      resched := envs.EnvDestroy(e);
      sched.envs[e] := sched.envs[e].(status := envs.envs[e].status);
      assert sched.State() == WithStatus(s, e, envs.envs[e].status);
      assert sched.envs[..] == WithStatus(s, e, envs.envs[e].status).info;
    }

    // sys_env_set_priority: whom envid names, and whether the caller may, decide.
    method SysEnvSetPriority(envid: int, priority: int) returns (r: int)
      requires Valid() && IsLive(envs.State(), envs.curenv)
      requires sched.envs[Addressee(envs.State(), envid)].currentQueue < priority < MlfqSpec.MAX_QUEUES ==>
        |sched.State().queues[priority]| < NENV
      modifies sched.q0, sched.q1, sched.q2, sched.q3, sched.q0.envs, sched.q1.envs, sched.q2.envs, sched.q3.envs,
        sched.envs
      ensures Valid()
      ensures var t, e := envs.State(), Addressee(envs.State(), envid);
        && 0 <= t.cur < |t.envs| == NENV
        && var found := Envid2Env(t, envid, false) != BadEnv;
          && old(sched.State()).info[EnvX(t.envs[e].id)].currentQueue >= 0
          && (sched.State(), r) == MlfqSpec.SetPriority(old(sched.State()), found, Owns(t, e), t.envs[e].id, priority)
          && MlfqSpec.PrioritySet(old(sched.State()), sched.State(), found, Owns(t, e), t.envs[e].id, priority, r)
    {
      hide TableOk, DirsOk, Agree, PhysicalMemory.ValidPlus, MlfqSpec.SetPriority, MlfqSpec.Booked, MlfqSpec.Entries,
        EnvX;
      hide MlfqSpec.PrioritySet;
      ghost var t, s := envs.State(), sched.State();
      EnvCount(t, envs.list);
      assert s.info == sched.envs[..];
      QueueNumbers(t, s.info);
      PriorityAgrees(t, s, envid, priority);
      if priority < 0 || priority > 3 {
        return -1;
      }
      var err, e := envs.Envid2Env(envid, false);
      if err != 0 {
        return -1;
      }
      LookupLive(t, envs.list, envid, e);
      if e != envs.curenv && envs.envs[e].parent != envs.envs[envs.curenv].id {
        return -1;
      }
      OwnSlot(t, envs.list, e);
      r := sched.SysEnvSetPriority(true, true, envs.envs[e].id, priority);
      assert sched.State().info == sched.envs[..];
    }
  }

  lemma QueueNumbers(t: Table, info: seq<MlfqSpec.EnvInfo>)
    requires Agree(t, info)
    ensures |info| == NENV && forall e :: 0 <= e < NENV ==> 0 <= info[e].currentQueue < MlfqSpec.MAX_QUEUES
  {
  }

  // sys_env_set_priority writes no status, and refuses what it should before it looks at the queue.
  lemma PriorityAgrees(t: Table, s: MlfqSpec.Sched, envid: int, priority: int)
    requires Agree(t, s.info) && MlfqSpec.Shape(s) && 0 <= t.cur < NENV
    ensures var e := Addressee(t, envid);
      var found := Envid2Env(t, envid, false) != BadEnv;
      var id := t.envs[e].id;
      && s.info[EnvX(id)].currentQueue >= 0
      && Agree(t, MlfqSpec.SetPriority(s, found, Owns(t, e), id, priority).0.info)
      && (priority < 0 || priority > 3 || !found || !Owns(t, e) ==>
            MlfqSpec.SetPriority(s, found, Owns(t, e), id, priority) == (s, -1))
      && var (s1, r) := MlfqSpec.SetPriority(s, found, Owns(t, e), id, priority);
        MlfqSpec.PrioritySet(s, s1, found, Owns(t, e), id, priority, r)
  {
    hide EnvX, Envid2Env, Addressee, MlfqSpec.PrioritySet;
    MlfqSpec.SetPriorityDoes(s, Envid2Env(t, envid, false) != BadEnv, Owns(t, Addressee(t, envid)),
                             t.envs[Addressee(t, envid)].id, priority);
  }

  lemma OwnSlot(t: Table, list: seq<nat>, e: nat)
    requires TableOk(t, list) && IsLive(t, e)
    ensures EnvX(t.envs[e].id) == e
  {
    hide Linked;
    LiveIds(t, list, e, e);
  }

  lemma DestroyedAgrees(t: Table, info: seq<MlfqSpec.EnvInfo>, e: nat)
    requires Agree(t, info) && e < NENV
    ensures Agree(StatusStep(t, e, Dying), info[e := info[e].(status := Dying)])
    ensures forall cur :: Agree(FreeStep(t, e).(cur := cur), info[e := info[e].(status := Free)])
  {
  }

  lemma StartedAgrees(t: Table, s: MlfqSpec.Sched, e: nat, id: int, q: int)
    requires MlfqSpec.Shape(s) && AgreeBut(t, s.info, e) && e < NENV && t.envs[e].status == Runnable && EnvX(id) == e
    requires 0 <= q < MlfqSpec.MAX_QUEUES
    ensures Agree(t, MlfqSpec.Push(Started(s, e), id, q).info)
  {
    hide EnvX;
  }

  // The slot that env_alloc takes, and its id.
  lemma NewEnv(t: Table, list: seq<nat>, parent: int, d: int)
    requires TableOk(t, list) && list != []
    ensures t.free == list[0] < NENV && |t.envs| == NENV
    ensures var t1 := AllocStep(t, parent, d);
      && |t1.envs| == NENV && EnvX(t1.envs[t.free].id) == t.free && t1.envs[t.free].status == Runnable
      && forall f :: 0 <= f < NENV && f != t.free ==> t1.envs[f] == t.envs[f]
  {
    hide Linked, IdOk, NextId;
    AllocKeeps(t, list, parent, d);
    NextIdOk(t.envs[t.free].id, t.free);
    NamesSlot(NextId(t.envs[t.free].id, t.free), t.free);
  }

  lemma SameMappings(m: Mem, dirs: set<nat>)
    ensures SameEntries(m, m, dirs)
  {
  }
}
