// The environment manager of sched/kern/env.c: the envs array, its free list and the address
// spaces behind it, updated in place.
module EnvManager {
  import opened EnvTypes
  import opened FreeList
  import opened EnvTable
  import PageTables
  import opened Pmap

  const E_BAD_ENV := 2
  const E_NO_FREE_ENV := 5

  class Envs {
    const envs: array<Env>
    const mem: PhysicalMemory
    var freeList: int               // env_free_list
    var curenv: int                 // as a slot, -1 for NULL
    ghost var list: seq<nat>

    ghost function State(): Table
      reads this, envs
    {
      Table(envs[..], freeList, curenv)
    }

    // The page directories in use are exactly those of the live environments, one each.
    ghost predicate Valid()
      reads this, envs, mem, mem.pages, mem.frames
    {
      TableOk(State(), list) && mem.Valid() && DirsOk(State(), mem.g.dirs)
    }

    // env_init.
    constructor EnvInit(mem: PhysicalMemory)
      requires mem.Valid() && mem.g.dirs == {}
      ensures Valid() && this.mem == mem && fresh(envs) && curenv == -1
      ensures forall e: nat :: e < NENV ==> e in list
      ensures forall e: nat :: e < NENV ==> envs[e].status == Free && envs[e].id == 0
      ensures freeList == 0
    {
      this.mem := mem;
      envs := new Env[NENV](_ => Env(-1, 0, 0, Free, -1));
      freeList := 0;
      curenv := -1;
      list := seq(NENV, e requires 0 <= e < NENV => e);
      new;
      var i := 0;
      while i < NENV
        modifies envs
        invariant 0 <= i <= NENV
        invariant forall e: nat :: e < NENV ==> envs[e] == Env(if e < i then e + 1 else -1, 0, 0, Free, -1)
      {
        envs[i] := Env(i + 1, 0, envs[i].parent, Free, envs[i].pgdir);
        i := i + 1;
      }
      envs[NENV - 1] := envs[NENV - 1].(link := -1);
      InOrder(EnvLinks(envs[..]), 0);
      assert EnvLinks(State().envs) == EnvLinks(envs[..]);
      assert list == seq(NENV - 0, e requires 0 <= e < NENV - 0 => e + 0);
      assert forall e: nat :: e < NENV ==> State().envs[e] == Env(if e == NENV - 1 then -1 else e + 1, 0, 0, Free, -1);
      forall e: nat ensures e in list <==> e < NENV {
        if e < NENV { assert list[e] == e; }
      }
    }

    // envid2env.
    method Envid2Env(envid: int, checkperm: bool) returns (r: int, e: int)
      requires envs.Length == NENV && (checkperm ==> 0 <= curenv < NENV)
      ensures r == 0 || r == -E_BAD_ENV
      ensures EnvTable.Envid2Env(State(), envid, checkperm) == if r == 0 then Found(e) else BadEnv
      ensures r != 0 ==> e == -1
    {
      if envid == 0 {
        return 0, curenv;
      }
      e := EnvX(envid);
      if envs[e].status == Free || envs[e].id != envid {
        return -E_BAD_ENV, -1;
      }
      if checkperm && e != curenv && envs[e].parent != envs[curenv].id {
        return -E_BAD_ENV, -1;
      }
      return 0, e;
    }

    // env_alloc: the slot at the head of the free list, with a new id and an empty address space.
    method EnvAlloc(parent: int) returns (r: int, e: int)
      requires Valid()
      modifies this, envs, mem, mem.pages, mem.frames
      ensures Valid()
      ensures r == 0 || r == -E_NO_FREE_ENV || r == -E_NO_MEM
      ensures r == -E_NO_FREE_ENV <==> forall s: nat :: s < NENV ==> IsLive(old(State()), s)
      ensures r == -E_NO_MEM <==> r != -E_NO_FREE_ENV && old(mem.g.list) == []
      ensures r != 0 ==> State() == old(State()) && mem.State() == old(mem.State()) && mem.g == old(mem.g)
      ensures r == 0 ==> (
        && old(list) != [] && e == old(list)[0] && list == old(list)[1..]
        && old(mem.g.list) != [] && State() == AllocStep(old(State()), parent, old(mem.g.list)[0])
        && Created(old(envs[..]), envs[..], e, parent, old(mem.g.list)[0])
        && freeList == old(envs[e].link) && curenv == old(curenv)
        && (IsLive(old(State()), old(curenv)) && parent == old(envs[curenv].id) ==>
            EnvTable.Envid2Env(State(), envs[e].id, true) == Found(e))
        && mem.g == PageTables.Ghost(old(mem.g.list)[1..], old(mem.g.dirs) + {old(mem.g.list)[0]})
        && forall i: nat, j: nat :: i < PageTables.USER_PDES && j < PageTables.NPTENTRIES ==>
          PageTables.Entry(mem.State(), envs[e].pgdir, i, j) == 0)
      ensures PageTables.SameEntries(old(mem.State()), mem.State(), old(mem.g.dirs))
    {
      hide PhysicalMemory.State, PhysicalMemory.ValidPlus, IdOk, NextId, Created;
      ghost var t := State();
      if list != [] && mem.g.list != [] {
        AllocCreates(t, list, parent, mem.g.list[0]);
        if IsLive(t, curenv) { ChildIsFound(t, list, mem.g.list[0]); }
      }
      AllocKeeps(t, list, parent, if mem.g.list == [] then -1 else mem.g.list[0]);
      e := freeList;
      if e == -1 {
        return -E_NO_FREE_ENV, -1;
      }
      assert e in list && !IsLive(t, e);
      ghost var dirs := mem.g.dirs;
      var d := mem.EnvSetupVm();
      if d == -1 {
        return -E_NO_MEM, -1;
      }
      AllocDirs(t, list, dirs, parent, d);
      envs[e] := Env(envs[e].link, NextId(envs[e].id, e), parent, Runnable, d);
      freeList := envs[e].link;
      list := list[1..];
      assert State() == AllocStep(t, parent, d);
      return 0, e;
    }

    // env_free, for any live e. Exactly the pages that only e referenced become free; the
    // translations of all others stay; the slot goes to the head of the free list.
    method EnvFree(e: nat)
      requires Valid() && IsLive(State(), e)
      modifies this, envs, mem, mem.pages, mem.frames
      ensures Valid() && State() == FreeStep(old(State()), e) && list == [e] + old(list)
      ensures freeList == e && curenv == old(curenv)
      ensures envs[..] == old(envs[..])[e := old(envs[e]).(link := old(freeList), status := Free, pgdir := -1)]
      ensures mem.g.dirs == old(mem.g.dirs) - {old(envs[e].pgdir)}
      ensures forall p: nat :: p in mem.g.list <==>
        || p in old(mem.g.list)
        || (old(PageTables.Refs(mem.State(), mem.g, p)) != {}
            && forall s :: s in old(PageTables.Refs(mem.State(), mem.g, p)) ==> s.d == old(envs[e].pgdir))
      ensures PageTables.SameEntries(old(mem.State()), mem.State(), mem.g.dirs)
    {
      hide PhysicalMemory.State, PhysicalMemory.ValidPlus, IdOk;
      ghost var t, dirs := State(), mem.g.dirs;
      FreeKeeps(t, list, e);
      FreeDirs(t, dirs, e);
      var d := envs[e].pgdir;
      envs[e] := envs[e].(pgdir := -1);
      mem.EnvFree(d);
      envs[e] := envs[e].(status := Free, link := freeList);
      freeList := e;
      list := [e] + list;
      assert State() == FreeStep(t, e);
    }

    // env_destroy; resched tells that sched_yield is called. An environment that another CPU runs is
    // only marked.
    method EnvDestroy(e: nat) returns (resched: bool)
      requires Valid() && IsLive(State(), e)
      modifies this, envs, mem, mem.pages, mem.frames
      ensures Valid()
      ensures resched <==> old(curenv) == e
      ensures old(envs[e].status) == Running && old(curenv) != e ==>
        envs[..] == old(envs[..])[e := old(envs[e]).(status := Dying)] && freeList == old(freeList) &&
          curenv == old(curenv)
      ensures !(old(envs[e].status) == Running && old(curenv) != e) ==> (
        && envs[..] == old(envs[..])[e := old(envs[e]).(link := old(freeList), status := Free, pgdir := -1)]
        && freeList == e && curenv == if old(curenv) == e then -1 else old(curenv))
      ensures old(envs[e].status) == Running && old(curenv) != e ==> (
        && State() == StatusStep(old(State()), e, Dying) && list == old(list)
        && mem.State() == old(mem.State()) && mem.g == old(mem.g))
      ensures !(old(envs[e].status) == Running && old(curenv) != e) ==> (
        && State() == FreeStep(old(State()), e).(cur := if old(curenv) == e then -1 else old(curenv))
        && list == [e] + old(list) && mem.g.dirs == old(mem.g.dirs) - {old(envs[e].pgdir)}
        && (forall p: nat :: p in mem.g.list <==>
            || p in old(mem.g.list)
            || (old(PageTables.Refs(mem.State(), mem.g, p)) != {}
                && forall s :: s in old(PageTables.Refs(mem.State(), mem.g, p)) ==> s.d == old(envs[e].pgdir))))
      ensures PageTables.SameEntries(old(mem.State()), mem.State(), mem.g.dirs)
    {
      hide PhysicalMemory.State, PhysicalMemory.ValidPlus, IdOk, TableOk, DirsOk;
      ghost var t := State();
      if envs[e].status == Running && curenv != e {
        StatusKeeps(t, list, e, Dying);
        StatusDirs(t, mem.g.dirs, e, Dying);
        envs[e] := envs[e].(status := Dying);
        assert State() == StatusStep(t, e, Dying);
        return false;
      }
      EnvFree(e);
      if curenv == e {
        CurDoesNotMatter(State(), list, -1);
        CurDirs(State(), mem.g.dirs, -1);
        curenv := -1;
        return true;
      }
      return false;
    }
  }

  ghost predicate DirsOk(t: Table, dirs: set<nat>) {
    && (forall e: nat :: IsLive(t, e) ==> t.envs[e].pgdir in dirs)
    && (forall d :: d in dirs ==> exists e: nat :: IsLive(t, e) && t.envs[e].pgdir == d)
    && (forall e: nat, f: nat :: IsLive(t, e) && IsLive(t, f) && t.envs[e].pgdir == t.envs[f].pgdir ==> e == f)
  }

  lemma AllocDirs(t: Table, list: seq<nat>, dirs: set<nat>, parent: int, d: nat)
    requires TableOk(t, list) && 0 <= t.free < |t.envs| && !IsLive(t, t.free) && DirsOk(t, dirs) && d !in dirs
    ensures DirsOk(AllocStep(t, parent, d), dirs + {d})
  {
    hide TableOk, NextId;
    var t1 := AllocStep(t, parent, d);
    assert forall f: nat :: f != t.free ==>
      (IsLive(t1, f) <==> IsLive(t, f)) && (IsLive(t, f) ==> t1.envs[f] == t.envs[f]);
    assert IsLive(t1, t.free) && t1.envs[t.free].pgdir == d;
    forall d' | d' in dirs + {d} ensures exists f: nat :: IsLive(t1, f) && t1.envs[f].pgdir == d' {
      if d' in dirs {
        var f: nat :| IsLive(t, f) && t.envs[f].pgdir == d';
        assert IsLive(t1, f) && t1.envs[f].pgdir == d';
      }
    }
  }

  lemma FreeDirs(t: Table, dirs: set<nat>, e: nat)
    requires IsLive(t, e) && DirsOk(t, dirs)
    ensures DirsOk(FreeStep(t, e), dirs - {t.envs[e].pgdir})
  {
    var t1 := FreeStep(t, e);
    assert forall f: nat :: IsLive(t1, f) <==> IsLive(t, f) && f != e;
    forall d | d in dirs - {t.envs[e].pgdir} ensures exists f: nat :: IsLive(t1, f) && t1.envs[f].pgdir == d {
      var f: nat :| IsLive(t, f) && t.envs[f].pgdir == d;
      assert IsLive(t1, f) && t1.envs[f].pgdir == d;
    }
  }

  lemma CurDirs(t: Table, dirs: set<nat>, cur: int)
    requires DirsOk(t, dirs)
    ensures DirsOk(t.(cur := cur), dirs)
  {
    var t1 := t.(cur := cur);
    assert forall e: nat :: IsLive(t1, e) <==> IsLive(t, e);
  }

  lemma StatusDirs(t: Table, dirs: set<nat>, e: nat, st: Status)
    requires IsLive(t, e) && st != Free && DirsOk(t, dirs)
    ensures DirsOk(StatusStep(t, e, st), dirs)
  {
    var t1 := StatusStep(t, e, st);
    assert forall f: nat :: (IsLive(t1, f) <==> IsLive(t, f)) && (IsLive(t, f) ==> t1.envs[f].pgdir == t.envs[f].pgdir);
    forall d | d in dirs ensures exists f: nat :: IsLive(t1, f) && t1.envs[f].pgdir == d {
      var f: nat :| IsLive(t, f) && t.envs[f].pgdir == d;
      assert IsLive(t1, f) && t1.envs[f].pgdir == d;
    }
  }

  lemma DirOf(t: Table, dirs: set<nat>, e: nat)
    requires DirsOk(t, dirs) && IsLive(t, e)
    ensures t.envs[e].pgdir in dirs
  {
  }

  // The free list that env_init makes: the slots in order.
  lemma {:induction false} InOrder(links: seq<int>, from: nat)
    requires |links| == NENV && from <= NENV
    requires forall e: nat :: e < NENV ==> links[e] == if e == NENV - 1 then -1 else e + 1
    ensures Linked(links, if from == NENV then -1 else from,
                   seq(NENV - from, e requires 0 <= e < NENV - from => e + from))
    decreases NENV - from
  {
    var list := seq(NENV - from, e requires 0 <= e < NENV - from => e + from);
    if from < NENV {
      InOrder(links, from + 1);
      assert list[1..] == seq(NENV - (from + 1), e requires 0 <= e < NENV - (from + 1) => e + (from + 1));
      assert from !in list[1..];
    }
  }
}
