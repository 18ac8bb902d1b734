// The environment table (sched/kern/env.c, sched/inc/env.h), as values: slots, ids and the free
// list, and what an id means over whole runs.
module EnvTable {
  import opened EnvTypes
  import opened FreeList
  import opened Word32

  const ENV_GEN := 4096             // 1 << ENVGENSHIFT
  const GENERATIONS := 0x8_0000     // 2^31 / ENV_GEN
  const PERIOD := GENERATIONS - 1   // ids a slot goes through before one returns

  // link and pgdir are indices, -1 for NULL; pgdir is the frame of the page directory.
  datatype Env = Env(link: int, id: int, parent: int, status: Status, pgdir: int)

  // cur is curenv as a slot.
  datatype Table = Table(envs: seq<Env>, free: int, cur: int)

  // The id that env_alloc gives the slot whose last id was id.
  function NextId(id: int, slot: nat): int {
    var sum := Wrap32(id + ENV_GEN);
    var generation := sum - sum % NENV;
    (if generation <= 0 then ENV_GEN else generation) + slot
  }

  // 0 for a slot never used, otherwise positive, below 2^31 and naming its slot.
  predicate IdOk(id: int, slot: nat) {
    id == 0 || (id % ENV_GEN == slot && 1 <= id / ENV_GEN < GENERATIONS)
  }

  lemma NextIdOk(id: int, slot: nat)
    requires IdOk(id, slot) && slot < NENV
    ensures IdOk(NextId(id, slot), slot) && NextId(id, slot) != 0
    ensures NextId(id, slot) / ENV_GEN == if id / ENV_GEN == PERIOD then 1 else id / ENV_GEN + 1
  {
    var k := id / ENV_GEN;
    var low := id % ENV_GEN;
    assert id == k * ENV_GEN + low;
    var sum := Wrap32(id + ENV_GEN);
    assert sum == if k == PERIOD then low - 0x8000_0000 else (k + 1) * ENV_GEN + low;
    assert sum % NENV == low;
  }

  // n more allocations of the slot.
  function IdAfter(id: int, slot: nat, n: nat): int {
    if n == 0 then id else NextId(IdAfter(id, slot, n - 1), slot)
  }

  lemma {:induction false} IdAfterGeneration(id: int, slot: nat, n: nat)
    requires IdOk(id, slot) && id != 0 && slot < NENV
    ensures IdOk(IdAfter(id, slot, n), slot) && IdAfter(id, slot, n) != 0
    ensures IdAfter(id, slot, n) / ENV_GEN == (id / ENV_GEN - 1 + n) % PERIOD + 1
  {
    if n > 0 {
      IdAfterGeneration(id, slot, n - 1);
      NextIdOk(IdAfter(id, slot, n - 1), slot);
      NextModulo(id / ENV_GEN - 1 + n - 1);
      assert IdAfter(id, slot, n) == NextId(IdAfter(id, slot, n - 1), slot);
      hide IdAfter, NextId, IdOk;
    }
  }

  lemma NextModulo(x: nat)
    ensures (x + 1) % PERIOD == if x % PERIOD == PERIOD - 1 then 0 else x % PERIOD + 1
  {
  }

  lemma BackAfterPeriods(k: nat, n: nat)
    requires k < PERIOD
    ensures (k + n) % PERIOD == k <==> n % PERIOD == 0
  {
  }

  lemma SameGeneration(id: int, id1: int, slot: nat)
    requires IdOk(id, slot) && IdOk(id1, slot) && id != 0 && id1 != 0
    ensures id == id1 <==> id / ENV_GEN == id1 / ENV_GEN
  {
  }

  // An id comes back to its slot exactly after every 2^19 - 1 allocations of it.
  lemma IdCycle(id: int, slot: nat, n: nat)
    requires IdOk(id, slot) && id != 0 && slot < NENV
    ensures IdAfter(id, slot, n) == id <==> n % PERIOD == 0
  {
    IdAfterGeneration(id, slot, n);
    BackAfterPeriods(id / ENV_GEN - 1, n);
    SameGeneration(id, IdAfter(id, slot, n), slot);
  }

  // ---------------------------------------------------------------- the table

  function EnvLinks(envs: seq<Env>): (r: seq<int>)
    ensures |r| == |envs| && forall e :: 0 <= e < |envs| ==> r[e] == envs[e].link
  {
    seq(|envs|, e requires 0 <= e < |envs| => envs[e].link)
  }

  predicate IsLive(t: Table, e: int) { 0 <= e < |t.envs| && t.envs[e].status != Free }

  // The free list holds exactly the free slots, once each; every id names its slot.
  ghost predicate TableOk(t: Table, list: seq<nat>) {
    && |t.envs| == NENV
    && Linked(EnvLinks(t.envs), t.free, list)
    && (forall e: nat :: e in list <==> e < NENV && t.envs[e].status == Free)
    && (forall e: nat :: e < NENV ==> IdOk(t.envs[e].id, e))
    && (forall e: nat :: e < NENV && t.envs[e].status != Free ==> t.envs[e].id != 0)
  }

  datatype Lookup = Found(e: int) | BadEnv

  // envid2env.
  function Envid2Env(t: Table, envid: int, checkperm: bool): Lookup
    requires |t.envs| == NENV && (checkperm ==> 0 <= t.cur < NENV)
  {
    if envid == 0 then Found(t.cur)
    else
      var e := EnvX(envid);
      if t.envs[e].status == Free || t.envs[e].id != envid then BadEnv
      else if checkperm && e != t.cur && t.envs[e].parent != t.envs[t.cur].id then BadEnv
      else Found(e)
  }

  lemma NamesSlot(id: int, slot: nat)
    requires IdOk(id, slot) && id != 0 && slot < NENV
    ensures EnvX(id) == slot && 0 < id < 0x8000_0000
  {
    assert id == NENV * (4 * (id / ENV_GEN)) + slot;
    SlotPart(4 * (id / ENV_GEN), slot);
  }

  lemma SlotPart(high: int, slot: nat)
    requires slot < NENV
    ensures (NENV * high + slot) % NENV == slot
  {
  }

  // Ids of live environments are positive 32-bit numbers, name their slot, and differ.
  lemma LiveIds(t: Table, list: seq<nat>, e: nat, f: nat)
    requires TableOk(t, list) && IsLive(t, e) && IsLive(t, f)
    ensures 0 < t.envs[e].id < 0x8000_0000 && EnvX(t.envs[e].id) == e
    ensures t.envs[e].id == t.envs[f].id <==> e == f
  {
    NamesSlot(t.envs[e].id, e);
    NamesSlot(t.envs[f].id, f);
  }

  // Id 0 is the current environment. A nonzero id is accepted exactly when some live environment has
  // it, and then gives that one; with checkperm, exactly when that one is the current environment or
  // its child.
  lemma LookupMeaning(t: Table, list: seq<nat>, envid: int, e: nat, checkperm: bool)
    requires TableOk(t, list) && (checkperm ==> 0 <= t.cur < NENV)
    ensures envid == 0 ==> Envid2Env(t, envid, checkperm) == Found(t.cur)
    ensures envid != 0 ==>
      (Envid2Env(t, envid, checkperm) == Found(e) <==>
        && IsLive(t, e) && t.envs[e].id == envid
        && (checkperm ==> e == t.cur || t.envs[e].parent == t.envs[t.cur].id))
  {
    if IsLive(t, e) { LiveIds(t, list, e, e); }
  }

  // ---------------------------------------------------------------- its steps

  // The table's part of env_alloc, once the page directory is there.
  function AllocStep(t: Table, parent: int, pgdir: int): Table
    requires 0 <= t.free < |t.envs|
  {
    var e := t.free;
    t.(envs := t.envs[e := Env(t.envs[e].link, NextId(t.envs[e].id, e), parent, Runnable, pgdir)],
      free := t.envs[e].link)
  }

  // The table's part of env_free.
  function FreeStep(t: Table, e: nat): Table
    requires e < |t.envs|
  {
    t.(envs := t.envs[e := t.envs[e].(pgdir := -1, status := Free, link := t.free)], free := e)
  }

  function StatusStep(t: Table, e: nat, st: Status): Table
    requires e < |t.envs|
  {
    t.(envs := t.envs[e := t.envs[e].(status := st)])
  }

  lemma AllocKeeps(t: Table, list: seq<nat>, parent: int, pgdir: int)
    requires TableOk(t, list)
    ensures t.free == -1 <==> list == []
    ensures list != [] ==> t.free == list[0] < NENV && TableOk(AllocStep(t, parent, pgdir), list[1..])
  {
    if list != [] {
      var t1 := AllocStep(t, parent, pgdir);
      Unlink(EnvLinks(t.envs), EnvLinks(t1.envs), t.free, list);
      NextIdOk(t.envs[t.free].id, t.free);
      hide IdOk, NextId;
      assert forall e: nat :: e < NENV && e != t.free ==> t1.envs[e] == t.envs[e];
    }
  }

  // What env_alloc stores in the slot it takes, field by field; no other slot changes.
  ghost predicate Created(envs: seq<Env>, envs1: seq<Env>, e: nat, parent: int, pgdir: int) {
    && e < |envs| == |envs1| && (forall f: nat :: f < |envs| && f != e ==> envs1[f] == envs[f])
    && envs1[e].link == envs[e].link && envs1[e].parent == parent
    && envs1[e].status == Runnable && envs1[e].pgdir == pgdir
    && envs1[e].id == (if envs[e].id / 4096 == 0x7_FFFF then 1 else envs[e].id / 4096 + 1) * 4096 + e
  }

  lemma AllocCreates(t: Table, list: seq<nat>, parent: int, pgdir: int)
    requires TableOk(t, list) && list != []
    ensures t.free == list[0] < NENV && Created(t.envs, AllocStep(t, parent, pgdir).envs, t.free, parent, pgdir)
    ensures AllocStep(t, parent, pgdir).free == t.envs[t.free].link && AllocStep(t, parent, pgdir).cur == t.cur
  {
    hide Linked;
    AllocKeeps(t, list, parent, pgdir);
    var id, id1 := t.envs[t.free].id, NextId(t.envs[t.free].id, t.free);
    NextIdOk(id, t.free);
    assert id1 == id1 / ENV_GEN * ENV_GEN + id1 % ENV_GEN;
  }

  // A child that an environment creates is one it may name: its own lookup of the new id, with the
  // permission test, finds it. That is how fork reaches the child.
  lemma ChildIsFound(t: Table, list: seq<nat>, pgdir: int)
    requires TableOk(t, list) && list != [] && IsLive(t, t.cur)
    ensures 0 <= t.free < NENV
    ensures var t1 := AllocStep(t, t.envs[t.cur].id, pgdir);
      |t1.envs| == NENV && Envid2Env(t1, t1.envs[t.free].id, true) == Found(t.free)
  {
    AllocCreates(t, list, t.envs[t.cur].id, pgdir);
    AllocKeeps(t, list, t.envs[t.cur].id, pgdir);
    var t1 := AllocStep(t, t.envs[t.cur].id, pgdir);
    hide Linked, Envid2Env;
    assert t.free in list && t.free != t.cur;
    LookupMeaning(t1, list[1..], t1.envs[t.free].id, t.free, true);
  }

  lemma FreeKeeps(t: Table, list: seq<nat>, e: nat)
    requires TableOk(t, list) && IsLive(t, e)
    ensures TableOk(FreeStep(t, e), [e] + list)
  {
    hide IdOk;
    Link(EnvLinks(t.envs), EnvLinks(FreeStep(t, e).envs), t.free, list, e);
  }

  lemma StatusKeeps(t: Table, list: seq<nat>, e: nat, st: Status)
    requires TableOk(t, list) && IsLive(t, e) && st != Free
    ensures TableOk(StatusStep(t, e, st), list)
  {
    hide IdOk;
    assert EnvLinks(StatusStep(t, e, st).envs) == EnvLinks(t.envs);
  }

  // ---------------------------------------------------------------- runs

  datatype Op = Alloc(parent: int, pgdir: int) | Release(e: nat) | SetStatus(e: nat, st: Status) | Switch(cur: int)

  predicate Can(t: Table, op: Op) {
    match op
    case Alloc(_, _) => 0 <= t.free < |t.envs|
    case Release(e) => IsLive(t, e)
    case SetStatus(e, st) => IsLive(t, e) && st != Free
    case Switch(_) => true
  }

  function Do(t: Table, op: Op): Table
    requires Can(t, op)
  {
    match op
    case Alloc(parent, pgdir) => AllocStep(t, parent, pgdir)
    case Release(e) => FreeStep(t, e)
    case SetStatus(e, st) => StatusStep(t, e, st)
    case Switch(cur) => t.(cur := cur)
  }

  ghost predicate IsStep(t: Table, op: Op, t1: Table) { Can(t, op) && t1 == Do(t, op) }

  ghost predicate IsRun(ts: seq<Table>, ops: seq<Op>) {
    && |ts| == |ops| + 1
    && forall i :: 0 <= i < |ops| ==> IsStep(ts[i], ops[i], ts[i + 1])
  }

  // How many of the first n steps allocate the slot.
  ghost function Allocs(ts: seq<Table>, ops: seq<Op>, slot: nat, n: nat): nat
    requires n <= |ops| <= |ts|
  {
    if n == 0 then 0
    else Allocs(ts, ops, slot, n - 1) + if ops[n - 1].Alloc? && ts[n - 1].free == slot then 1 else 0
  }

  // Every reachable table is well formed: free slots and free list agree, ids name their slots.
  lemma {:induction false} RunKeeps(ts: seq<Table>, ops: seq<Op>, n: nat, list: seq<nat>) returns (list': seq<nat>)
    requires IsRun(ts, ops) && TableOk(ts[0], list) && n <= |ops|
    ensures TableOk(ts[n], list')
  {
    if n == 0 {
      return list;
    }
    var before := RunKeeps(ts, ops, n - 1, list);
    assert IsStep(ts[n - 1], ops[n - 1], ts[n - 1 + 1]);
    hide TableOk;
    match ops[n - 1] {
      case Alloc(parent, pgdir) => AllocKeeps(ts[n - 1], before, parent, pgdir); list' := before[1..];
      case Release(e) => FreeKeeps(ts[n - 1], before, e); list' := [e] + before;
      case SetStatus(e, st) => StatusKeeps(ts[n - 1], before, e, st); list' := before;
      case Switch(cur) => CurDoesNotMatter(ts[n - 1], before, cur); list' := before;
    }
  }

  lemma CurDoesNotMatter(t: Table, list: seq<nat>, cur: int)
    requires TableOk(t, list)
    ensures TableOk(t.(cur := cur), list)
  {
  }

  // The id of a slot is decided by how often it was allocated; a free slot becomes live only by that.
  lemma {:induction false} IdInRun(ts: seq<Table>, ops: seq<Op>, slot: nat, n: nat)
    requires IsRun(ts, ops) && |ts[0].envs| == NENV && slot < NENV && n <= |ops|
    ensures |ts[n].envs| == NENV
    ensures ts[n].envs[slot].id == IdAfter(ts[0].envs[slot].id, slot, Allocs(ts, ops, slot, n))
    ensures ts[0].envs[slot].status == Free && ts[n].envs[slot].status != Free ==> Allocs(ts, ops, slot, n) > 0
  {
    hide NextId;
    if n > 0 {
      IdInRun(ts, ops, slot, n - 1);
      assert IsStep(ts[n - 1], ops[n - 1], ts[n - 1 + 1]);
    }
  }

  // Over any run, an id that a slot once had is accepted exactly when the slot is live and has been
  // allocated a multiple of 2^19 - 1 times since.
  lemma StaleIds(ts: seq<Table>, ops: seq<Op>, list: seq<nat>, slot: nat, n: nat)
    requires IsRun(ts, ops) && TableOk(ts[0], list) && slot < NENV && n <= |ops| && ts[0].envs[slot].id != 0
    ensures |ts[n].envs| == NENV
    ensures Envid2Env(ts[n], ts[0].envs[slot].id, false) ==
      if ts[n].envs[slot].status != Free && Allocs(ts, ops, slot, n) % PERIOD == 0 then Found(slot) else BadEnv
  {
    hide IdAfter, Allocs, IdOk, NextId, EnvX, Linked, IsStep;
    var id := ts[0].envs[slot].id;
    IdInRun(ts, ops, slot, n);
    IdCycle(id, slot, Allocs(ts, ops, slot, n));
    NamesSlot(id, slot);
  }

  // So the id of a freed environment is rejected until its slot has been allocated 2^19 - 1 times.
  lemma FreedIdRejected(ts: seq<Table>, ops: seq<Op>, list: seq<nat>, slot: nat, n: nat)
    requires IsRun(ts, ops) && TableOk(ts[0], list) && slot < NENV && n <= |ops| && ts[0].envs[slot].id != 0
    requires ts[0].envs[slot].status == Free && Allocs(ts, ops, slot, n) < PERIOD
    ensures |ts[n].envs| == NENV && Envid2Env(ts[n], ts[0].envs[slot].id, false) == BadEnv
  {
    hide Allocs, IsStep, IdAfter, IdOk, Linked, EnvX;
    StaleIds(ts, ops, list, slot, n);
    IdInRun(ts, ops, slot, n);
  }
}
