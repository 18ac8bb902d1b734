// Who runs in the kernel and who runs which environment, on several CPUs under the one kernel lock:
// spin_lock and spin_unlock (sched/kern/spinlock.c), trap (sched/kern/trap.c), env_run and
// env_destroy (sched/kern/env.c), sched_halt (sched/kern/sched.c) and the system calls that change
// statuses (sched/kern/syscall.c), as a state machine over single CPU steps.
module Smp {
  import opened EnvTypes

  // Where a CPU is. user tells a trap from user mode from a wake-up of a halted or booting CPU.
  datatype Mode =
    | User                      // running its environment
    | Halted                    // in the hlt loop, or an AP before its first lock_kernel
    | Spin(user: bool)          // in spin_lock, before the xchg that finds the lock free
    | Record(user: bool)        // the xchg succeeded, lk->cpu not yet written
    | Entry(user: bool)         // lock taken
    | Dispatch                  // trap_dispatch
    | Return                    // the end of trap
    | Schedule                  // sched_yield
    | Unlock(run: bool)         // in env_run (run) or sched_halt, about to call unlock_kernel
    | Drop(run: bool)           // in spin_unlock, lk->cpu cleared, lock still taken
    | Leaving                   // in env_run, after unlock_kernel

  // env is cpu_env as a slot, -1 for NULL.
  datatype Cpu = Cpu(mode: Mode, env: int)

  // struct spinlock; cpu is -1 for NULL.
  datatype Lock = Lock(locked: bool, cpu: int)

  datatype State = State(lock: Lock, cpus: seq<Cpu>, status: seq<Status>, recving: seq<bool>, cpunum: seq<int>)

  predicate HoldsLock(m: Mode) {
    m.Record? || m.Entry? || m.Dispatch? || m.Return? || m.Schedule? || m.Unlock? || m.Drop?
  }

  // holding() of the debugging build.
  predicate Holding(s: State, c: nat) { s.lock.locked && s.lock.cpu == c }

  datatype Action =
    | Trap                      // a trap or interrupt, from user mode or out of hlt
    | Xchg                      // one round of the spin loop
    | SetOwner                  // lk->cpu = thiscpu
    | EnterTrap                 // zombie collection, or on to the dispatch
    | Exofork(e: nat)
    | SetStatus(e: nat, runnable: bool)
    | Destroy(e: nat)
    | Recv
    | RecvBadAddress
    | Send(e: nat)
    | Yield
    | OtherTrap
    | ReturnFromTrap
    | Pick(e: nat)              // env_run(e) from the scheduler
    | Halt                      // sched_halt
    | ClearOwner                // lk->cpu = 0
    | Release                   // the xchg of spin_unlock
    | Leave                     // env_cpunum, then user mode

  function SetCpu(s: State, c: nat, mode: Mode, env: int): State
    requires c < |s.cpus|
  {
    s.(cpus := s.cpus[c := Cpu(mode, env)])
  }

  function SetSt(s: State, e: nat, st: Status): State
    requires e < |s.status|
  {
    s.(status := s.status[e := st])
  }

  predicate IsEnv(s: State, e: int) { 0 <= e < |s.status| }

  predicate Shape(s: State) {
    && |s.recving| == |s.status| == |s.cpunum|
    && forall c :: 0 <= c < |s.cpus| ==> s.cpus[c].env == -1 || IsEnv(s, s.cpus[c].env)
  }

  // When a CPU can take an action. The panics of the C code are not among the conditions: that
  // they cannot happen is proved below. The scheduler may pick any runnable environment, or keep
  // the running one, or halt.
  predicate Enabled(s: State, c: nat, a: Action) {
    && c < |s.cpus| && Shape(s)
    && var m, cur := s.cpus[c].mode, s.cpus[c].env;
      match a
      case Trap => m.User? || m.Halted?
      case Xchg => m.Spin?
      case SetOwner => m.Record?
      case EnterTrap => m.Entry? && (m.user ==> cur != -1)
      case Exofork(e) => m.Dispatch? && IsEnv(s, e) && s.status[e] == Free
      case SetStatus(e, _) => m.Dispatch? && IsEnv(s, e) && s.status[e] != Free
      case Destroy(e) => m.Dispatch? && IsEnv(s, e) && s.status[e] != Free
      case Recv => m.Dispatch? && cur != -1
      case RecvBadAddress => m.Dispatch? && cur != -1
      case Send(e) => m.Dispatch? && IsEnv(s, e) && s.status[e] != Free && s.recving[e]
      case Yield => m.Dispatch?
      case OtherTrap => m.Dispatch?
      case ReturnFromTrap => m.Return?
      case Pick(e) => m.Schedule? && IsEnv(s, e) && (s.status[e] == Runnable || (e == cur && s.status[e] == Running))
      case Halt => m.Schedule?
      case ClearOwner => m.Unlock?
      case Release => m.Drop?
      case Leave => m.Leaving? && cur != -1
  }

  // env_run up to unlock_kernel.
  function EnvRun(s: State, c: nat, e: nat): State
    requires c < |s.cpus| && e < |s.status| && Shape(s)
  {
    var cur := s.cpus[c].env;
    var s1 := if cur != -1 && s.status[cur] == Running then SetSt(s, cur, Runnable) else s;
    SetCpu(SetSt(s1, e, Running), c, Unlock(true), e)
  }

  function Exec(s: State, c: nat, a: Action): State
    requires Enabled(s, c, a)
  {
    var m, cur := s.cpus[c].mode, s.cpus[c].env;
    match a
    case Trap => SetCpu(s, c, Spin(m.User?), cur)
    case Xchg => if s.lock.locked then s else SetCpu(s.(lock := s.lock.(locked := true)), c, Record(m.user), cur)
    case SetOwner => SetCpu(s.(lock := s.lock.(cpu := c)), c, Entry(m.user), cur)
    case EnterTrap =>
      if !m.user then SetCpu(s, c, Schedule, cur)
      else if s.status[cur] == Dying then SetCpu(SetSt(s, cur, Free), c, Schedule, -1)
      else SetCpu(s, c, Dispatch, cur)
    case Exofork(e) => SetCpu(SetSt(s, e, NotRunnable).(recving := s.recving[e := false]), c, Return, cur)
    case SetStatus(e, runnable) => SetCpu(SetSt(s, e, if runnable then Runnable else NotRunnable), c, Return, cur)
    case Destroy(e) =>
      if s.status[e] == Running && cur != e then SetCpu(SetSt(s, e, Dying), c, Return, cur)
      else if cur == e then SetCpu(SetSt(s, e, Free), c, Schedule, -1)
      else SetCpu(SetSt(s, e, Free), c, Return, cur)
    case Recv => SetCpu(SetSt(s, cur, NotRunnable).(recving := s.recving[cur := true]), c, Schedule, cur)
    case RecvBadAddress => SetCpu(s.(recving := s.recving[cur := true]), c, Return, cur)
    case Send(e) => SetCpu(SetSt(s, e, Runnable).(recving := s.recving[e := false]), c, Return, cur)
    case Yield => SetCpu(s, c, Schedule, cur)
    case OtherTrap => SetCpu(s, c, Return, cur)
    case ReturnFromTrap => if cur != -1 && s.status[cur] == Running then EnvRun(s, c, cur)
      else SetCpu(s, c, Schedule, cur)
    case Pick(e) => EnvRun(s, c, e)
    case Halt => SetCpu(s, c, Unlock(false), -1)
    case ClearOwner => SetCpu(s.(lock := s.lock.(cpu := -1)), c, Drop(m.run), cur)
    case Release => SetCpu(s.(lock := s.lock.(locked := false)), c, if m.run then Leaving else Halted, cur)
    case Leave => SetCpu(s.(cpunum := s.cpunum[cur := c]), c, User, cur)
  }

  // ---------------------------------------------------------------- what a step does, told by what it changes

  // env_run: chosen by the scheduler, or going on after a trap.
  ghost predicate Runs(s: State, c: nat, a: Action, e: nat)
    requires Enabled(s, c, a)
  {
    a == Pick(e) || (a.ReturnFromTrap? && s.cpus[c].env == e && IsEnv(s, e) && s.status[e] == Running)
  }

  // The zombie that a trap from user mode collects.
  ghost predicate Collects(s: State, c: nat, a: Action, e: nat)
    requires Enabled(s, c, a)
  {
    a.EnterTrap? && s.cpus[c].mode.user && s.cpus[c].env == e && s.status[e] == Dying
  }

  // An environment becomes runnable by set_status, by a message, or because its CPU runs another one;
  // not runnable when it is created, by set_status and by a good sys_ipc_recv; dying when it is
  // destroyed while it runs elsewhere; free when it is destroyed otherwise or collected.
  lemma StatusEffect(s: State, c: nat, a: Action, e: nat)
    requires Enabled(s, c, a) && e < |s.status|
    ensures e < |Exec(s, c, a).status| && e < |s.recving|
    ensures var st, st1, cur := s.status[e], Exec(s, c, a).status[e], s.cpus[c].env;
      && (a == Exofork(e) ==> st == Free)
      && (a == SetStatus(e, true) || a == SetStatus(e, false) || a == Send(e) || a == Destroy(e) ==> st != Free)
      && (a == Send(e) ==> s.recving[e]) && (a == Pick(e) ==> st == Runnable || (cur == e && st == Running))
      && (Runs(s, c, a, e) ==> st1 == Running)
      && (a == SetStatus(e, true) || a == Send(e) || (a.Pick? && a.e != e && cur == e && st == Running) ==>
        st1 == Runnable)
      && (a == Exofork(e) || a == SetStatus(e, false) || (a == Recv && cur == e) ==> st1 == NotRunnable)
      && (a == Destroy(e) && st == Running && cur != e ==> st1 == Dying)
      && ((a == Destroy(e) && !(st == Running && cur != e)) || Collects(s, c, a, e) ==> st1 == Free)
      && (st1 != st ==>
        a.EnterTrap? || a.Recv? || a.Pick? || ((a.Exofork? || a.SetStatus? || a.Destroy? || a.Send?) && a.e == e))
      && (st1 != st && a.EnterTrap? ==> Collects(s, c, a, e))
      && (st1 != st && a.Recv? ==> cur == e)
      && (st1 != st && a.Pick? ==> a.e == e || (cur == e && st == Running))
  {
  }

  // The IPC flag and env_cpunum.
  lemma FlagEffect(s: State, c: nat, a: Action, e: nat)
    requires Enabled(s, c, a) && e < |s.status|
    ensures var s1, cur := Exec(s, c, a), s.cpus[c].env;
      && e < |s.recving| == |s1.recving| && e < |s.cpunum| == |s1.cpunum|
      && s1.recving[e] == (
          if a == Exofork(e) || a == Send(e) then false
          else if (a == Recv || a == RecvBadAddress) && cur == e then true
          else s.recving[e])
      && s1.cpunum[e] == if a == Leave && cur == e then c else s.cpunum[e]
  {
  }

  // Where the CPU goes on, and with whom.
  lemma ModeEffect(s: State, c: nat, a: Action)
    requires Enabled(s, c, a)
    ensures var cpu := s.cpus[c];
      var cur, gone := cpu.env, a.EnterTrap? && cpu.mode.user && s.status[cpu.env] == Dying;
      && c < |Exec(s, c, a).cpus|
      && var cpu1 := Exec(s, c, a).cpus[c];
      && cpu1.env == (if gone || a == Halt || (a.Destroy? && a.e == cur) then -1 else if a.Pick? then a.e else cur)
      && (cpu1.mode.User? <==> a == Leave) && (cpu1.mode.Leaving? <==> a == Release && cpu.mode.run)
      && (cpu1.mode.Halted? <==> a == Release && !cpu.mode.run)
      && (cpu1.mode.Spin? <==> a == Trap || (a == Xchg && s.lock.locked))
      && (a == Trap ==> cpu1.mode.user == cpu.mode.User?)
      && (cpu1.mode.Record? <==> a == Xchg && !s.lock.locked) && (cpu1.mode.Entry? <==> a == SetOwner)
      && (a == Xchg || a == SetOwner ==> cpu1.mode.user == cpu.mode.user)
      && (cpu1.mode == Dispatch <==> a == EnterTrap && cpu.mode.user && !gone)
      && (cpu1.mode == Return <==>
          || a.Exofork? || a.SetStatus? || a.Send? || a == RecvBadAddress || a == OtherTrap
          || (a.Destroy? && a.e != cur))
      && (cpu1.mode == Schedule <==>
          || a == Yield || a == Recv || gone || (a == EnterTrap && !cpu.mode.user) || (a.Destroy? && a.e == cur)
          || (a == ReturnFromTrap && !(cur != -1 && s.status[cur] == Running)))
      && (cpu1.mode.Unlock? <==> a.Pick? || a == Halt || (a == ReturnFromTrap && cur != -1 && s.status[cur] == Running))
      && (cpu1.mode.Unlock? ==> cpu1.mode.run == (a != Halt))
      && (cpu1.mode.Drop? <==> a == ClearOwner) && (a == ClearOwner ==> cpu1.mode.run == cpu.mode.run)
  {
  }

  // ---------------------------------------------------------------- invariant

  ghost predicate AtMostOneInKernel(s: State) {
    forall c, d :: 0 <= c < d < |s.cpus| ==> !(HoldsLock(s.cpus[c].mode) && HoldsLock(s.cpus[d].mode))
  }

  ghost predicate NoSharedEnv(s: State) {
    forall c, d :: 0 <= c < d < |s.cpus| && s.cpus[c].env != -1 ==> s.cpus[c].env != s.cpus[d].env
  }

  // Outside the kernel a CPU's environment is running, or dying if someone else destroyed it.
  ghost predicate OwnsEnv(s: State, cpu: Cpu) {
    IsEnv(s, cpu.env) && (s.status[cpu.env] == Running || s.status[cpu.env] == Dying)
  }

  ghost predicate CpuOk(s: State, cpu: Cpu) {
    match cpu.mode
    case User => OwnsEnv(s, cpu)
    case Leaving => OwnsEnv(s, cpu)
    case Spin(user) => if user then OwnsEnv(s, cpu) else cpu.env == -1
    case Record(user) => if user then OwnsEnv(s, cpu) else cpu.env == -1
    case Entry(user) => if user then OwnsEnv(s, cpu) else cpu.env == -1
    case Dispatch => IsEnv(s, cpu.env) && s.status[cpu.env] == Running
    case Return => cpu.env == -1 || (IsEnv(s, cpu.env) && s.status[cpu.env] != Dying && s.status[cpu.env] != Free)
    case Schedule => cpu.env == -1 || (IsEnv(s, cpu.env) && s.status[cpu.env] != Dying && s.status[cpu.env] != Free)
    case Unlock(run) => if run then IsEnv(s, cpu.env) && s.status[cpu.env] == Running else cpu.env == -1
    case Drop(run) => if run then IsEnv(s, cpu.env) && s.status[cpu.env] == Running else cpu.env == -1
    case Halted => cpu.env == -1
  }

  ghost predicate LockOk(s: State) {
    && (s.lock.locked <==> exists c :: 0 <= c < |s.cpus| && HoldsLock(s.cpus[c].mode))
    && AtMostOneInKernel(s)
    && forall c :: 0 <= c < |s.cpus| ==>
      (s.lock.cpu == c <==> HoldsLock(s.cpus[c].mode) && !s.cpus[c].mode.Record? && !s.cpus[c].mode.Drop?)
  }

  ghost predicate Inv(s: State) {
    && Shape(s) && LockOk(s) && NoSharedEnv(s)
    && forall c :: 0 <= c < |s.cpus| ==> CpuOk(s, s.cpus[c])
  }

  // Environment e is the current environment of a CPU other than c.
  ghost predicate Elsewhere(s: State, c: nat, e: int) {
    exists d :: 0 <= d < |s.cpus| && d != c && s.cpus[d].env == e
  }

  // What the kernel does not check before three of its status changes.
  ghost predicate Disciplined(s: State, c: nat, a: Action) {
    match a
    case SetStatus(e, _) => !Elsewhere(s, c, e)
    case Send(e) => !Elsewhere(s, c, e)
    case Destroy(e) => !(Elsewhere(s, c, e) && IsEnv(s, e) && s.status[e] == Dying)
    case _ => true
  }

  // Recorded in the lock as its owner.
  predicate Owner(m: Mode) { HoldsLock(m) && !m.Record? && !m.Drop? }

  // A step changes at most the acting CPU's mode and environment, and the lock only together with
  // that CPU's standing: it takes a free lock, signs it, strikes its name out, or gives it back.
  lemma LockEffect(s: State, c: nat, a: Action)
    requires Enabled(s, c, a)
    ensures var s1 := Exec(s, c, a);
      && |s1.cpus| == |s.cpus| && (forall d :: 0 <= d < |s.cpus| && d != c ==> s1.cpus[d] == s.cpus[d])
      && var m, m1 := s.cpus[c].mode, s1.cpus[c].mode;
        || (s1.lock == s.lock && HoldsLock(m1) == HoldsLock(m) && Owner(m1) == Owner(m))
        || (!s.lock.locked && s1.lock == Lock(true, s.lock.cpu) && !HoldsLock(m) && m1.Record?)
        || (m.Record? && s1.lock == Lock(s.lock.locked, c) && Owner(m1))
        || (Owner(m) && s1.lock == Lock(s.lock.locked, -1) && m1.Drop?)
        || (m.Drop? && s1.lock == Lock(false, s.lock.cpu) && !HoldsLock(m1))
  {
  }

  lemma LockStays(s: State, c: nat, a: Action)
    requires Inv(s) && Enabled(s, c, a)
    ensures LockOk(Exec(s, c, a))
  {
    hide Exec, Enabled, HoldsLock, CpuOk, NoSharedEnv;
    assert c < |s.cpus| by { InRange(s, c, a); }
    LockEffect(s, c, a);
    var s1 := Exec(s, c, a);
    Holders();
    if s1.lock.locked && !HoldsLock(s1.cpus[c].mode) {
      var d :| 0 <= d < |s.cpus| && HoldsLock(s.cpus[d].mode);
      assert HoldsLock(s1.cpus[d].mode);
    }
  }

  lemma InRange(s: State, c: nat, a: Action)
    requires Enabled(s, c, a)
    ensures c < |s.cpus|
  {
  }

  lemma Holders()
    ensures forall m: Mode :: m.Record? || m.Drop? ==> HoldsLock(m)
  {
  }

  // Two CPUs have different environments and are not both in the kernel.
  lemma Apart(s: State, c: nat, d: nat)
    requires Inv(s) && c < |s.cpus| && d < |s.cpus| && c != d
    ensures s.cpus[c].env != -1 ==> s.cpus[c].env != s.cpus[d].env
    ensures !(HoldsLock(s.cpus[c].mode) && HoldsLock(s.cpus[d].mode))
  {
  }

  // Nobody else's CPU is disturbed: the statuses that a kernel step writes belong to no other CPU.
  lemma OthersStay(s: State, c: nat, a: Action, d: nat)
    requires Inv(s) && Enabled(s, c, a) && Disciplined(s, c, a) && d < |s.cpus| && d != c
    ensures Exec(s, c, a).cpus[d] == s.cpus[d] && CpuOk(Exec(s, c, a), s.cpus[d])
    ensures Exec(s, c, a).cpus[c].env != -1 ==> Exec(s, c, a).cpus[c].env != s.cpus[d].env
  {
    hide LockOk, NoSharedEnv;
    assert CpuOk(s, s.cpus[d]) && CpuOk(s, s.cpus[c]);
    Apart(s, c, d);
  }

  lemma SelfStays(s: State, c: nat, a: Action)
    requires Inv(s) && Enabled(s, c, a)
    ensures Shape(Exec(s, c, a)) && CpuOk(Exec(s, c, a), Exec(s, c, a).cpus[c])
  {
    hide LockOk, NoSharedEnv;
    assert CpuOk(s, s.cpus[c]);
  }

  // A disciplined step keeps the invariant.
  lemma StepKeeps(s: State, c: nat, a: Action)
    requires Inv(s) && Enabled(s, c, a) && Disciplined(s, c, a)
    ensures Inv(Exec(s, c, a))
  {
    hide LockOk, CpuOk, Exec, Enabled, HoldsLock, Owner;
    InRange(s, c, a);
    LockEffect(s, c, a);
    LockStays(s, c, a);
    SelfStays(s, c, a);
    forall d | 0 <= d < |s.cpus| && d != c
      ensures Exec(s, c, a).cpus[d] == s.cpus[d] && CpuOk(Exec(s, c, a), s.cpus[d])
      ensures Exec(s, c, a).cpus[c].env != -1 ==> Exec(s, c, a).cpus[c].env != s.cpus[d].env
    {
      OthersStay(s, c, a, d);
    }
  }

  // And only those do: the three unchecked status changes break the invariant whenever they are
  // not disciplined.
  lemma DisciplineIsExact(s: State, c: nat, a: Action)
    requires Inv(s) && Enabled(s, c, a)
    ensures Inv(Exec(s, c, a)) <==> Disciplined(s, c, a)
  {
    if Disciplined(s, c, a) {
      StepKeeps(s, c, a);
    } else {
      var s1, e := Exec(s, c, a), a.e;
      var d :| 0 <= d < |s.cpus| && d != c && s.cpus[d].env == e;
      assert s1.cpus[d] == s.cpus[d];
      assert !HoldsLock(s.cpus[d].mode) by { assert HoldsLock(s.cpus[c].mode); }
      assert !CpuOk(s1, s1.cpus[d]);
    }
  }

  ghost predicate EnabledAll(s: State, c: nat, acts: seq<Action>)
    decreases |acts|
  {
    acts == [] || (Enabled(s, c, acts[0]) && EnabledAll(Exec(s, c, acts[0]), c, acts[1..]))
  }

  ghost function ExecAll(s: State, c: nat, acts: seq<Action>): State
    requires EnabledAll(s, c, acts)
    decreases |acts|
  {
    if acts == [] then s else ExecAll(Exec(s, c, acts[0]), c, acts[1..])
  }

  lemma ExecOne(s: State, c: nat, a: Action, rest: seq<Action>)
    requires Enabled(s, c, a) && EnabledAll(Exec(s, c, a), c, rest)
    ensures EnabledAll(s, c, [a] + rest) && ExecAll(s, c, [a] + rest) == ExecAll(Exec(s, c, a), c, rest)
  {
    assert ([a] + rest)[1..] == rest;
  }

  lemma ExecLast(s: State, c: nat, a: Action)
    requires Enabled(s, c, a)
    ensures EnabledAll(s, c, [a]) && ExecAll(s, c, [a]) == Exec(s, c, a)
  {
    hide Exec, Enabled;
    assert [a][1..] == [];
  }

  lemma {:induction false} ExecAppend(s: State, c: nat, first: seq<Action>, rest: seq<Action>)
    requires EnabledAll(s, c, first) && EnabledAll(ExecAll(s, c, first), c, rest)
    ensures EnabledAll(s, c, first + rest) && ExecAll(s, c, first + rest) == ExecAll(ExecAll(s, c, first), c, rest)
    decreases |first|
  {
    if first == [] {
      assert first + rest == rest;
      return;
    }
    ExecAppend(Exec(s, c, first[0]), c, first[1..], rest);
    assert (first + rest)[1..] == first[1..] + rest;
    assert first + rest == [first[0]] + (first[1..] + rest);
    ExecOne(s, c, first[0], first[1..] + rest);
  }

  // CPU c is in mode m with a running environment, CPU d with another one, e, that is marked
  // runnable.
  ghost predicate Armed(s: State, c: nat, d: nat, e: nat, m: Mode) {
    && Shape(s) && c < |s.cpus| && d < |s.cpus| && c != d && s.lock.locked == HoldsLock(m)
    && s.cpus[d].env == e && IsEnv(s, e) && s.status[e] == Runnable
    && s.cpus[c].mode == m && s.cpus[c].env != -1 && s.status[s.cpus[c].env] == Running
  }

  const GoOn: seq<Action> := [ReturnFromTrap, ClearOwner, Release, Leave]

  const Tick: seq<Action> := [Trap, Xchg, SetOwner, EnterTrap, Yield]

  // The mode before and after an action of those lists, for a CPU whose environment is running.
  function ModeBefore(a: Action): Mode {
    match a
    case ReturnFromTrap => Return
    case ClearOwner => Unlock(true)
    case Release => Drop(true)
    case Leave => Leaving
    case Xchg => Spin(true)
    case SetOwner => Record(true)
    case EnterTrap => Entry(true)
    case Yield => Dispatch
    case _ => User
  }

  function ModeAfter(a: Action): Mode {
    match a
    case ReturnFromTrap => Unlock(true)
    case ClearOwner => Drop(true)
    case Release => Leaving
    case Trap => Spin(true)
    case Xchg => Record(true)
    case SetOwner => Entry(true)
    case EnterTrap => Dispatch
    case Yield => Schedule
    case _ => User
  }

  lemma StaysArmed(s: State, c: nat, d: nat, e: nat, a: Action)
    requires Armed(s, c, d, e, ModeBefore(a)) && (a in GoOn || a in Tick)
    ensures Enabled(s, c, a) && Armed(Exec(s, c, a), c, d, e, ModeAfter(a))
  {
  }

  lemma GoesOn(s: State, c: nat, d: nat, e: nat)
    requires Armed(s, c, d, e, Return)
    ensures EnabledAll(s, c, GoOn) && Armed(ExecAll(s, c, GoOn), c, d, e, User)
  {
    hide Exec, Enabled, Armed, EnabledAll, ExecAll;
    StaysArmed(s, c, d, e, ReturnFromTrap);
    var s1 := Exec(s, c, ReturnFromTrap);
    StaysArmed(s1, c, d, e, ClearOwner);
    var s2 := Exec(s1, c, ClearOwner);
    StaysArmed(s2, c, d, e, Release);
    var s3 := Exec(s2, c, Release);
    StaysArmed(s3, c, d, e, Leave);
    ExecLast(s3, c, Leave);
    ExecOne(s2, c, Release, [Leave]);
    ExecOne(s1, c, ClearOwner, [Release] + [Leave]);
    ExecOne(s, c, ReturnFromTrap, [ClearOwner] + ([Release] + [Leave]));
    assert [ReturnFromTrap] + ([ClearOwner] + ([Release] + [Leave])) == GoOn;
  }

  lemma Ticks(s: State, c: nat, d: nat, e: nat)
    requires Armed(s, c, d, e, User)
    ensures EnabledAll(s, c, Tick) && Armed(ExecAll(s, c, Tick), c, d, e, Schedule)
  {
    hide Exec, Enabled, Armed, EnabledAll, ExecAll;
    StaysArmed(s, c, d, e, Trap);
    var s1 := Exec(s, c, Trap);
    StaysArmed(s1, c, d, e, Xchg);
    var s2 := Exec(s1, c, Xchg);
    StaysArmed(s2, c, d, e, SetOwner);
    var s3 := Exec(s2, c, SetOwner);
    StaysArmed(s3, c, d, e, EnterTrap);
    var s4 := Exec(s3, c, EnterTrap);
    StaysArmed(s4, c, d, e, Yield);
    ExecLast(s4, c, Yield);
    ExecOne(s3, c, EnterTrap, [Yield]);
    ExecOne(s2, c, SetOwner, [EnterTrap] + [Yield]);
    ExecOne(s1, c, Xchg, [SetOwner] + ([EnterTrap] + [Yield]));
    ExecOne(s, c, Trap, [Xchg] + ([SetOwner] + ([EnterTrap] + [Yield])));
    assert [Trap] + ([Xchg] + ([SetOwner] + ([EnterTrap] + [Yield]))) == Tick;
  }

  lemma Arms(s: State, c: nat, a: Action, e: nat, d: nat)
    requires Inv(s) && Enabled(s, c, a) && (a == SetStatus(e, true) || a == Send(e))
    requires d < |s.cpus| && d != c && s.cpus[d].env == e
    ensures Armed(Exec(s, c, a), c, d, e, Return)
  {
    assert CpuOk(s, s.cpus[c]) && s.cpus[c].env != e;
  }

  lemma Fires(s: State, c: nat, d: nat, e: nat)
    requires Armed(s, c, d, e, Schedule)
    ensures Enabled(s, c, Pick(e)) && !NoSharedEnv(Exec(s, c, Pick(e)))
  {
    var s1 := Exec(s, c, Pick(e));
    if c < d { assert s1.cpus[c].env == s1.cpus[d].env; } else { assert s1.cpus[d].env == s1.cpus[c].env; }
  }

  // What such a step leads to: an environment is made runnable, by a set_status or a send, while
  // another CPU runs it; the caller returns to user mode, and at its next timer tick the scheduler
  // may pick that environment: two CPUs then run it at once.
  lemma DoubleDispatch(s: State, c: nat, a: Action, e: nat)
    requires Inv(s) && Enabled(s, c, a) && (a == SetStatus(e, true) || a == Send(e)) && Elsewhere(s, c, e)
    ensures var acts := [a] + GoOn + Tick + [Pick(e)];
      EnabledAll(s, c, acts) && !NoSharedEnv(ExecAll(s, c, acts))
  {
    var d :| 0 <= d < |s.cpus| && d != c && s.cpus[d].env == e;
    Arms(s, c, a, e, d);
    hide *;
    var s1 := Exec(s, c, a);
    GoesOn(s1, c, d, e);
    ExecOne(s, c, a, GoOn);
    var s2 := ExecAll(s1, c, GoOn);
    Ticks(s2, c, d, e);
    ExecAppend(s, c, [a] + GoOn, Tick);
    var s3 := ExecAll(s2, c, Tick);
    Fires(s3, c, d, e);
    ExecLast(s3, c, Pick(e));
    ExecAppend(s, c, [a] + GoOn + Tick, [Pick(e)]);
  }

  // ---------------------------------------------------------------- whole runs

  datatype Event = Event(c: nat, a: Action)

  ghost predicate IsRun(states: seq<State>, events: seq<Event>) {
    && |states| == |events| + 1
    && forall i :: 0 <= i < |events| ==> IsStep(states[i], events[i], states[i + 1])
  }

  ghost predicate IsStep(s: State, e: Event, s1: State) {
    Enabled(s, e.c, e.a) && Disciplined(s, e.c, e.a) && s1 == Exec(s, e.c, e.a)
  }

  // The machine when the boot processor holds the lock and is about to schedule: the environments
  // of env_create are runnable, nobody runs any.
  ghost predicate Boot(s: State) {
    && Shape(s) && |s.cpus| > 0 && s.lock == Lock(true, 0) && s.cpus[0] == Cpu(Schedule, -1)
    && forall c :: 0 < c < |s.cpus| ==> s.cpus[c] == Cpu(Halted, -1)
  }

  // In every interleaving of disciplined steps: at most one CPU executes in the kernel; no
  // environment is the current one of two CPUs; a CPU in user mode has one, running or dying.
  lemma {:induction false} Exclusive(states: seq<State>, events: seq<Event>, n: nat)
    requires IsRun(states, events) && Boot(states[0]) && n <= |events|
    ensures Inv(states[n])
    ensures AtMostOneInKernel(states[n]) && NoSharedEnv(states[n])
    ensures forall c :: 0 <= c < |states[n].cpus| && states[n].cpus[c].mode.User? ==>
      OwnsEnv(states[n], states[n].cpus[c])
  {
    if n == 0 {
      assert HoldsLock(states[0].cpus[0].mode);
    } else {
      Exclusive(states, events, n - 1);
      assert IsStep(states[n - 1], events[n - 1], states[n - 1 + 1]);
      StepKeeps(states[n - 1], events[n - 1].c, events[n - 1].a);
    }
    assert forall c :: 0 <= c < |states[n].cpus| ==> CpuOk(states[n], states[n].cpus[c]);
  }

  ghost predicate Sleeps(st: Status) { st != Runnable && st != Running }

  // A child that sys_exofork made does not run before its parent marks it runnable or someone sends
  // to it: until then no scheduler may pick it, on any CPU.
  lemma {:induction false} ChildWaits(states: seq<State>, events: seq<Event>, e: nat, i: nat, n: nat)
    requires IsRun(states, events) && i < n <= |events| && events[i].a == Exofork(e)
    requires forall k :: i < k < n ==> events[k].a != SetStatus(e, true) && events[k].a != Send(e)
    ensures e < |states[n].status| && Sleeps(states[n].status[e])
    ensures forall c: nat :: !Enabled(states[n], c, Pick(e))
    decreases n
  {
    hide Exec, Disciplined;
    var s, ev := states[n - 1], events[n - 1];
    assert IsStep(s, ev, states[n - 1 + 1]);
    if n == i + 1 {
      ForkedEnv(s, ev.c, e);
    } else {
      ChildWaits(states, events, e, i, n - 1);
      NotWoken(s, ev.c, ev.a, e);
    }
  }

  lemma ForkedEnv(s: State, c: nat, e: nat)
    requires Enabled(s, c, Exofork(e))
    ensures e < |Exec(s, c, Exofork(e)).status| && Exec(s, c, Exofork(e)).status[e] == NotRunnable
  {
    StatusEffect(s, c, Exofork(e), e);
  }

  lemma NotWoken(s: State, c: nat, a: Action, e: nat)
    requires Enabled(s, c, a) && e < |s.status| && Sleeps(s.status[e]) && a != SetStatus(e, true) && a != Send(e)
    ensures e < |Exec(s, c, a).status| && Sleeps(Exec(s, c, a).status[e])
  {
    hide Exec;
    StatusEffect(s, c, a, e);
  }

  // No CPU is ever stuck: each has a step that the discipline allows. A system call may fork into any
  // free slot, change or destroy any live environment, and send to any that waits.
  lemma NobodyIsStuck(s: State, c: nat, e: nat) returns (a: Action)
    requires Inv(s) && c < |s.cpus| && e < |s.status|
    ensures Enabled(s, c, a) && Disciplined(s, c, a)
    ensures e < |s.recving|
    ensures s.cpus[c].mode == Dispatch ==>
      if s.status[e] == Free then Enabled(s, c, Exofork(e))
      else
        && Enabled(s, c, SetStatus(e, true)) && Enabled(s, c, SetStatus(e, false)) && Enabled(s, c, Destroy(e))
        && (s.recving[e] ==> Enabled(s, c, Send(e)))
    ensures s.cpus[c].mode == Dispatch ==> Enabled(s, c, Yield) && Enabled(s, c, Recv) && Enabled(s, c, RecvBadAddress)
    ensures s.cpus[c].mode == Schedule && s.status[e] == Runnable ==> Enabled(s, c, Pick(e))
  {
    assert CpuOk(s, s.cpus[c]);
    match s.cpus[c].mode
    case User => a := Trap;
    case Halted => a := Trap;
    case Spin(_) => a := Xchg;
    case Record(_) => a := SetOwner;
    case Entry(_) => a := EnterTrap;
    case Dispatch => a := OtherTrap;
    case Return => a := ReturnFromTrap;
    case Schedule => a := Halt;
    case Unlock(_) => a := ClearOwner;
    case Drop(_) => a := Release;
    case Leaving => a := Leave;
  }

  // Statuses, current environments and IPC flags change only in steps of a CPU that holds the lock;
  // the one write after unlock_kernel, to env_cpunum, is to an environment that no other CPU has.
  lemma OnlyTheHolderWrites(s: State, c: nat, a: Action)
    requires Inv(s) && Enabled(s, c, a)
    ensures Exec(s, c, a).status != s.status || Exec(s, c, a).recving != s.recving ==> HoldsLock(s.cpus[c].mode)
    ensures (exists d :: 0 <= d < |s.cpus| && Exec(s, c, a).cpus[d].env != s.cpus[d].env) ==> HoldsLock(s.cpus[c].mode)
    ensures Exec(s, c, a).cpunum != s.cpunum ==>
      !Elsewhere(s, c, s.cpus[c].env) && IsEnv(s, s.cpus[c].env) && s.status[s.cpus[c].env] != Free
  {
    assert CpuOk(s, s.cpus[c]);
  }

  // The panics of the locking code and the assertion of trap never fire: a CPU about to acquire
  // does not hold the lock, a CPU about to release does, and a trap from user mode finds curenv.
  lemma NoLockPanics(s: State, c: nat)
    requires Inv(s) && c < |s.cpus|
    ensures s.cpus[c].mode.Spin? || s.cpus[c].mode.User? || s.cpus[c].mode.Halted? ==> !Holding(s, c)
    ensures s.cpus[c].mode.Unlock? ==> Holding(s, c)
    ensures s.cpus[c].mode == Entry(true) ==> Enabled(s, c, EnterTrap)
  {
    assert CpuOk(s, s.cpus[c]);
  }

  // ---------------------------------------------------------------- it does happen

  // A disciplined run leads from s0 to s.
  ghost predicate Reachable(s0: State, s: State) {
    exists states, events :: IsRun(states, events) && states[0] == s0 && states[|events|] == s
  }

  lemma ReachSelf(s: State)
    ensures Reachable(s, s)
  {
    var states, events: seq<Event> := [s], [];
    assert IsRun(states, events) && states[0] == s && states[|events|] == s;
  }

  lemma ReachStep(s0: State, s: State, c: nat, a: Action)
    requires Reachable(s0, s) && Enabled(s, c, a) && Disciplined(s, c, a)
    ensures Reachable(s0, Exec(s, c, a))
  {
    hide Enabled, Exec, Disciplined;
    var states, events :| IsRun(states, events) && states[0] == s0 && states[|events|] == s;
    var s1 := Exec(s, c, a);
    var longer, more := states + [s1], events + [Event(c, a)];
    forall i | 0 <= i < |more| ensures IsStep(longer[i], more[i], longer[i + 1]) {
      if i < |events| { assert IsStep(states[i], events[i], states[i + 1]); }
    }
    assert IsRun(longer, more) && longer[0] == s0 && longer[|more|] == s1;
  }

  // CPU c runs `own` or nothing, CPU d is outside the kernel with `other`, whose status is st, or
  // with nothing.
  ghost predicate Scene(s: State, c: nat, d: nat, own: nat, other: nat, st: Status) {
    && Shape(s) && c < |s.cpus| && d < |s.cpus| && c != d && IsEnv(s, own) && IsEnv(s, other) && own != other
    && (s.cpus[c].env == -1 || s.cpus[c].env == own)
    && s.status[own] == (if s.cpus[c].env == own then Running else Runnable)
    && (s.cpus[d].env == -1 || s.cpus[d].env == other) && s.status[other] == st
    && !HoldsLock(s.cpus[d].mode) && s.lock.locked == HoldsLock(s.cpus[c].mode)
  }

  // The actions that take CPU c into the kernel and out again.
  predicate Fits(cpu: Cpu, own: nat, a: Action) {
    match a
    case Trap => cpu.mode.User? || cpu.mode.Halted?
    case Xchg => cpu.mode.Spin?
    case SetOwner => cpu.mode.Record?
    case EnterTrap => cpu.mode.Entry? && (cpu.mode.user ==> cpu.env == own)
    case Pick(e) => cpu.mode.Schedule? && e == own && cpu.env == -1
    case RecvBadAddress => cpu.mode.Dispatch? && cpu.env == own
    case ReturnFromTrap => cpu.mode.Return? && cpu.env == own
    case ClearOwner => cpu.mode.Unlock?
    case Release => cpu.mode.Drop? && cpu.mode.run
    case Leave => cpu.mode.Leaving? && cpu.env == own
    case _ => false
  }

  function NextCpu(cpu: Cpu, own: nat, a: Action): Cpu
    requires Fits(cpu, own, a)
  {
    match a
    case Trap => Cpu(Spin(cpu.mode.User?), cpu.env)
    case Xchg => Cpu(Record(cpu.mode.user), cpu.env)
    case SetOwner => Cpu(Entry(cpu.mode.user), cpu.env)
    case EnterTrap => Cpu(if cpu.mode.user then Dispatch else Schedule, cpu.env)
    case Pick(_) => Cpu(Unlock(true), own)
    case RecvBadAddress => Cpu(Return, cpu.env)
    case ReturnFromTrap => Cpu(Unlock(true), cpu.env)
    case ClearOwner => Cpu(Drop(cpu.mode.run), cpu.env)
    case Release => Cpu(Leaving, cpu.env)
    case Leave => Cpu(User, cpu.env)
  }

  lemma SceneStep(s: State, c: nat, d: nat, own: nat, other: nat, st: Status, a: Action)
    requires Scene(s, c, d, own, other, st) && Fits(s.cpus[c], own, a)
    ensures Enabled(s, c, a) && Disciplined(s, c, a)
    ensures var s1 := Exec(s, c, a);
      && Scene(s1, c, d, own, other, st) && s1.cpus[c] == NextCpu(s.cpus[c], own, a) && s1.cpus[d] == s.cpus[d]
      && s1.recving == (if a.RecvBadAddress? then s.recving[own := true] else s.recving)
  {
  }

  lemma Go(s0: State, s: State, c: nat, d: nat, own: nat, other: nat, st: Status, a: Action) returns (s1: State)
    requires Reachable(s0, s) && Scene(s, c, d, own, other, st) && Fits(s.cpus[c], own, a)
    ensures Reachable(s0, s1) && Scene(s1, c, d, own, other, st)
    ensures s1.cpus[c] == NextCpu(s.cpus[c], own, a) && s1.cpus[d] == s.cpus[d]
    ensures s1.recving == (if a.RecvBadAddress? then s.recving[own := true] else s.recving)
  {
    hide Reachable, Exec, Enabled, Disciplined;
    SceneStep(s, c, d, own, other, st, a);
    s1 := Exec(s, c, a);
    ReachStep(s0, s, c, a);
  }

  // From user mode, or out of hlt, to where trap has the lock and knows what to do.
  lemma GoesIn(s0: State, s: State, c: nat, d: nat, own: nat, other: nat, st: Status) returns (s1: State)
    requires Reachable(s0, s) && Scene(s, c, d, own, other, st)
    requires s.cpus[c] == Cpu(User, own) || s.cpus[c] == Cpu(Halted, -1)
    ensures Reachable(s0, s1) && Scene(s1, c, d, own, other, st) && s1.cpus[d] == s.cpus[d] && s1.recving == s.recving
    ensures s1.cpus[c] == if s.cpus[c].mode.User? then Cpu(Dispatch, own) else Cpu(Schedule, -1)
  {
    hide Reachable, Scene;
    assert own != -1;
    s1 := Go(s0, s, c, d, own, other, st, Trap);
    s1 := Go(s0, s1, c, d, own, other, st, Xchg);
    s1 := Go(s0, s1, c, d, own, other, st, SetOwner);
    s1 := Go(s0, s1, c, d, own, other, st, EnterTrap);
  }

  // From env_run to user mode.
  lemma GoesOut(s0: State, s: State, c: nat, d: nat, own: nat, other: nat, st: Status) returns (s1: State)
    requires Reachable(s0, s) && Scene(s, c, d, own, other, st)
    requires s.cpus[c] == Cpu(Unlock(true), own)
    ensures Reachable(s0, s1) && Scene(s1, c, d, own, other, st) && s1.cpus[d] == s.cpus[d] && s1.recving == s.recving
    ensures s1.cpus[c] == Cpu(User, own)
  {
    hide Reachable, Scene;
    s1 := Go(s0, s, c, d, own, other, st, ClearOwner);
    s1 := Go(s0, s1, c, d, own, other, st, Release);
    s1 := Go(s0, s1, c, d, own, other, st, Leave);
  }

  // The other CPU's turn.
  lemma Turn(s: State, c: nat, d: nat, own: nat, other: nat, st: Status)
    requires Scene(s, c, d, own, other, st) && !HoldsLock(s.cpus[c].mode)
    requires st == if s.cpus[d].env == other then Running else Runnable
    ensures Scene(s, d, c, other, own, if s.cpus[c].env == own then Running else Runnable)
  {
  }

  lemma BootScene(s: State, e: nat, f: nat)
    requires Boot(s) && |s.cpus| >= 2 && IsEnv(s, e) && IsEnv(s, f) && e != f
    requires s.status[e] == Runnable && s.status[f] == Runnable
    ensures Scene(s, 0, 1, f, e, Runnable) && s.cpus[0] == Cpu(Schedule, -1) && s.cpus[1] == Cpu(Halted, -1)
  {
  }

  lemma SceneSizes(s: State, c: nat, d: nat, own: nat, other: nat, st: Status)
    requires Scene(s, c, d, own, other, st)
    ensures c < |s.cpus| && own < |s.recving| && other < |s.recving|
  {
  }

  // CPU c, in the kernel or out of hlt, dispatches the environment `own` and reaches user mode.
  lemma Dispatches(s0: State, s: State, c: nat, d: nat, own: nat, other: nat, st: Status) returns (s1: State)
    requires Reachable(s0, s) && Scene(s, c, d, own, other, st)
    requires s.cpus[c] == Cpu(Schedule, -1) || s.cpus[c] == Cpu(Halted, -1)
    ensures Reachable(s0, s1) && Scene(s1, c, d, own, other, st) && s1.cpus[d] == s.cpus[d]
    ensures s1.cpus[c] == Cpu(User, own)
  {
    hide Reachable, Scene;
    SceneSizes(s, c, d, own, other, st);
    s1 := s;
    if s.cpus[c].mode.Halted? { s1 := GoesIn(s0, s1, c, d, own, other, st); }
    s1 := Go(s0, s1, c, d, own, other, st, Pick(own));
    s1 := GoesOut(s0, s1, c, d, own, other, st);
  }

  // The environment of CPU c calls sys_ipc_recv with a bad address and is back in user mode.
  lemma OpensMailbox(s0: State, s: State, c: nat, d: nat, own: nat, other: nat, st: Status) returns (s1: State)
    requires Reachable(s0, s) && Scene(s, c, d, own, other, st) && s.cpus[c] == Cpu(User, own) && own < |s.recving|
    ensures Reachable(s0, s1) && Scene(s1, c, d, own, other, st) && s1.cpus[d] == s.cpus[d]
    ensures s1.cpus[c] == Cpu(User, own) && s1.recving == s.recving[own := true]
  {
    hide Reachable, Scene;
    s1 := GoesIn(s0, s, c, d, own, other, st);
    s1 := Go(s0, s1, c, d, own, other, st, RecvBadAddress);
    s1 := Go(s0, s1, c, d, own, other, st, ReturnFromTrap);
    s1 := GoesOut(s0, s1, c, d, own, other, st);
  }

  // With two CPUs and two runnable environments at boot, a disciplined run leads to where CPU 0 runs
  // f and is in a system call while CPU 1 runs e in user mode, its mailbox open.
  lemma Contested(s0: State, e: nat, f: nat) returns (s: State)
    requires Boot(s0) && |s0.cpus| >= 2 && IsEnv(s0, e) && IsEnv(s0, f) && e != f
    requires s0.status[e] == Runnable && s0.status[f] == Runnable
    ensures Reachable(s0, s) && Scene(s, 0, 1, f, e, Running) && e < |s.recving| && s.recving[e]
    ensures s.cpus[0] == Cpu(Dispatch, f) && s.cpus[1] == Cpu(User, e)
  {
    hide Reachable, Scene, Boot;
    ReachSelf(s0);
    BootScene(s0, e, f);
    s := Dispatches(s0, s0, 0, 1, f, e, Runnable);
    Turn(s, 0, 1, f, e, Runnable);
    s := Dispatches(s0, s, 1, 0, e, f, Running);
    SceneSizes(s, 1, 0, e, f, Running);
    s := OpensMailbox(s0, s, 1, 0, e, f, Running);
    Turn(s, 1, 0, e, f, Running);
    s := GoesIn(s0, s, 0, 1, f, e, Running);
  }

  lemma {:induction false} ReachableInv(s0: State, s: State)
    requires Boot(s0) && Reachable(s0, s)
    ensures Inv(s)
  {
    hide Inv, Boot;
    var states, events :| IsRun(states, events) && states[0] == s0 && states[|events|] == s;
    Exclusive(states, events, |events|);
  }

  // So all three unchecked status changes can come from a disciplined past. After set_status or a
  // send, DoubleDispatch applies.
  lemma UncheckedStepsReachable(s0: State, e: nat, f: nat) returns (s: State)
    requires Boot(s0) && |s0.cpus| >= 2 && IsEnv(s0, e) && IsEnv(s0, f) && e != f
    requires s0.status[e] == Runnable && s0.status[f] == Runnable
    ensures Reachable(s0, s) && Inv(s) && Elsewhere(s, 0, e)
    ensures Enabled(s, 0, SetStatus(e, true)) && !Disciplined(s, 0, SetStatus(e, true))
    ensures Enabled(s, 0, Send(e)) && !Disciplined(s, 0, Send(e))
  {
    s := Contested(s0, e, f);
    ReachableInv(s0, s);
    hide Reachable, Inv;
    assert s.cpus[1].env == e;
  }

  // A second destroy, before the first has been noticed, frees an environment that a CPU runs: it is
  // in user mode with a free slot.
  lemma DestroyTwice(s0: State, e: nat, f: nat) returns (s: State)
    requires Boot(s0) && |s0.cpus| >= 2 && IsEnv(s0, e) && IsEnv(s0, f) && e != f
    requires s0.status[e] == Runnable && s0.status[f] == Runnable
    ensures Reachable(s0, s) && Inv(s) && Enabled(s, 0, Destroy(e)) && !Disciplined(s, 0, Destroy(e))
    ensures Exec(s, 0, Destroy(e)).status[e] == Free && Exec(s, 0, Destroy(e)).cpus[1] == Cpu(User, e)
  {
    hide Reachable, Inv;
    var s1 := Contested(s0, e, f);
    ReachStep(s0, s1, 0, Destroy(e));
    s := Exec(s1, 0, Destroy(e));
    assert Scene(s, 0, 1, f, e, Dying) && s.cpus[0] == Cpu(Return, f) && s.cpus[1] == Cpu(User, e);
    s := Go(s0, s, 0, 1, f, e, Dying, ReturnFromTrap);
    s := GoesOut(s0, s, 0, 1, f, e, Dying);
    s := GoesIn(s0, s, 0, 1, f, e, Dying);
    ReachableInv(s0, s);
    assert s.cpus[1].env == e;
  }
}
