// The scheduler of sched/kern/sched.c over its four ring buffers, and sys_env_set_priority
// (sched/kern/syscall.c), proved against the policy in MlfqSpec.
module Mlfq {
  import opened EnvTypes
  import opened MlfqSpec

  // Where entry k of a ring is stored.
  function Idx(beginning: nat, k: nat): nat { (beginning + k) % NENV }

  // The logical content of a ring: indices beginning .. last, taken modulo NENV.
  function RingContents(a: seq<int>, beginning: nat, last: nat): (r: seq<int>)
    requires |a| == NENV && beginning <= last
    ensures |r| == last - beginning
  {
    seq(last - beginning, k requires 0 <= k < last - beginning => a[Idx(beginning, k)])
  }

  // A ring after a push: with NENV entries already, the first one is lost and the new one counts twice.
  function Appended(ids: seq<int>, id: int): (r: seq<int>) {
    if |ids| < NENV then ids + [id] else [id] + ids[1..] + [id]
  }

  lemma OnceAround(beginning: nat)
    ensures Idx(beginning, NENV) == Idx(beginning, 0)
  {
  }

  lemma IdxDistinct(beginning: nat, j: nat, k: nat)
    requires j < NENV && k < NENV && j != k
    ensures Idx(beginning, j) != Idx(beginning, k)
  {
  }

  // struct MLFQ_queue. The counters only grow; they are reduced modulo NENV at each access.
  class Ring {
    const envs: array<int>
    var beginning: nat
    var last: nat

    constructor ()
      ensures Valid() && Contents() == [] && fresh(envs)
    {
      envs := new int[NENV](_ => 0);
      beginning, last := 0, 0;
    }

    ghost predicate Valid()
      reads this
    {
      envs.Length == NENV && beginning <= last <= beginning + NENV
    }

    ghost function Contents(): (r: seq<int>)
      requires Valid()
      reads this, envs
      ensures |r| == last - beginning
    {
      RingContents(envs[..], beginning, last)
    }

    lemma EntryAt(i: nat)
      requires Valid() && beginning <= i < last
      ensures envs[i % NENV] == Contents()[i - beginning]
    {
      assert i % NENV == Idx(beginning, i - beginning);
    }

    // The part of sched_push_env that writes the ring. It does not ask whether there is room: on a
    // full ring the new entry takes the place of the first one, and is met again at the end.
    method Append(id: int)
      requires Valid()
      modifies this`last, envs
      ensures last == old(last) + 1 && (Valid() <==> |old(Contents())| < NENV)
      ensures RingContents(envs[..], beginning, last) == Appended(old(Contents()), id)
      ensures old(|Contents()|) < NENV ==> RingContents(envs[..], beginning, last) == old(Contents()) + [id]
      ensures var ids := RingContents(envs[..], beginning, last);
        old(|Contents()|) == NENV ==> |ids| == NENV + 1 && ids[0] == id && ids[1..] == old(Contents())[1..] + [id]
    {
      ghost var before, n := Contents(), last - beginning;
      assert last % NENV == Idx(beginning, n);
      forall j: nat | j < n && (n < NENV || j > 0) ensures Idx(beginning, j) != last % NENV {
        if n < NENV { IdxDistinct(beginning, j, n); } else { OnceAround(beginning); IdxDistinct(beginning, j, 0); }
      }
      OnceAround(beginning);
      hide Idx;
      envs[last % NENV] := id;
      last := last + 1;
      assert RingContents(envs[..], beginning, last) == Appended(before, id);
    }

    // sched_remove_env: position is the index in envs of entry k.
    method RemoveEnv(position: nat, ghost k: nat)
      requires Valid() && k < |Contents()| && position == Idx(beginning, k)
      modifies this`beginning, envs
      ensures Valid() && Contents() == SwapRemove(old(Contents()), k)
    {
      ghost var before, b, n := Contents(), beginning, last - beginning;
      assert Idx(b, 0) == b % NENV;
      assert forall j: nat {:trigger Idx(b + 1, j)} :: Idx(b + 1, j) == Idx(b, j + 1);
      forall j: nat | j < n && j != k ensures Idx(b, j) != position { IdxDistinct(b, j, k); }
      forall j: nat | 0 < j < n ensures Idx(b, j) != b % NENV { IdxDistinct(b, j, 0); }
      if position == beginning {
        assert position < NENV && position == Idx(b, 0) && k == 0;
        hide Idx;
        beginning := beginning + 1;
        assert Contents() == SwapRemove(before, k);
        return;
      }
      hide Idx;
      var first := envs[beginning % NENV];
      var target := envs[position];
      envs[beginning % NENV] := target;
      envs[position] := first;
      beginning := beginning + 1;
      assert Contents() == SwapRemove(before, k);
    }
  }

  lemma PushAllNone(s: Sched, ids: seq<int>)
    requires Shape(s)
    ensures PushAll(s, ids[..0]) == s
  {
  }

  lemma PushAllStep(s: Sched, ids: seq<int>, k: nat)
    requires Shape(s) && k < |ids|
    ensures PushAll(s, ids[..k + 1]) == Push(PushAll(s, ids[..k]), ids[k], 0)
  {
    assert ids[..k + 1][..k] == ids[..k];
  }

  lemma DispatchIs(s: Sched, cur: int, q: nat, k: nat)
    requires Shape(s) && -1 <= cur < NENV && q < MAX_QUEUES && q == BestFrom(s, 0)
    requires k == FirstRunnable(s, s.queues[q]) < |s.queues[q]|
    ensures NextQueue(q) < MAX_QUEUES
    ensures var id := s.queues[q][k];
      var c := Count(Push(SetQueue(s, q, SwapRemove(s.queues[q], k)), id, NextQueue(q)), EnvX(id));
      Dispatch(s, cur) == (c.(info := EnvRun(c.info, cur, EnvX(id))), Run(EnvX(id)))
  {
    hide FirstRunnable, BestFrom, Push, SwapRemove, Count, EnvRun, EnvX, SetQueue;
  }

  // An entry that was taken out has room in any queue.
  lemma RoomBelow(s: Sched, q: nat, k: nat)
    requires Shape(s) && Size(s) <= NENV && q < MAX_QUEUES && k < |s.queues[q]|
    ensures |SetQueue(s, q, SwapRemove(s.queues[q], k)).queues[NextQueue(q)]| < NENV
  {
  }

  // struct MLFQ_sched together with the scheduler's fields of envs[].
  class Scheduler {
    const q0: Ring
    const q1: Ring
    const q2: Ring
    const q3: Ring
    const envs: array<EnvInfo>
    var totalExecutions: nat

    constructor (envs: array<EnvInfo>)
      requires envs.Length == NENV
      ensures Valid() && this.envs == envs
      ensures State() == Sched([[], [], [], []], 0, old(envs[..]))
    {
      this.envs := envs;
      totalExecutions := 0;
      q0 := new Ring();
      q1 := new Ring();
      q2 := new Ring();
      q3 := new Ring();
    }

    ghost predicate Valid()
      reads this, q0, q1, q2, q3
    {
      && q0.Valid() && q1.Valid() && q2.Valid() && q3.Valid() && envs.Length == NENV
      && Separate()
    }

    // The four rings are four objects.
    ghost predicate Separate() {
      && q0 !in {q1, q2, q3} && q1 !in {q2, q3} && q2 != q3
      && q0.envs !in {q1.envs, q2.envs, q3.envs} && q1.envs !in {q2.envs, q3.envs} && q2.envs != q3.envs
    }

    ghost function State(): (s: Sched)
      requires Valid()
      reads this, q0, q1, q2, q3, q0.envs, q1.envs, q2.envs, q3.envs, envs
      ensures Shape(s)
    {
      Sched([q0.Contents(), q1.Contents(), q2.Contents(), q3.Contents()], totalExecutions, envs[..])
    }

    // get_queue for the queue numbers the scheduler uses.
    function GetQueue(q: nat): Ring {
      if q == 0 then q0 else if q == 1 then q1 else if q == 2 then q2 else q3
    }

    // The logical content of the rings, one by one.
    lemma RingIs(q: nat)
      requires Valid() && q < MAX_QUEUES
      ensures GetQueue(q).Valid() && GetQueue(q).Contents() == State().queues[q] && State().info == envs[..]
    {
    }

    lemma OtherRing(q: nat)
      requires Valid() && 0 < q < MAX_QUEUES
      ensures GetQueue(0) == q0 != GetQueue(q) && q0.envs != GetQueue(q).envs && GetQueue(q).envs != q0.envs
    {
    }

    // sched_push_env.
    method SchedPushEnv(id: int, q: nat)
      requires Valid() && q < MAX_QUEUES && |State().queues[q]| < NENV
      modifies GetQueue(q), GetQueue(q).envs, envs
      ensures Valid() && State() == Push(old(State()), id, q)
      ensures State().queues == old(State().queues)[q := old(State().queues[q]) + [id]]
      ensures totalExecutions == old(totalExecutions)
      ensures envs[..] == old(envs[..])[EnvX(id) := old(envs[EnvX(id)]).(currentQueue := q)]
    {
      envs[EnvX(id)] := envs[EnvX(id)].(currentQueue := q);
      GetQueue(q).Append(id);
    }

    // boost_queue.
    method BoostQueue(q: nat)
      requires Valid() && 0 < q < MAX_QUEUES && |State().queues[0]| + |State().queues[q]| <= NENV
      modifies q0, q0.envs, envs
      ensures Valid() && State() == PushAll(old(State()), old(State().queues[q]))
    {
      hide Push, PushAll, RingContents, Scheduler.State;
      ghost var s, ids := State(), State().queues[q];
      var ring := GetQueue(q);
      var i := ring.beginning;
      RingIs(q);
      OtherRing(q);
      PushAllNone(s, ids);
      while i < ring.last
        invariant Valid() && ring.beginning <= i <= ring.last
        invariant ring.Valid() && ring.Contents() == ids
        invariant State() == PushAll(s, ids[..i - ring.beginning])
      {
        ring.EntryAt(i);
        PushAllStep(s, ids, i - ring.beginning);
        SchedPushEnv(ring.envs[i % NENV], 0);
        i := i + 1;
      }
      assert ids[..|ids|] == ids;
    }

    // clean_queues.
    method CleanQueues()
      requires Valid()
      modifies q1, q2, q3
      ensures Valid() && State() == old(State()).(queues := [old(State().queues[0]), [], [], []])
    {
      q1.beginning, q1.last := 0, 0;
      q2.beginning, q2.last := 0, 0;
      q3.beginning, q3.last := 0, 0;
    }

    // boost_envs.
    method BoostEnvs()
      requires Valid() && Size(State()) <= NENV
      modifies q0, q1, q2, q3, q0.envs, envs
      ensures Valid() && State() == Boost(old(State())).(total := old(totalExecutions))
      ensures Boosted(old(State()), State().(total := 0)) && totalExecutions == old(totalExecutions)
    {
      BoostDoes(State());
      hide PushAll, RingContents;
      BoostQueue(1);
      BoostQueue(2);
      BoostQueue(3);
      CleanQueues();
    }

    // has_runnable_envs, as a yes or no.
    method HasRunnableEnvs(q: nat) returns (r: bool)
      requires Valid() && q < MAX_QUEUES
      ensures r == HasRunnable(State(), q)
    {
      hide GetQueue, RingContents, Scheduler.State, Scheduler.Separate;
      RingIs(q);
      var ring := GetQueue(q);
      var i := ring.beginning;
      ghost var s := State();
      while i < ring.last
        invariant ring.beginning <= i <= ring.last
        invariant State() == s && ring.Valid() && ring.Contents() == s.queues[q] && s.info == envs[..]
        invariant forall j :: 0 <= j < i - ring.beginning ==> !IsRunnable(s, s.queues[q][j])
      {
        ring.EntryAt(i);
        if envs[EnvX(ring.envs[i % NENV])].status == Runnable {
          return true;
        }
        i := i + 1;
      }
      return false;
    }

    // get_best_priority_queue.
    method GetBestPriorityQueue() returns (b: int)
      requires Valid()
      ensures b == BestFrom(State(), 0)
    {
      var i := 0;
      while i < MAX_QUEUES
        invariant 0 <= i <= MAX_QUEUES
        invariant BestFrom(State(), 0) == BestFrom(State(), i)
      {
        var has := HasRunnableEnvs(i);
        if has {
          return i;
        }
        i := i + 1;
      }
      return -1;
    }

    // env_run (sched/kern/env.c), the part that schedules: statuses only.
    method SetRunning(cur: int, slot: nat)
      requires envs.Length == NENV && -1 <= cur < NENV && slot < NENV
      modifies envs
      ensures envs[..] == EnvRun(old(envs[..]), cur, slot)
    {
      if cur != -1 && envs[cur].status == Running {
        envs[cur] := envs[cur].(status := Runnable);
      }
      envs[slot] := envs[slot].(status := Running);
    }

    // The last lines of both branches of priority_MLFQ: count the execution and run.
    method CountAndRun(cur: int, slot: nat)
      requires Valid() && -1 <= cur < NENV && slot < NENV
      modifies this, envs
      ensures Valid()
      ensures var c := Count(old(State()), slot); State() == c.(info := EnvRun(c.info, cur, slot))
    {
      totalExecutions := totalExecutions + 1;
      envs[slot] := envs[slot].(executions := envs[slot].executions + 1);
      SetRunning(cur, slot);
    }

    // sched_remove_env on ring q; position is the index in the ring's array of entry k.
    method SchedRemoveEnv(q: nat, position: nat, ghost k: nat)
      requires Valid() && q < MAX_QUEUES && k < |State().queues[q]|
      requires position == Idx(GetQueue(q).beginning, k)
      modifies GetQueue(q), GetQueue(q).envs
      ensures Valid() && State() == SetQueue(old(State()), q, SwapRemove(old(State().queues[q]), k))
    {
      GetQueue(q).RemoveEnv(position, k);
    }

    // The scan of priority_MLFQ: the position in the array of the first runnable entry.
    method FindRunnable(q: nat) returns (i: nat)
      requires Valid() && q < MAX_QUEUES && HasRunnable(State(), q)
      ensures GetQueue(q).beginning <= i < GetQueue(q).last
      ensures i - GetQueue(q).beginning == FirstRunnable(State(), State().queues[q])
    {
      var ring := GetQueue(q);
      ghost var s, queue := State(), State().queues[q];
      assert queue == ring.Contents();
      hide GetQueue, RingContents;
      i := ring.beginning;
      while i < ring.last
        invariant ring.beginning <= i <= ring.last
        invariant i - ring.beginning <= FirstRunnable(s, queue)
      {
        ring.EntryAt(i);
        if envs[EnvX(ring.envs[i % NENV])].status == Runnable {
          return;
        }
        i := i + 1;
      }
    }

    // The body of the loop of priority_MLFQ for the entry that is runnable: move it down and run it.
    method DispatchEntry(cur: int, q: nat, i: nat) returns (out: Outcome)
      requires Valid() && -1 <= cur < NENV && Size(State()) <= NENV
      requires q == BestFrom(State(), 0) && GetQueue(q).beginning <= i < GetQueue(q).last
      requires i - GetQueue(q).beginning == FirstRunnable(State(), State().queues[q])
      modifies this, q0, q1, q2, q3, q0.envs, q1.envs, q2.envs, q3.envs, envs
      ensures Valid() && (State(), out) == Dispatch(old(State()), cur)
    {
      ghost var s, k := State(), i - GetQueue(q).beginning;
      GetQueue(q).EntryAt(i);
      assert i % NENV == Idx(GetQueue(q).beginning, k);
      var id := GetQueue(q).envs[i % NENV];
      assert id == s.queues[q][k];
      hide RingContents, GetQueue, Idx, FirstRunnable, BestFrom, Push, SwapRemove, Count, EnvRun, Dispatch, SetQueue,
        EnvX, NextQueue, Size;
      DispatchIs(s, cur, q, k);
      RoomBelow(s, q, k);
      SchedRemoveEnv(q, i % NENV, k);
      SchedPushEnv(id, NextQueue(q));
      CountAndRun(cur, EnvX(id));
      out := Run(EnvX(id));
    }

    // priority_MLFQ.
    method PriorityMlfq(cur: int) returns (out: Outcome)
      requires Valid() && -1 <= cur < NENV && Size(State()) <= NENV
      modifies this, q0, q1, q2, q3, q0.envs, q1.envs, q2.envs, q3.envs, envs
      ensures Valid() && (State(), out) == Dispatch(old(State()), cur)
      ensures Dispatched(old(State()), State(), cur, out)
    {
      DispatchDoes(State(), cur);
      var q := GetBestPriorityQueue();
      hide Dispatched, RingContents, FirstRunnable, BestFrom, Push, SwapRemove, EnvRun;
      if q == -1 {
        if cur != -1 && envs[cur].status == Running {
          CountAndRun(cur, cur);
          return Run(cur);
        }
        return Halt;
      }
      var i := FindRunnable(q);
      out := DispatchEntry(cur, q, i);
    }

    // sched_yield.
    method SchedYield(cur: int) returns (out: Outcome)
      requires Valid() && -1 <= cur < NENV && Size(State()) <= NENV
      modifies this, q0, q1, q2, q3, q0.envs, q1.envs, q2.envs, q3.envs, envs
      ensures Valid() && (State(), out) == Yield(old(State()), cur)
      ensures Scheduled(old(State()), State(), cur, out)
    {
      hide Scheduled, Dispatched, Boosted;
      YieldDoes(State(), cur);
      if totalExecutions >= MAX_MLFQ_EXECUTIONS {
        BoostEnvs();
        totalExecutions := 0;
      }
      out := PriorityMlfq(cur);
    }

    // The scan of sched_destroy_env: the position of the first entry with this id, or last.
    method FindEntry(q: nat, id: int) returns (i: nat)
      requires Valid() && q < MAX_QUEUES
      ensures GetQueue(q).beginning <= i <= GetQueue(q).last
      ensures i - GetQueue(q).beginning == IndexOf(State().queues[q], id)
    {
      hide GetQueue, RingContents, Scheduler.State, Scheduler.Separate;
      RingIs(q);
      var ring := GetQueue(q);
      ghost var queue := State().queues[q];
      i := ring.beginning;
      while i < ring.last
        invariant ring.beginning <= i <= ring.last
        invariant ring.Valid() && ring.Contents() == queue
        invariant i - ring.beginning <= IndexOf(queue, id)
      {
        ring.EntryAt(i);
        if ring.envs[i % NENV] == id {
          return;
        }
        i := i + 1;
      }
    }

    // sched_destroy_env: remove the entry of id from the ring that its current_queue names.
    method SchedDestroyEnv(id: int)
      requires Valid() && envs[EnvX(id)].currentQueue >= 0
      modifies q0, q1, q2, q3, q0.envs, q1.envs, q2.envs, q3.envs
      ensures Valid() && State() == Destroy(old(State()), id)
      ensures Destroyed(old(State()), State(), id)
    {
      hide Destroyed;
      DestroyDoes(State(), id);
      var q := RingOf(envs[EnvX(id)].currentQueue);
      var i := FindEntry(q, id);
      if i < GetQueue(q).last {
        ghost var k := i - GetQueue(q).beginning;
        assert i % NENV == Idx(GetQueue(q).beginning, k);
        SchedRemoveEnv(q, i % NENV, k);
      }
    }

    method SysEnvSetPriority(found: bool, permitted: bool, id: int, priority: int) returns (r: int)
      requires Valid() && envs[EnvX(id)].currentQueue >= 0
      requires envs[EnvX(id)].currentQueue < priority < MAX_QUEUES ==> |State().queues[priority]| < NENV
      modifies q0, q1, q2, q3, q0.envs, q1.envs, q2.envs, q3.envs, envs
      ensures Valid() && (State(), r) == SetPriority(old(State()), found, permitted, id, priority)
      ensures PrioritySet(old(State()), State(), found, permitted, id, priority, r)
    {
      hide PrioritySet, Destroyed;
      SetPriorityDoes(State(), found, permitted, id, priority);
      if priority < 0 || priority > 3 {
        return -1;
      }
      if !found {
        return -1;
      }
      if !permitted {
        return -1;
      }
      if envs[EnvX(id)].currentQueue == priority {
        return priority;
      }
      if envs[EnvX(id)].currentQueue > priority {
        return -1;
      }
      SchedDestroyEnv(id);
      SchedPushEnv(id, priority);
      envs[EnvX(id)] := envs[EnvX(id)].(currentQueue := priority);
      return priority;
    }
  }
}
