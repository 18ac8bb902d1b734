// The MLFQ scheduling policy of sched/kern/sched.c on logical queues: what one call of the
// scheduler does, what it conserves, and how long an environment can wait.
module MlfqSpec {
  import opened EnvTypes

  const MAX_QUEUES := 4
  const MAX_MLFQ_EXECUTIONS := 50

  datatype EnvInfo = EnvInfo(status: Status, currentQueue: int, executions: nat)

  // queues[q] is the logical content of ring q, oldest entry first; info is indexed by slot.
  datatype Sched = Sched(queues: seq<seq<int>>, total: nat, info: seq<EnvInfo>)

  // What the CPU does when the scheduler is done: run an environment or halt.
  datatype Outcome = Run(slot: nat) | Halt

  predicate Shape(s: Sched) { |s.queues| == MAX_QUEUES && |s.info| == NENV }

  predicate IsRunnable(s: Sched, id: int)
    requires Shape(s)
  {
    s.info[EnvX(id)].status == Runnable
  }

  // Index of the first runnable entry of a queue, or its length.
  function FirstRunnable(s: Sched, queue: seq<int>): (k: nat)
    requires Shape(s)
    ensures k <= |queue| && (k < |queue| ==> IsRunnable(s, queue[k]))
    ensures forall j :: 0 <= j < k ==> !IsRunnable(s, queue[j])
  {
    if queue == [] || IsRunnable(s, queue[0]) then 0 else 1 + FirstRunnable(s, queue[1..])
  }

  predicate HasRunnable(s: Sched, q: nat)
    requires Shape(s) && q < MAX_QUEUES
  {
    FirstRunnable(s, s.queues[q]) < |s.queues[q]|
  }

  // The lowest-numbered queue from q on that holds a runnable entry, or -1.
  function BestFrom(s: Sched, q: nat): (b: int)
    requires Shape(s) && q <= MAX_QUEUES
    ensures b == -1 || (q <= b < MAX_QUEUES && HasRunnable(s, b))
    ensures forall p :: q <= p < MAX_QUEUES && (b == -1 || p < b) ==> !HasRunnable(s, p)
    decreases MAX_QUEUES - q
  {
    if q == MAX_QUEUES then -1 else if HasRunnable(s, q) then q else BestFrom(s, q + 1)
  }

  // sched_remove_env on the k-th entry: the first entry takes its place and the head moves on.
  function SwapRemove(queue: seq<int>, k: nat): (r: seq<int>)
    requires k < |queue|
    ensures |r| == |queue| - 1
  {
    queue[k := queue[0]][1..]
  }

  function SetQueue(s: Sched, q: nat, queue: seq<int>): Sched
    requires Shape(s) && q < MAX_QUEUES
  {
    s.(queues := s.queues[q := queue])
  }

  // sched_push_env.
  function Push(s: Sched, id: int, q: nat): Sched
    requires Shape(s) && q < MAX_QUEUES
  {
    SetQueue(s, q, s.queues[q] + [id]).(info := s.info[EnvX(id) := s.info[EnvX(id)].(currentQueue := q)])
  }

  // boost_queue: every entry of a queue is pushed on queue 0.
  function PushAll(s: Sched, ids: seq<int>): (r: Sched)
    requires Shape(s)
    ensures Shape(r) && r.total == s.total
    ensures r.queues == s.queues[0 := s.queues[0] + ids]
    ensures forall k :: 0 <= k < NENV ==>
      r.info[k].status == s.info[k].status && r.info[k].executions == s.info[k].executions
    ensures forall k :: 0 <= k < NENV ==>
      r.info[k].currentQueue == s.info[k].currentQueue || r.info[k].currentQueue == 0
    ensures forall id :: id in ids ==> r.info[EnvX(id)].currentQueue == 0
  {
    if ids == [] then
      assert s.queues[0] + ids == s.queues[0];
      s
    else
      var n := |ids| - 1;
      var r := PushAll(s, ids[..n]);
      assert s.queues[0] + ids == s.queues[0] + ids[..n] + [ids[n]];
      Push(r, ids[n], 0)
  }

  // boost_envs, and the reset of the execution counter.
  function Boost(s: Sched): (r: Sched)
    requires Shape(s)
    ensures Shape(r) && r.total == 0
    ensures r.queues == [s.queues[0] + s.queues[1] + s.queues[2] + s.queues[3], [], [], []]
    ensures forall k :: 0 <= k < NENV ==> r.info[k].status == s.info[k].status
  {
    PushAll(PushAll(PushAll(s, s.queues[1]), s.queues[2]), s.queues[3])
      .(queues := [s.queues[0] + s.queues[1] + s.queues[2] + s.queues[3], [], [], []], total := 0)
  }

  // The status part of env_run (sched/kern/env.c): the environment that was running on this CPU
  // becomes runnable again, the chosen one runs. cur is -1 when there is no current environment.
  function EnvRun(info: seq<EnvInfo>, cur: int, slot: nat): (r: seq<EnvInfo>)
    requires -1 <= cur < |info| && slot < |info|
    ensures |r| == |info| && r[slot].status == Running
    ensures forall i :: 0 <= i < |r| ==>
      r[i].currentQueue == info[i].currentQueue && r[i].executions == info[i].executions
  {
    var yielded :=
      if cur != -1 && info[cur].status == Running then info[cur := info[cur].(status := Runnable)] else info;
    yielded[slot := yielded[slot].(status := Running)]
  }

  function Count(s: Sched, slot: nat): (r: Sched)
    requires slot < |s.info|
    ensures r.queues == s.queues && |r.info| == |s.info|
    ensures forall i :: 0 <= i < |r.info| ==>
      r.info[i].currentQueue == s.info[i].currentQueue && r.info[i].status == s.info[i].status
  {
    s.(total := s.total + 1, info := s.info[slot := s.info[slot].(executions := s.info[slot].executions + 1)])
  }

  function NextQueue(q: nat): nat { if q >= MAX_QUEUES - 1 then MAX_QUEUES - 1 else q + 1 }

  // priority_MLFQ.
  function Dispatch(s: Sched, cur: int): (r: (Sched, Outcome))
    requires Shape(s) && -1 <= cur < NENV
    ensures Shape(r.0)
  {
    var q := BestFrom(s, 0);
    if q == -1 then
      if cur != -1 && s.info[cur].status == Running then
        var c := Count(s, cur);
        (c.(info := EnvRun(c.info, cur, cur)), Run(cur))
      else (s, Halt)
    else
      var k := FirstRunnable(s, s.queues[q]);
      var id := s.queues[q][k];
      var c := Count(Push(SetQueue(s, q, SwapRemove(s.queues[q], k)), id, NextQueue(q)), EnvX(id));
      (c.(info := EnvRun(c.info, cur, EnvX(id))), Run(EnvX(id)))
  }

  // sched_yield.
  function Yield(s: Sched, cur: int): (r: (Sched, Outcome))
    requires Shape(s) && -1 <= cur < NENV
    ensures Shape(r.0)
  {
    Dispatch(if s.total >= MAX_MLFQ_EXECUTIONS then Boost(s) else s, cur)
  }

  // ---------------------------------------------------------------- conservation

  // All entries of the four rings.
  ghost function Entries(s: Sched): multiset<int>
    requires Shape(s)
  {
    multiset(s.queues[0]) + multiset(s.queues[1]) + multiset(s.queues[2]) + multiset(s.queues[3])
  }

  lemma SwapRemoveKeeps(queue: seq<int>, k: nat)
    requires k < |queue|
    ensures multiset(queue) == multiset(SwapRemove(queue, k)) + multiset{queue[k]}
  {
    if k == 0 {
      assert SwapRemove(queue, k) == queue[1..];
      assert queue == [queue[0]] + queue[1..];
    } else {
      var mid, rest := queue[1..k], queue[k + 1..];
      assert SwapRemove(queue, k) == mid + [queue[0]] + rest;
      assert queue == [queue[0]] + mid + [queue[k]] + rest;
    }
  }

  // Everything but the removed entry and the head moves up by one; the head takes the free place.
  lemma SwapRemoveOrder(queue: seq<int>, k: nat)
    requires k < |queue|
    ensures forall o :: 0 < o < |queue| && o != k ==> SwapRemove(queue, k)[o - 1] == queue[o]
    ensures 0 < k ==> SwapRemove(queue, k)[k - 1] == queue[0]
  {
  }

  lemma SetQueueEntries(s: Sched, q: nat, queue: seq<int>)
    requires Shape(s) && q < MAX_QUEUES
    ensures Entries(SetQueue(s, q, queue)) + multiset(s.queues[q]) == Entries(s) + multiset(queue)
  {
  }

  lemma PushEntries(s: Sched, id: int, q: nat)
    requires Shape(s) && q < MAX_QUEUES
    ensures Entries(Push(s, id, q)) == Entries(s) + multiset{id}
  {
    SetQueueEntries(s, q, s.queues[q] + [id]);
  }

  // Swap-removal followed by a push somewhere moves one entry.
  lemma MoveEntries(s: Sched, q: nat, k: nat, to: nat)
    requires Shape(s) && q < MAX_QUEUES && k < |s.queues[q]| && to < MAX_QUEUES
    ensures Entries(Push(SetQueue(s, q, SwapRemove(s.queues[q], k)), s.queues[q][k], to)) == Entries(s)
  {
    var queue := s.queues[q];
    SwapRemoveKeeps(queue, k);
    var r := SetQueue(s, q, SwapRemove(queue, k));
    SetQueueEntries(s, q, SwapRemove(queue, k));
    PushEntries(r, queue[k], to);
    assert Entries(r) + multiset{queue[k]} == Entries(s);
  }

  // Entries are a matter of the rings only.
  lemma SameRings(s: Sched, s1: Sched)
    requires Shape(s) && Shape(s1) && s1.queues == s.queues
    ensures Entries(s1) == Entries(s)
  {
  }

  lemma DispatchConserves(s: Sched, cur: int)
    requires Shape(s) && -1 <= cur < NENV
    ensures Entries(Dispatch(s, cur).0) == Entries(s)
  {
    hide Entries, EnvRun, SwapRemove;
    var q := BestFrom(s, 0);
    if q != -1 {
      var k := FirstRunnable(s, s.queues[q]);
      MoveEntries(s, q, k, NextQueue(q));
      SameRings(Push(SetQueue(s, q, SwapRemove(s.queues[q], k)), s.queues[q][k], NextQueue(q)), Dispatch(s, cur).0);
    } else {
      SameRings(s, Dispatch(s, cur).0);
    }
  }

  // No call of the scheduler loses, duplicates or invents an entry, boosting included.
  lemma YieldConserves(s: Sched, cur: int)
    requires Shape(s) && -1 <= cur < NENV
    ensures Entries(Yield(s, cur).0) == Entries(s)
  {
    hide Entries, Dispatch, Boost;
    if s.total >= MAX_MLFQ_EXECUTIONS {
      BoostEntries(s);
      DispatchConserves(Boost(s), cur);
    } else {
      DispatchConserves(s, cur);
    }
  }

  // ---------------------------------------------------------------- bookkeeping

  // No slot is queued under two entries, current_queue names the ring of every entry, and the
  // execution counter never passes the boost threshold.
  ghost predicate Booked(s: Sched) {
    && Shape(s) && s.total <= MAX_MLFQ_EXECUTIONS
    && OneEntryPerSlot(Entries(s))
    && forall q: nat, id :: q < MAX_QUEUES && id in s.queues[q] ==> s.info[EnvX(id)].currentQueue == q
  }

  ghost predicate OneEntryPerSlot(m: multiset<int>) {
    && (forall a :: m[a] <= 1)
    && (forall a, b :: a in m && b in m && EnvX(a) == EnvX(b) ==> a == b)
  }

  lemma EntriesOf(s: Sched)
    requires Shape(s)
    ensures forall id :: id in Entries(s) <==> exists q: nat :: q < MAX_QUEUES && id in s.queues[q]
  {
    forall id ensures id in Entries(s) <==> exists q: nat :: q < MAX_QUEUES && id in s.queues[q] {
      if id in Entries(s) {
        assert id in s.queues[0] || id in s.queues[1] || id in s.queues[2] || id in s.queues[3];
      }
    }
  }

  // An id is not in two rings.
  lemma OneRing(s: Sched, a: nat, b: nat, id: int)
    requires Shape(s) && OneEntryPerSlot(Entries(s)) && a < b < MAX_QUEUES
    ensures id !in s.queues[a] || id !in s.queues[b]
  {
    assert multiset(s.queues[a])[id] + multiset(s.queues[b])[id] <= Entries(s)[id];
  }

  lemma BoostEntries(s: Sched)
    requires Shape(s)
    ensures Entries(Boost(s)) == Entries(s)
  {
    hide PushAll;
  }

  lemma BoostBooked(s: Sched)
    requires Booked(s)
    ensures Booked(Boost(s))
  {
    hide OneEntryPerSlot, Entries;
    BoostEntries(s);
    var s1 := PushAll(s, s.queues[1]);
    var s2 := PushAll(s1, s.queues[2]);
    var s3 := PushAll(s2, s.queues[3]);
    var b := Boost(s);
    assert b.info == s3.info;
    hide Boost, PushAll;
    forall id | id in b.queues[0] ensures b.info[EnvX(id)].currentQueue == 0 {
      if id in s.queues[0] {
        assert s.info[EnvX(id)].currentQueue == 0;
      }
    }
  }

  // The id taken out of a ring is then in none.
  lemma MovedOut(s: Sched, q: nat, k: nat)
    requires Booked(s) && q < MAX_QUEUES && k < |s.queues[q]|
    ensures var id, r := s.queues[q][k], SetQueue(s, q, SwapRemove(s.queues[q], k));
      forall p: nat :: p < MAX_QUEUES ==> id !in r.queues[p]
  {
    hide SwapRemove;
    var id, r := s.queues[q][k], SetQueue(s, q, SwapRemove(s.queues[q], k));
    SwapRemoveKeeps(s.queues[q], k);
    EntriesOf(s);
    assert multiset(SwapRemove(s.queues[q], k))[id] == 0 by {
      assert multiset(s.queues[q])[id] <= Entries(s)[id] <= 1;
    }
    forall p: nat | p < MAX_QUEUES ensures id !in r.queues[p] {
      if p == q {
        assert id !in multiset(r.queues[q]);
      } else {
        OneRing(s, if p < q then p else q, if p < q then q else p, id);
      }
    }
  }

  // Moving one entry keeps the books.
  lemma MoveBooked(s: Sched, q: nat, k: nat, to: nat)
    requires Booked(s) && q < MAX_QUEUES && k < |s.queues[q]| && to < MAX_QUEUES
    ensures Booked(Push(SetQueue(s, q, SwapRemove(s.queues[q], k)), s.queues[q][k], to))
  {
    hide SwapRemove, EnvX, Entries, OneEntryPerSlot;
    var id := s.queues[q][k];
    var r := SetQueue(s, q, SwapRemove(s.queues[q], k));
    var m := Push(r, id, to);
    MoveEntries(s, q, k, to);
    MovedOut(s, q, k);
    forall p: nat, a | p < MAX_QUEUES && a in m.queues[p] ensures m.info[EnvX(a)].currentQueue == p {
      PushedInfo(r, id, to, p, a);
      if a != id {
        StaysFrom(s, q, k, p, a);
        OtherSlot(s, p, a, q, id);
      }
    }
  }

  lemma PushedInfo(r: Sched, id: int, to: nat, p: nat, a: int)
    requires Shape(r) && to < MAX_QUEUES && p < MAX_QUEUES && a in Push(r, id, to).queues[p] && id !in r.queues[p]
    ensures a == id ==> p == to && Push(r, id, to).info[EnvX(id)].currentQueue == to
    ensures a != id ==> a in r.queues[p] && (EnvX(a) != EnvX(id) ==> Push(r, id, to).info[EnvX(a)] == r.info[EnvX(a)])
  {
    hide EnvX;
  }

  lemma StaysFrom(s: Sched, q: nat, k: nat, p: nat, a: int)
    requires Shape(s) && q < MAX_QUEUES && k < |s.queues[q]| && p < MAX_QUEUES
    requires a in SetQueue(s, q, SwapRemove(s.queues[q], k)).queues[p]
    ensures a in s.queues[p] && SetQueue(s, q, SwapRemove(s.queues[q], k)).info == s.info
  {
    hide SwapRemove;
    StillThere(s.queues[q], k);
  }

  lemma OtherSlot(s: Sched, p: nat, a: int, q: nat, b: int)
    requires Booked(s) && p < MAX_QUEUES && q < MAX_QUEUES && a in s.queues[p] && b in s.queues[q] && a != b
    ensures EnvX(a) != EnvX(b)
  {
    hide EnvX, Entries;
    EntriesOf(s);
    assert a in Entries(s) && b in Entries(s);
  }

  lemma StillThere(queue: seq<int>, k: nat)
    requires k < |queue|
    ensures forall a :: a in SwapRemove(queue, k) ==> a in queue
  {
    SwapRemoveKeeps(queue, k);
    forall a | a in SwapRemove(queue, k) ensures a in queue {
      assert a in multiset(SwapRemove(queue, k));
    }
  }

  // Statuses, run counts and the total say nothing about the rings.
  lemma BookedRings(s: Sched, s1: Sched)
    requires Booked(s) && Shape(s1) && s1.queues == s.queues && s1.total <= MAX_MLFQ_EXECUTIONS
    requires forall i :: 0 <= i < NENV ==> s1.info[i].currentQueue == s.info[i].currentQueue
    ensures Booked(s1)
  {
  }

  lemma DispatchBooked(s: Sched, cur: int)
    requires Booked(s) && s.total < MAX_MLFQ_EXECUTIONS && -1 <= cur < NENV
    ensures Booked(Dispatch(s, cur).0)
  {
    var q := BestFrom(s, 0);
    hide OneEntryPerSlot, Entries, EnvRun, Count, EnvX, SwapRemove, FirstRunnable;
    if q != -1 {
      var k := FirstRunnable(s, s.queues[q]);
      MoveBooked(s, q, k, NextQueue(q));
      hide Booked;
      BookedRings(Push(SetQueue(s, q, SwapRemove(s.queues[q], k)), s.queues[q][k], NextQueue(q)), Dispatch(s, cur).0);
    } else {
      BookedRings(s, Dispatch(s, cur).0);
    }
  }

  // A call of the scheduler keeps the books.
  lemma YieldBooked(s: Sched, cur: int)
    requires Booked(s) && -1 <= cur < NENV
    ensures Booked(Yield(s, cur).0)
  {
    if s.total >= MAX_MLFQ_EXECUTIONS {
      BoostBooked(s);
      DispatchBooked(Boost(s), cur);
    } else {
      DispatchBooked(s, cur);
    }
  }

  // Who is dispatched, and where its entry goes: the first runnable entry of the lowest-numbered
  // queue that has one, moved one queue down. (s is the state after a boost, if one was due.)
  lemma DispatchRule(s: Sched, cur: int, q: nat, k: nat)
    requires Shape(s) && -1 <= cur < NENV && q < MAX_QUEUES && k < |s.queues[q]|
    requires IsRunnable(s, s.queues[q][k]) && forall j :: 0 <= j < k ==> !IsRunnable(s, s.queues[q][j])
    requires forall p: nat, j :: p < q && 0 <= j < |s.queues[p]| ==> !IsRunnable(s, s.queues[p][j])
    ensures var (s1, out) := Dispatch(s, cur);
      var id := s.queues[q][k];
      && out == Run(EnvX(id)) && s1.info[EnvX(id)].status == Running
      && s1.info[EnvX(id)].currentQueue == NextQueue(q)
      && s1.queues[NextQueue(q)] != [] && s1.queues[NextQueue(q)][|s1.queues[NextQueue(q)]| - 1] == id
      && s1.total == s.total + 1
  {
    assert FirstRunnable(s, s.queues[q]) == k;
    assert forall p: nat :: p < q ==> !HasRunnable(s, p);
    assert HasRunnable(s, q);
    assert BestFrom(s, 0) == q;
  }

  // ---------------------------------------------------------------- what a call does, spelled out

  // Entry k of queue q is the first that may run: none before it, in its queue or a lower one, can.
  ghost predicate FirstToRun(s: Sched, q: nat, k: nat)
    requires Shape(s)
  {
    && q < 4 && k < |s.queues[q]| && IsRunnable(s, s.queues[q][k])
    && (forall j :: 0 <= j < k ==> !IsRunnable(s, s.queues[q][j]))
    && (forall p, j :: 0 <= p < q && 0 <= j < |s.queues[p]| ==> !IsRunnable(s, s.queues[p][j]))
  }

  ghost predicate NoneToRun(s: Sched)
    requires Shape(s)
  {
    forall p, j :: 0 <= p < 4 && 0 <= j < |s.queues[p]| ==> !IsRunnable(s, s.queues[p][j])
  }

  // Entry k gone, the head in its place.
  ghost predicate TakenOut(queue: seq<int>, k: nat, left: seq<int>)
    requires k < |queue|
  {
    left == if k == 0 then queue[1..] else queue[1..k] + [queue[0]] + queue[k + 1..]
  }

  // Entry k of queue q goes to the end of the next lower queue, and its environment is to run.
  ghost predicate Moved(s: Sched, s1: Sched, out: Outcome, q: nat, k: nat)
    requires Shape(s) && Shape(s1) && FirstToRun(s, q, k)
  {
    var id, to := s.queues[q][k], if q == 3 then 3 else q + 1;
    && out == Run(EnvX(id)) && s1.info[EnvX(id)].currentQueue == to
    && (forall p: nat :: p < 4 && p != q && p != to ==> s1.queues[p] == s.queues[p])
    && (q != 3 ==> TakenOut(s.queues[q], k, s1.queues[q]) && s1.queues[to] == s.queues[to] + [id])
    && (q == 3 ==> (
        && |s1.queues[3]| > 0 && s1.queues[3][|s1.queues[3]| - 1] == id
        && TakenOut(s.queues[3], k, s1.queues[3][..|s1.queues[3]| - 1])))
  }

  // Who runs was counted; who ran and does not any more is runnable; nothing else changes.
  ghost predicate SlotAfter(s: Sched, s1: Sched, cur: int, out: Outcome, i: nat)
    requires Shape(s) && Shape(s1) && i < NENV
  {
    var pre, post := s.info[i], s1.info[i];
    if out == Run(i) then
      && post.status == Running && post.executions == pre.executions + 1
      && (NoneToRun(s) ==> post.currentQueue == pre.currentQueue)
    else if out.Run? && i == cur && pre.status == Running then
      post.status == Runnable && post.executions == pre.executions && post.currentQueue == pre.currentQueue
    else post == pre
  }

  // priority_MLFQ: the first entry that may run is dispatched; without one the current environment
  // goes on if it was running, or the CPU halts.
  ghost predicate Dispatched(s: Sched, s1: Sched, cur: int, out: Outcome) {
    && Shape(s) && Shape(s1) && -1 <= cur < NENV
    && (NoneToRun(s) ==>
        s1.queues == s.queues && out == if cur != -1 && s.info[cur].status == Running then Run(cur) else Halt)
    && (forall q: nat, k: nat :: FirstToRun(s, q, k) ==> Moved(s, s1, out, q, k))
    && s1.total == s.total + (if out.Run? then 1 else 0)
    && (forall i: nat :: i < NENV ==> SlotAfter(s, s1, cur, out, i))
  }

  ghost predicate QueuedBelow(s: Sched, i: nat)
    requires Shape(s)
  {
    exists id :: id in s.queues[1] + s.queues[2] + s.queues[3] && EnvX(id) == i
  }

  // boost_envs and the reset of the counter: all entries in queue 0, in queue order.
  ghost predicate Boosted(s: Sched, s1: Sched) {
    && Shape(s) && Shape(s1) && s1.total == 0
    && s1.queues == [s.queues[0] + s.queues[1] + s.queues[2] + s.queues[3], [], [], []]
    && (forall i: nat :: i < NENV ==> BoostedSlot(s, s1, i))
  }

  ghost predicate BoostedSlot(s: Sched, s1: Sched, i: nat)
    requires Shape(s) && Shape(s1) && i < NENV
  {
    && s1.info[i].status == s.info[i].status && s1.info[i].executions == s.info[i].executions
    && s1.info[i].currentQueue == if QueuedBelow(s, i) then 0 else s.info[i].currentQueue
  }

  // sched_yield: every fifty executions all go back to queue 0 first.
  ghost predicate Scheduled(s: Sched, s1: Sched, cur: int, out: Outcome) {
    if s.total >= 50 then exists b :: Boosted(s, b) && Dispatched(b, s1, cur, out) else Dispatched(s, s1, cur, out)
  }

  lemma FirstToRunIs(s: Sched, q: nat, k: nat)
    requires Shape(s) && FirstToRun(s, q, k)
    ensures BestFrom(s, 0) == q && FirstRunnable(s, s.queues[q]) == k
  {
    assert HasRunnable(s, q);
    forall p: nat | p < q ensures !HasRunnable(s, p) {}
  }

  lemma NoneToRunIs(s: Sched)
    requires Shape(s)
    ensures NoneToRun(s) <==> BestFrom(s, 0) == -1
  {
    if NoneToRun(s) {
      forall p: nat | p < MAX_QUEUES ensures !HasRunnable(s, p) {}
    } else {
      var p, j :| 0 <= p < 4 && 0 <= j < |s.queues[p]| && IsRunnable(s, s.queues[p][j]);
      assert HasRunnable(s, p);
    }
  }

  lemma SwapRemoveTakesOut(queue: seq<int>, k: nat)
    requires k < |queue|
    ensures TakenOut(queue, k, SwapRemove(queue, k))
  {
  }

  lemma DispatchMoves(s: Sched, cur: int, q: nat, k: nat)
    requires Shape(s) && -1 <= cur < NENV && FirstToRun(s, q, k)
    ensures Moved(s, Dispatch(s, cur).0, Dispatch(s, cur).1, q, k)
  {
    hide SwapRemove, TakenOut, FirstRunnable, BestFrom, EnvX;
    FirstToRunIs(s, q, k);
    SwapRemoveTakesOut(s.queues[q], k);
    assert q == 3 ==> Dispatch(s, cur).0.queues[3] == SwapRemove(s.queues[3], k) + [s.queues[3][k]];
  }

  lemma DispatchSlot(s: Sched, cur: int, i: nat)
    requires Shape(s) && -1 <= cur < NENV && i < NENV
    ensures SlotAfter(s, Dispatch(s, cur).0, cur, Dispatch(s, cur).1, i)
  {
    hide SwapRemove, FirstRunnable, BestFrom, EnvX;
    NoneToRunIs(s);
  }

  lemma DispatchDoes(s: Sched, cur: int)
    requires Shape(s) && -1 <= cur < NENV
    ensures Dispatched(s, Dispatch(s, cur).0, cur, Dispatch(s, cur).1)
  {
    hide SwapRemove, FirstToRun, NoneToRun, FirstRunnable, BestFrom, EnvX, Moved, SlotAfter;
    NoneToRunIs(s);
    forall q: nat, k: nat | FirstToRun(s, q, k) ensures Moved(s, Dispatch(s, cur).0, Dispatch(s, cur).1, q, k) {
      DispatchMoves(s, cur, q, k);
    }
    forall i: nat | i < NENV ensures SlotAfter(s, Dispatch(s, cur).0, cur, Dispatch(s, cur).1, i) {
      DispatchSlot(s, cur, i);
    }
  }

  lemma {:induction false} PushAllQueue(s: Sched, ids: seq<int>, i: nat)
    requires Shape(s) && i < NENV
    ensures (exists id :: id in ids && EnvX(id) == i) ==> PushAll(s, ids).info[i].currentQueue == 0
    ensures !(exists id :: id in ids && EnvX(id) == i) ==>
      PushAll(s, ids).info[i].currentQueue == s.info[i].currentQueue
    decreases |ids|
  {
    hide EnvX;
    if ids != [] {
      var n := |ids| - 1;
      PushAllQueue(s, ids[..n], i);
      assert ids == ids[..n] + [ids[n]];
    }
  }

  lemma BoostSlot(s: Sched, i: nat)
    requires Shape(s) && i < NENV
    ensures BoostedSlot(s, Boost(s), i)
  {
    hide EnvX, PushAll;
    var s1 := PushAll(s, s.queues[1]);
    var s2 := PushAll(s1, s.queues[2]);
    PushAllQueue(s, s.queues[1], i);
    PushAllQueue(s1, s.queues[2], i);
    PushAllQueue(s2, s.queues[3], i);
    if QueuedBelow(s, i) {
      var id :| id in s.queues[1] + s.queues[2] + s.queues[3] && EnvX(id) == i;
    }
  }

  lemma BoostDoes(s: Sched)
    requires Shape(s)
    ensures Boosted(s, Boost(s))
  {
    hide BoostedSlot, PushAll;
    forall i: nat | i < NENV ensures BoostedSlot(s, Boost(s), i) { BoostSlot(s, i); }
  }

  lemma YieldDoes(s: Sched, cur: int)
    requires Shape(s) && -1 <= cur < NENV
    ensures Scheduled(s, Yield(s, cur).0, cur, Yield(s, cur).1)
  {
    hide Dispatch, Boost, Boosted, Dispatched;
    if s.total >= MAX_MLFQ_EXECUTIONS {
      BoostDoes(s);
      DispatchDoes(Boost(s), cur);
    } else {
      DispatchDoes(s, cur);
    }
  }

  // ---------------------------------------------------------------- sys_env_set_priority

  function IndexOf(queue: seq<int>, id: int): (k: nat)
    ensures k <= |queue| && (k < |queue| ==> queue[k] == id) && id !in queue[..k]
    ensures k < |queue| <==> id in queue
  {
    if queue == [] || queue[0] == id then 0
    else
      var k := 1 + IndexOf(queue[1..], id);
      assert queue[..k] == [queue[0]] + queue[1..][..k - 1];
      assert queue == [queue[0]] + queue[1..];
      k
  }

  // get_queue: the ring of a queue number.
  function RingOf(q: nat): nat { if q < MAX_QUEUES then q else MAX_QUEUES - 1 }

  // sched_destroy_env.
  function Destroy(s: Sched, id: int): (r: Sched)
    requires Shape(s) && s.info[EnvX(id)].currentQueue >= 0
    ensures Shape(r) && r.info == s.info
  {
    var q := RingOf(s.info[EnvX(id)].currentQueue);
    var k := IndexOf(s.queues[q], id);
    if k < |s.queues[q]| then SetQueue(s, q, SwapRemove(s.queues[q], k)) else s
  }

  // sys_env_set_priority on the environment with this id; found and permitted are the outcomes of
  // envid2env and of the ownership test. An environment may only lower its priority.
  function SetPriority(s: Sched, found: bool, permitted: bool, id: int, priority: int): (r: (Sched, int))
    requires Shape(s) && s.info[EnvX(id)].currentQueue >= 0
  {
    var queue := s.info[EnvX(id)].currentQueue;
    if priority < 0 || priority > 3 || !found || !permitted then (s, -1)
    else if queue == priority then (s, priority)
    else if queue > priority then (s, -1)
    else (Push(Destroy(s, id), id, priority), priority)
  }

  // The first entry for id is taken out of a queue that has one.
  ghost predicate Dropped(queue: seq<int>, id: int, left: seq<int>) {
    && (id !in queue ==> left == queue)
    && (forall k: nat :: k < |queue| && queue[k] == id && (forall j :: 0 <= j < k ==> queue[j] != id) ==>
          TakenOut(queue, k, left))
  }

  // sched_destroy_env: only the queue that current_queue names, 3 for a larger number, changes.
  ghost predicate Destroyed(s: Sched, s1: Sched, id: int) {
    && Shape(s) && Shape(s1) && s1.info == s.info && s1.total == s.total && s.info[EnvX(id)].currentQueue >= 0
    && var q := if s.info[EnvX(id)].currentQueue < 4 then s.info[EnvX(id)].currentQueue else 3;
      Dropped(s.queues[q], id, s1.queues[q]) && forall p: nat :: p < 4 && p != q ==> s1.queues[p] == s.queues[p]
  }

  // sys_env_set_priority, by cases; current_queue is the only field that may change.
  ghost predicate PrioritySet(s: Sched, s1: Sched, found: bool, permitted: bool, id: int, priority: int, r: int) {
    && Shape(s) && Shape(s1)
    && var q := s.info[EnvX(id)].currentQueue;
      if priority < 0 || priority > 3 || !found || !permitted || q > priority then s1 == s && r == -1
      else if q == priority then s1 == s && r == priority
      else
        && r == priority && s1.total == s.total && 0 <= q
        && s1.info == s.info[EnvX(id) := s.info[EnvX(id)].(currentQueue := priority)]
        && s1.queues[priority] == s.queues[priority] + [id] && Dropped(s.queues[q], id, s1.queues[q])
        && forall p: nat :: p < 4 && p != q && p != priority ==> s1.queues[p] == s.queues[p]
  }

  lemma DestroyDoes(s: Sched, id: int)
    requires Shape(s) && s.info[EnvX(id)].currentQueue >= 0
    ensures Destroyed(s, Destroy(s, id), id)
  {
    hide SwapRemove, TakenOut, EnvX;
    var q := RingOf(s.info[EnvX(id)].currentQueue);
    var k := IndexOf(s.queues[q], id);
    if k < |s.queues[q]| { SwapRemoveTakesOut(s.queues[q], k); }
  }

  lemma SetPriorityDoes(s: Sched, found: bool, permitted: bool, id: int, priority: int)
    requires Shape(s) && s.info[EnvX(id)].currentQueue >= 0
    ensures var (s1, r) := SetPriority(s, found, permitted, id, priority);
      PrioritySet(s, s1, found, permitted, id, priority, r)
  {
    hide Destroy, Dropped, EnvX;
    DestroyDoes(s, id);
  }

  // A queued environment's entry moves from its ring to the end of the one asked for, and nothing
  // else is lost or gained; every failing call changes nothing.
  lemma SetPriorityMoves(s: Sched, found: bool, permitted: bool, id: int, priority: int)
    requires Booked(s) && id in Entries(s)
    ensures s.info[EnvX(id)].currentQueue >= 0
    ensures var (s1, r) := SetPriority(s, found, permitted, id, priority);
      && Booked(s1) && Entries(s1) == Entries(s)
      && (r == -1 || r == priority)
      && (r == -1 ==> s1 == s)
      && (r != -1 ==> found && permitted && s.info[EnvX(id)].currentQueue <= priority <= 3)
      && (r != -1 ==> id in s1.queues[priority] && s1.info[EnvX(id)].currentQueue == priority)
  {
    hide EnvX, SwapRemove, Entries, OneEntryPerSlot;
    EntriesOf(s);
    var q: nat :| q < MAX_QUEUES && id in s.queues[q];
    assert s.info[EnvX(id)].currentQueue == q;
    if found && permitted && q < priority <= 3 {
      var k := IndexOf(s.queues[q], id);
      MoveEntries(s, q, k, priority);
      MoveBooked(s, q, k, priority);
      var s1 := SetPriority(s, found, permitted, id, priority).0;
      assert s1.queues[priority][|s1.queues[priority]| - 1] == id;
    }
  }

  // env_alloc's push: a slot that is queued nowhere gets one entry.
  lemma AllocPushes(s: Sched, id: int, q: nat)
    requires Booked(s) && q < MAX_QUEUES
    requires forall a :: a in Entries(s) ==> EnvX(a) != EnvX(id)
    ensures Booked(Push(s, id, q)) && Entries(Push(s, id, q)) == Entries(s) + multiset{id}
  {
    PushEntries(s, id, q);
    EntriesOf(s);
    var r := Push(s, id, q);
    forall p: nat, a | p < MAX_QUEUES && a in r.queues[p] ensures r.info[EnvX(a)].currentQueue == p {
      if a in s.queues[p] {
        assert a in Entries(s);
      } else {
        assert p == q && a == id;
      }
    }
  }

  // ---------------------------------------------------------------- bounded waiting

  ghost function Size(s: Sched): nat
    requires Shape(s)
  {
    |s.queues[0]| + |s.queues[1]| + |s.queues[2]| + |s.queues[3]|
  }

  // The entry at offset o of queue q.
  ghost predicate At(s: Sched, q: nat, o: nat, x: int) {
    Shape(s) && q < MAX_QUEUES && o < |s.queues[q]| && s.queues[q][o] == x
  }

  // How many calls of the scheduler can still pass over the entry at offset o of queue q, when at
  // most n entries are ever queued: in queue 0 the offset, elsewhere the calls until the next boost
  // and then the worst offset in queue 0.
  ghost function Wait(s: Sched, q: nat, o: nat, n: nat): int {
    if q == 0 then o else MAX_MLFQ_EXECUTIONS - s.total + n - 1
  }

  lemma BoostAt(s: Sched, q: nat, o: nat, x: int) returns (o1: nat)
    requires At(s, q, o, x)
    ensures At(Boost(s), 0, o1, x) && o1 < Size(s) && (q == 0 ==> o1 == o)
    ensures IsRunnable(Boost(s), x) == IsRunnable(s, x)
  {
    var b := Boost(s).queues[0];
    var z, a, c := |s.queues[0]|, |s.queues[1]|, |s.queues[2]|;
    o1 := o + if q == 0 then 0 else if q == 1 then z else if q == 2 then z + a else z + a + c;
    assert b[o1] == x;
  }

  // A dispatch that passes over a runnable entry brings it one place nearer in the queue that was
  // served and leaves it in place otherwise, despite the swap.
  lemma DispatchAt(s: Sched, cur: int, q: nat, o: nat, x: int) returns (o1: nat)
    requires At(s, q, o, x) && IsRunnable(s, x) && -1 <= cur < NENV
    ensures var (s1, out) := Dispatch(s, cur);
      && out.Run?
      && (out == Run(EnvX(x)) || (At(s1, q, o1, x) && s1.total == s.total + 1
          && o1 == if BestFrom(s, 0) == q then o - 1 else o))
  {
    o1 := o;
    assert HasRunnable(s, q);
    var b := BestFrom(s, 0);
    assert 0 <= b <= q;
    var k := FirstRunnable(s, s.queues[b]);
    if b == q {
      assert k <= o;
      if k < o {
        SwapRemoveOrder(s.queues[q], k);
        o1 := o - 1;
      }
    }
  }

  // One call: the entry is dispatched, or it can be passed over once less.
  lemma YieldAt(s: Sched, cur: int, q: nat, o: nat, x: int, n: nat) returns (q1: nat, o1: nat)
    requires At(s, q, o, x) && IsRunnable(s, x) && -1 <= cur < NENV
    requires Size(s) <= n && s.total <= MAX_MLFQ_EXECUTIONS
    ensures var (s1, out) := Yield(s, cur);
      && out.Run?
      && (out == Run(EnvX(x)) || (At(s1, q1, o1, x) && Wait(s1, q1, o1, n) < Wait(s, q, o, n)
          && s1.total <= MAX_MLFQ_EXECUTIONS))
  {
    if s.total >= MAX_MLFQ_EXECUTIONS {
      q1 := 0;
      o1 := BoostAt(s, q, o, x);
      o1 := DispatchAt(Boost(s), cur, 0, o1, x);
    } else {
      q1 := q;
      o1 := DispatchAt(s, cur, q, o, x);
    }
  }

  // What may happen between two calls of the scheduler besides sys_env_set_priority: statuses change
  // and new entries are pushed behind the queued ones.
  ghost predicate Elsewhere(s: Sched, s1: Sched) {
    && Shape(s) && Shape(s1) && s1.total == s.total
    && forall q: nat :: q < MAX_QUEUES ==> s.queues[q] <= s1.queues[q]
  }

  datatype Event =
    | Call(cur: int, out: Outcome)
    | Priority(found: bool, permitted: bool, id: int, priority: int)
    | Other

  ghost predicate Step(s: Sched, e: Event, s1: Sched) {
    match e
    case Call(cur, out) => Shape(s) && -1 <= cur < NENV && Yield(s, cur) == (s1, out)
    case Priority(found, permitted, id, priority) =>
      Shape(s) && s.info[EnvX(id)].currentQueue >= 0 && s1 == SetPriority(s, found, permitted, id, priority).0
    case Other => Elsewhere(s, s1)
  }

  // sys_env_set_priority takes the entry of id out of queue q at offset k.
  ghost predicate TakesOut(s: Sched, e: Event, q: nat, k: nat) {
    && e.Priority? && Shape(s) && e.found && e.permitted && e.priority <= 3
    && s.info[EnvX(e.id)].currentQueue == q < e.priority
    && k == IndexOf(s.queues[q], e.id) < |s.queues[q]|
  }

  // The calls of sys_env_set_priority that make x wait longer: x itself leaves queue 0, or x is the
  // head of queue 0 and the entry that leaves it is not the next one, whose place x then takes.
  ghost predicate Setback(s: Sched, e: Event, x: int) {
    exists k: nat :: TakesOut(s, e, 0, k) && (e.id == x || (s.queues[0][0] == x && k > 1))
  }

  // Wherever x is queued, sys_env_set_priority leaves it queued, and no further from being
  // dispatched unless it is a setback.
  lemma PriorityAt(s: Sched, e: Event, s1: Sched, q: nat, o: nat, x: int, n: nat) returns (q1: nat, o1: nat)
    requires e.Priority? && Step(s, e, s1) && At(s, q, o, x) && Size(s) <= n && s.total <= MAX_MLFQ_EXECUTIONS
    ensures At(s1, q1, o1, x) && s1.total == s.total
    ensures Wait(s1, q1, o1, n) <= Wait(s, q, o, n) + if Setback(s, e, x) then MAX_MLFQ_EXECUTIONS + n else 0
  {
    q1, o1 := q, o;
    var r := s.info[EnvX(e.id)].currentQueue;
    if s1 == s || r != q || e.id !in s.queues[r] {
      return;
    }
    var k := IndexOf(s.queues[q], e.id);
    assert TakesOut(s, e, q, k);
    SwapRemoveOrder(s.queues[q], k);
    assert s1.queues[q] == SwapRemove(s.queues[q], k);
    if k == o {
      q1, o1 := e.priority, |s.queues[e.priority]|;
    } else {
      o1 := if o > 0 then o - 1 else k - 1;
    }
  }

  // The head of queue 0 takes the place of an entry that leaves the queue from behind: another
  // environment's call moves x behind all the entries between them.
  lemma HeadIsSetBack(s: Sched, e: Event, s1: Sched, x: int, k: nat)
    requires Step(s, e, s1) && At(s, 0, 0, x) && TakesOut(s, e, 0, k) && k > 1
    ensures At(s1, 0, k - 1, x) && Setback(s, e, x)
    ensures forall j :: 0 < j < k ==> s1.queues[0][j - 1] == s.queues[0][j]
  {
    SwapRemoveOrder(s.queues[0], k);
    assert s1.queues[0] == SwapRemove(s.queues[0], k);
  }

  ghost predicate IsRun(states: seq<Sched>, events: seq<Event>) {
    && |states| == |events| + 1
    && forall i :: 0 <= i < |events| ==> Step(states[i], events[i], states[i + 1])
  }

  ghost function Calls(events: seq<Event>): nat {
    if events == [] then 0 else (if events[0].Call? then 1 else 0) + Calls(events[1..])
  }

  ghost function Setbacks(states: seq<Sched>, events: seq<Event>, x: int): nat
    requires |events| <= |states|
  {
    if events == [] then 0
    else (if Setback(states[0], events[0], x) then 1 else 0) + Setbacks(states[1..], events[1..], x)
  }

  ghost predicate Dispatches(e: Event, x: int) { e.Call? && e.out == Run(EnvX(x)) }

  // Until some call dispatches it, x is runnable whenever anything happens, and at most n entries
  // are queued; afterwards nothing is asked of the run.
  ghost predicate Waits(states: seq<Sched>, events: seq<Event>, x: int, n: nat)
    requires |states| == |events| + 1
  {
    forall i :: 0 <= i < |events| && (forall j :: 0 <= j < i ==> !Dispatches(events[j], x)) ==>
      Shape(states[i]) && IsRunnable(states[i], x) && Size(states[i]) <= n
  }

  lemma RunTail(states: seq<Sched>, events: seq<Event>, x: int, n: nat)
    requires IsRun(states, events) && Waits(states, events, x, n) && events != [] && !Dispatches(events[0], x)
    ensures IsRun(states[1..], events[1..]) && Waits(states[1..], events[1..], x, n)
  {
    hide Step, Shape, IsRunnable, Size, Dispatches;
    var ss, es := states[1..], events[1..];
    forall k | 0 <= k < |es| ensures Step(ss[k], es[k], ss[k + 1]) {
      assert Step(states[k + 1], events[k + 1], states[k + 2]);
    }
    forall k | 0 <= k < |es| && (forall j :: 0 <= j < k ==> !Dispatches(es[j], x))
      ensures Shape(ss[k]) && IsRunnable(ss[k], x) && Size(ss[k]) <= n
    {
      forall j | 0 <= j < k + 1 ensures !Dispatches(events[j], x) {
        assert j > 0 ==> events[j] == es[j - 1];
      }
    }
  }

  // What one event takes off the wait.
  ghost predicate Shorter(w: int, w1: int, s: Sched, e: Event, x: int, n: nat) {
    w1 <= w - (if e.Call? then 1 else 0) + (if Setback(s, e, x) then MAX_MLFQ_EXECUTIONS + n else 0)
  }

  // The first event of a run: x is dispatched by it, or waits on, with less to wait for a call.
  lemma FirstEvent(s: Sched, e: Event, s1: Sched, x: int, q: nat, o: nat, n: nat) returns (q1: nat, o1: nat)
    requires Step(s, e, s1) && At(s, q, o, x) && s.total <= MAX_MLFQ_EXECUTIONS
    requires IsRunnable(s, x) && Size(s) <= n
    ensures Dispatches(e, x) || (At(s1, q1, o1, x) && s1.total <= MAX_MLFQ_EXECUTIONS
      && Shorter(Wait(s, q, o, n), Wait(s1, q1, o1, n), s, e, x, n))
  {
    hide Setback;
    q1, o1 := q, o;
    if e.Call? {
      q1, o1 := YieldAt(s, e.cur, q, o, x, n);
    } else if e.Priority? {
      q1, o1 := PriorityAt(s, e, s1, q, o, x, n);
    }
  }

  // What the setbacks of a run cost, one by one.
  ghost function Cost(setbacks: nat, n: nat): nat {
    if setbacks == 0 then 0 else MAX_MLFQ_EXECUTIONS + n + Cost(setbacks - 1, n)
  }

  lemma Distributes(a: nat, b: nat)
    ensures a * (1 + b) == a + a * b
  {
  }

  lemma {:induction false} CostIs(setbacks: nat, n: nat)
    ensures MAX_MLFQ_EXECUTIONS + n + Cost(setbacks, n) == (MAX_MLFQ_EXECUTIONS + n) * (1 + setbacks)
  {
    Distributes(MAX_MLFQ_EXECUTIONS + n, setbacks);
    if setbacks > 0 {
      CostIs(setbacks - 1, n);
    }
  }

  lemma RunHead(states: seq<Sched>, events: seq<Event>, x: int, n: nat)
    requires IsRun(states, events) && Waits(states, events, x, n) && Calls(events) > 0
    ensures events != [] && Step(states[0], events[0], states[0 + 1]) && IsRunnable(states[0], x)
    ensures Size(states[0]) <= n
  {
    hide Step, IsRunnable, Size, Dispatches;
  }

  // Calls and setbacks among the first k + 1 events.
  lemma CallsAndSetbacks(states: seq<Sched>, events: seq<Event>, x: int, k: nat)
    requires k < |events| < |states|
    ensures Calls(events[..k + 1]) == (if events[0].Call? then 1 else 0) + Calls(events[1..][..k])
    ensures Setbacks(states, events[..k + 1], x) ==
      (if Setback(states[0], events[0], x) then 1 else 0) + Setbacks(states[1..], events[1..][..k], x)
  {
    hide Setback;
    assert events[..k + 1][1..] == events[1..][..k];
  }

  lemma FirstDispatch(states: seq<Sched>, events: seq<Event>, x: int, n: nat)
    requires 0 < |events| < |states|
    ensures Calls(events[..1]) <= 1 && Cost(Setbacks(states, events[..0], x), n) == 0
  {
    hide Setback;
    assert events[..1] == [events[0]] && events[..0] == [];
    assert Calls([]) == 0;
  }

  lemma EnoughLeft(states: seq<Sched>, events: seq<Event>, x: int, n: nat, w: int, w1: int)
    requires 0 < |events| < |states| && Shorter(w, w1, states[0], events[0], x, n)
    requires w + Cost(Setbacks(states, events, x), n) < Calls(events)
    ensures w1 + Cost(Setbacks(states[1..], events[1..], x), n) < Calls(events[1..])
  {
    hide Setback;
  }

  lemma LaterDispatch(states: seq<Sched>, events: seq<Event>, x: int, n: nat, w: int, w1: int, i: nat)
    requires i + 1 < |events| < |states| && Shorter(w, w1, states[0], events[0], x, n)
    requires Calls(events[1..][..i + 1]) <= w1 + Cost(Setbacks(states[1..], events[1..][..i], x), n) + 1
    ensures Calls(events[..i + 2]) <= w + Cost(Setbacks(states, events[..i + 1], x), n) + 1
  {
    hide Setback, Calls, Setbacks;
    CallsAndSetbacks(states, events, x, i);
    CallsAndSetbacks(states, events, x, i + 1);
  }

  lemma {:induction false} WaitRunsOut(states: seq<Sched>, events: seq<Event>, x: int, q: nat, o: nat, n: nat)
      returns (i: nat)
    requires IsRun(states, events) && Waits(states, events, x, n)
    requires At(states[0], q, o, x) && states[0].total <= MAX_MLFQ_EXECUTIONS
    requires n > 0 && Wait(states[0], q, o, n) + Cost(Setbacks(states, events, x), n) < Calls(events)
    ensures i < |events| && Dispatches(events[i], x)
    ensures Calls(events[..i + 1]) <= Wait(states[0], q, o, n) + Cost(Setbacks(states, events[..i], x), n) + 1
    decreases |events|
  {
    hide Step, Dispatches, IsRunnable, Size, Setback, Calls, Setbacks, Waits, At, Wait, Shape, IsRun, Cost, Shorter;
    RunLength(states, events);
    WaitIsNat(states[0], q, o, x, n);
    RunHead(states, events, x, n);
    var q1, o1 := FirstEvent(states[0], events[0], states[1], x, q, o, n);
    if Dispatches(events[0], x) {
      FirstDispatch(states, events, x, n);
      return 0;
    }
    RunTail(states, events, x, n);
    EnoughLeft(states, events, x, n, Wait(states[0], q, o, n), Wait(states[1], q1, o1, n));
    i := WaitRunsOut(states[1..], events[1..], x, q1, o1, n);
    LaterDispatch(states, events, x, n, Wait(states[0], q, o, n), Wait(states[1], q1, o1, n), i);
    i := i + 1;
  }

  lemma WaitIsNat(s: Sched, q: nat, o: nat, x: int, n: nat)
    requires At(s, q, o, x) && s.total <= MAX_MLFQ_EXECUTIONS && n > 0
    ensures Wait(s, q, o, n) >= 0
  {
  }

  lemma RunLength(states: seq<Sched>, events: seq<Event>)
    requires IsRun(states, events)
    ensures |states| == |events| + 1
  {
    hide Step;
  }

  lemma PriorityKeepsEntries(s: Sched, found: bool, permitted: bool, id: int, priority: int)
    requires Shape(s) && s.info[EnvX(id)].currentQueue >= 0
    ensures Shape(SetPriority(s, found, permitted, id, priority).0)
    ensures Entries(s) <= Entries(SetPriority(s, found, permitted, id, priority).0)
  {
    hide Entries, SwapRemove;
    var s1 := SetPriority(s, found, permitted, id, priority).0;
    if s1 != s {
      var q := RingOf(s.info[EnvX(id)].currentQueue);
      var k := IndexOf(s.queues[q], id);
      if k < |s.queues[q]| {
        MoveEntries(s, q, k, priority);
        SameRings(Push(SetQueue(s, q, SwapRemove(s.queues[q], k)), id, priority), s1);
      } else {
        PushEntries(s, id, priority);
        SameRings(Push(s, id, priority), s1);
      }
    }
  }

  lemma LongerRings(s: Sched, s1: Sched)
    requires Elsewhere(s, s1)
    ensures Entries(s) <= Entries(s1)
  {
    forall q: nat | q < MAX_QUEUES ensures multiset(s.queues[q]) <= multiset(s1.queues[q]) {
      assert s1.queues[q] == s.queues[q] + s1.queues[q][|s.queues[q]|..];
    }
  }

  // Whatever happens, no entry ever leaves the queues: env_destroy does not remove that of its
  // environment either, and so the rings fill up with every environment that is created.
  lemma {:induction false} EntriesStay(states: seq<Sched>, events: seq<Event>, n: nat)
    requires IsRun(states, events) && n <= |events| && Shape(states[0])
    ensures Shape(states[n]) && Entries(states[0]) <= Entries(states[n])
  {
    hide Entries, Elsewhere, Yield, SetPriority;
    if n > 0 {
      EntriesStay(states, events, n - 1);
      var s, e := states[n - 1], events[n - 1];
      assert Step(s, e, states[n - 1 + 1]);
      match e
      case Call(cur, _) => YieldConserves(s, cur);
      case Priority(found, permitted, id, priority) => PriorityKeepsEntries(s, found, permitted, id, priority);
      case Other =>
        LongerRings(s, states[n]);
        ShapeAfter(s, states[n]);
    }
  }

  lemma ShapeAfter(s: Sched, s1: Sched)
    requires Elsewhere(s, s1)
    ensures Shape(s1)
  {
  }

  // No starvation but by choice: an entry that stays runnable is dispatched within
  // MAX_MLFQ_EXECUTIONS + n calls of the scheduler, where n bounds the queued entries, and as many
  // again for every setback before.
  lemma BoundedWaiting(states: seq<Sched>, events: seq<Event>, x: int, q: nat, o: nat, n: nat) returns (i: nat)
    requires IsRun(states, events) && Waits(states, events, x, n)
    requires At(states[0], q, o, x) && states[0].total <= MAX_MLFQ_EXECUTIONS && Size(states[0]) <= n
    requires Calls(events) >= (MAX_MLFQ_EXECUTIONS + n) * (1 + Setbacks(states, events, x))
    ensures i < |events| && Dispatches(events[i], x)
    ensures Calls(events[..i + 1]) <= (MAX_MLFQ_EXECUTIONS + n) * (1 + Setbacks(states, events[..i], x))
  {
    hide Waits, Setbacks, Dispatches, Cost, Step, Calls;
    CostIs(Setbacks(states, events, x), n);
    i := WaitRunsOut(states, events, x, q, o, n);
    CostIs(Setbacks(states, events[..i], x), n);
  }
}
