/** mutex_lock and mutex_unlock as interleaved steps over the scheduler (kernel/kernel/mutex.c).

    One mutex is followed, with wait queue `m`. A process is in `retry` from the moment it found the
    mutex locked until it gets it: it waits in the queue, or it was woken and has yet to test `locked`
    again. It is in `holders` between the return of mutex_lock and its mutex_unlock. */
module Mutexes {
  import opened Common
  import opened Scheduling

  datatype System<!P> = System(s: Sched<P>, m: nat, locked: bool, holders: set<P>, retry: set<P>)

  datatype Action =
    | Lock             // one test of `locked` by the current process, and what follows from it
    | Unlock
    | Sys(e: Event)    // any other step of the kernel

  /** Only a holder unlocks. A process inside mutex_lock can be preempted there, or an interrupt can
      wake somebody, but it does not exit or wait for anything else. */
  predicate Allowed<P>(t: System<P>, a: Action) {
    && t.m in t.s.queues
    && match a
       case Lock => t.s.current.Some?
       case Unlock => t.s.current.Some? && t.s.current.value in t.holders && t.s.current.value !in t.retry
       case Sys(e) =>
         && Enabled(t.s, e)
         && (e.Exit? || e.Wait? ==> t.s.current.value !in t.retry)
         && (e.Wait? ==> e.q != t.m)
  }

  /** The step of the scheduler that an action makes, if it makes one. */
  function SchedStep<P>(t: System<P>, a: Action): Option<Event> {
    match a
    case Lock => if t.locked then Some(Wait(t.m)) else None
    case Unlock => Some(Wakeup(t.m))
    case Sys(e) => Some(e)
  }

  function Act<P>(t: System<P>, a: Action): System<P>
    requires Allowed(t, a)
  {
    match a
    case Lock =>
      var p := t.s.current.value;
      if t.locked then t.(s := Next(t.s, Wait(t.m)), retry := t.retry + {p})
      else t.(locked := true, holders := t.holders + {p}, retry := t.retry - {p})
    case Unlock =>
      t.(s := Next(t.s, Wakeup(t.m)), locked := false, holders := t.holders - {t.s.current.value})
    case Sys(e) => t.(s := Next(t.s, e))
  }

  /** The lock step: a free mutex is taken; behind a locked one the caller is the last to wait, and the
      next ready process runs. */
  lemma LockEffect<P>(t: System<P>, p: P)
    requires t.s.current == Some(p) && t.m in t.s.queues
    ensures Allowed(t, Lock)
    ensures var t' := Act(t, Lock);
            && t'.m == t.m && t'.locked
            && if !t.locked then t'.s == t.s && t'.holders == t.holders + {p} && t'.retry == t.retry - {p}
               else && t'.holders == t.holders && t'.retry == t.retry + {p}
                    && t'.s.queues == t.s.queues[t.m := t.s.queues[t.m] + [p]]
                    && HeadRuns(t'.s, t.s.ready, t.s.state[p := Blocked])
  {
    WaitEffect(t.s, t.m, p);
  }

  /** The unlock step: the mutex is free, and the first waiter is the last of the ready processes. */
  lemma UnlockEffect<P>(t: System<P>, p: P)
    requires t.s.current == Some(p) && Allowed(t, Unlock)
    ensures var t', w := Act(t, Unlock), t.s.queues[t.m];
            && t'.m == t.m && !t'.locked && t'.holders == t.holders - {p} && t'.retry == t.retry
            && t'.s.current == Some(p)
            && t'.s.ready == t.s.ready + w[..if w == [] then 0 else 1]
            && t'.s.queues == t.s.queues[t.m := if w == [] then [] else w[1..]]
  {
    WakeupEffect(t.s, t.m);
  }

  // ---------------------------------------------------------------- invariants

  /** At most one holder, and `locked` says whether there is one. */
  ghost predicate Exclusive<P>(t: System<P>) {
    && (forall p, q :: p in t.holders && q in t.holders ==> p == q)
    && (t.locked <==> t.holders != {})
  }

  predicate AtRetry<P>(t: System<P>, p: P) {
    p in t.retry && p in t.s.state && (t.s.state[p] == Ready || t.s.state[p] == Running)
  }

  /** If the mutex is free while somebody waits, some woken process is about to test it. */
  ghost predicate NoLostWakeup<P>(t: System<P>) {
    t.m in t.s.queues && !t.locked && t.s.queues[t.m] != [] ==> exists p :: p in t.retry && AtRetry(t, p)
  }

  ghost predicate Inv<P>(t: System<P>) {
    && Placed(t.s) && t.m in t.s.queues
    && Exclusive(t)
    && t.holders <= t.s.state.Keys
    && (forall p :: p in t.s.queues[t.m] ==> p in t.retry)
    && (forall p :: p in t.retry ==> p in t.s.queues[t.m] || AtRetry(t, p))
    && NoLostWakeup(t)
  }

  // ---------------------------------------------------------------- what a scheduler step does to others

  predicate Active<P(==)>(s: Sched<P>, p: P) {
    p in s.state && (s.state[p] == Ready || s.state[p] == Running)
  }

  /** A ready or running process stays so unless it exits or waits itself. */
  lemma ActiveStays<P>(s: Sched<P>, e: Event, p: P)
    requires Placed(s) && Enabled(s, e) && Active(s, p)
    requires e.Exit? || e.Wait? ==> s.current != Some(p)
    ensures Active(Next(s, e), p)
  {
    match e
    case WakeupAll(q) => WakeEachAppends(s, q);
    case _ =>
  }

  /** A step that does not enqueue in `m` can only take processes out of it, and makes them ready. */
  lemma QueueShrinks<P>(s: Sched<P>, e: Event, m: nat)
    requires Placed(s) && Enabled(s, e) && m in s.queues && e != Wait(m)
    ensures m in Next(s, e).queues
    ensures forall p | p in Next(s, e).queues[m] :: p in s.queues[m]
    ensures forall p | p in s.queues[m] :: p in Next(s, e).queues[m] || Active(Next(s, e), p)
  {
    match e
    case WakeupAll(q) => WakeEachAppends(s, q);
    case Wakeup(q) =>
      if q == m && s.queues[m] != [] {
        NoDupSuffix(s.queues[m]);
      }
    case _ =>
  }

  // ---------------------------------------------------------------- every step keeps the invariant

  lemma LockInv<P>(t: System<P>)
    requires Inv(t) && Allowed(t, Lock)
    ensures Inv(Act(t, Lock))
  {
    var p := t.s.current.value;
    NotWaiting(t.s, p);
    if t.locked {
      StepPlaced(t.s, Wait(t.m));
      var t' := Act(t, Lock);
      forall q | q in t.retry && q != p
        ensures q in t'.s.queues[t.m] || AtRetry(t', q)
      {
        if q !in t.s.queues[t.m] {
          ActiveStays(t.s, Wait(t.m), q);
        }
      }
    }
  }

  lemma UnlockInv<P>(t: System<P>)
    requires Inv(t) && Allowed(t, Unlock)
    ensures Inv(Act(t, Unlock))
  {
    StepPlaced(t.s, Wakeup(t.m));
    QueueShrinks(t.s, Wakeup(t.m), t.m);
    var t' := Act(t, Unlock);
    forall q | q in t.retry
      ensures q in t'.s.queues[t.m] || AtRetry(t', q)
    {
      if q !in t.s.queues[t.m] {
        ActiveStays(t.s, Wakeup(t.m), q);
      }
    }
    if t.s.queues[t.m] != [] {
      assert AtRetry(t', t.s.queues[t.m][0]);
    }
  }

  lemma SysInv<P>(t: System<P>, e: Event)
    requires Inv(t) && Allowed(t, Sys(e))
    ensures Inv(Act(t, Sys(e)))
  {
    StepPlaced(t.s, e);
    QueueShrinks(t.s, e, t.m);
    var t' := Act(t, Sys(e));
    forall q | q in t.retry
      ensures q in t'.s.queues[t.m] || AtRetry(t', q)
      ensures AtRetry(t, q) ==> AtRetry(t', q)
    {
      if AtRetry(t, q) {
        ActiveStays(t.s, e, q);
      }
    }
    if !t.locked && t'.s.queues[t.m] != [] {
      assert t'.s.queues[t.m][0] in t.s.queues[t.m];
      var q :| q in t.retry && AtRetry(t, q);
      assert AtRetry(t', q);
    }
  }

  lemma ActInv<P>(t: System<P>, a: Action)
    requires Inv(t) && Allowed(t, a)
    ensures Inv(Act(t, a))
  {
    match a
    case Lock => LockInv(t);
    case Unlock => UnlockInv(t);
    case Sys(e) => SysInv(t, e);
  }

  // ---------------------------------------------------------------- what callers must not do

  /** What process_exit of the current process makes of the system; a fault handler can bring it about
      inside mutex_lock. */
  function EndCurrent<P>(t: System<P>): System<P>
    requires t.s.current.Some?
  {
    t.(s := Next(t.s, Exit))
  }

  /** Some process other than the current one was woken and will test the mutex again. */
  ghost predicate AnotherAtRetry<P>(t: System<P>) {
    exists p :: p in t.retry && AtRetry(t, p) && t.s.current != Some(p)
  }

  lemma ExitKeepsOthers<P>(t: System<P>)
    requires Placed(t.s) && t.s.current.Some?
    ensures var t' := EndCurrent(t);
            && t'.s.queues == t.s.queues && t'.retry == t.retry && t'.locked == t.locked
            && forall p :: p in t.retry ==> (AtRetry(t', p) <==> AtRetry(t, p) && t.s.current != Some(p))
  {
    BeforePlaced(t.s, Exit);
    GraveStays(Before(t.s, Exit), Poll, t.s.current.value);
  }

  /** A process that is ended inside mutex_lock after it was woken loses the wakeup, and with it all
      waiters, unless the mutex is locked, nobody waits, or another woken process is left. */
  lemma ExitInLock<P>(t: System<P>)
    requires Inv(t) && t.s.current.Some? && t.s.current.value in t.retry
    ensures NoLostWakeup(EndCurrent(t)) <==> t.locked || t.s.queues[t.m] == [] || AnotherAtRetry(t)
  {
    ExitKeepsOthers(t);
    var t' := EndCurrent(t);
    if AnotherAtRetry(t) {
      var p :| p in t.retry && AtRetry(t, p) && t.s.current != Some(p);
      assert AtRetry(t', p);
    }
  }

  /** mutex_unlock by any process, holder or not. */
  function UnlockByAny<P>(t: System<P>): System<P>
    requires t.s.current.Some? && t.m in t.s.queues
  {
    t.(s := Next(t.s, Wakeup(t.m)), locked := false, holders := t.holders - {t.s.current.value})
  }

  /** It keeps exclusion exactly when the caller is the holder or there is none. */
  lemma UnlockKeepsExclusive<P>(t: System<P>)
    requires Inv(t) && t.s.current.Some?
    ensures Exclusive(UnlockByAny(t)) <==> !t.locked || t.s.current.value in t.holders
  {
    var p, hs := t.s.current.value, t.holders;
    if hs != {} && p !in hs {
      assert hs - {p} == hs;
    } else if p in hs {
      assert hs == {p};
    }
  }

  // ---------------------------------------------------------------- runs

  ghost predicate ActAt<P>(states: seq<System<P>>, actions: seq<Action>, k: nat)
    requires k < |actions| && k + 1 < |states|
  {
    Allowed(states[k], actions[k]) && states[k + 1] == Act(states[k], actions[k])
  }

  ghost predicate Follows<P>(states: seq<System<P>>, actions: seq<Action>) {
    && |states| == |actions| + 1
    && forall k {:trigger ActAt(states, actions, k)} :: 0 <= k < |actions| ==> ActAt(states, actions, k)
  }

  /** An interleaving that starts with a free mutex, an empty wait queue and nobody in mutex_lock. */
  ghost predicate IsRun<P>(states: seq<System<P>>, actions: seq<Action>) {
    && Follows(states, actions)
    && var t := states[0];
    && Placed(t.s) && t.m in t.s.queues && t.s.queues[t.m] == []
    && !t.locked && t.holders == {} && t.retry == {}
  }

  lemma {:induction false} RunInv<P>(states: seq<System<P>>, actions: seq<Action>, k: nat)
    requires IsRun(states, actions) && k < |states|
    ensures Inv(states[k])
  {
    if k > 0 {
      RunInv(states, actions, k - 1);
      assert ActAt(states, actions, k - 1);
      ActInv(states[k - 1], actions[k - 1]);
    }
  }

  /** In every interleaving at most one process holds the mutex, and `locked` tells whether one
      does. */
  lemma MutualExclusion<P>(states: seq<System<P>>, actions: seq<Action>, k: nat)
    requires IsRun(states, actions) && k < |states|
    ensures |states[k].holders| == if states[k].locked then 1 else 0
  {
    RunInv(states, actions, k);
    var hs := states[k].holders;
    if hs != {} {
      var p :| p in hs;
      assert hs == {p};
    }
  }

  /** In every interleaving, whenever the mutex is free and processes wait for it, a process that was
      woken is ready or running and will test the mutex next. */
  lemma WakeupsAreNotLost<P>(states: seq<System<P>>, actions: seq<Action>, k: nat)
    requires IsRun(states, actions) && k < |states|
    requires !states[k].locked && states[k].m in states[k].s.queues && states[k].s.queues[states[k].m] != []
    ensures exists p :: p in states[k].retry && AtRetry(states[k], p)
  {
    RunInv(states, actions, k);
  }

  // ---------------------------------------------------------------- a lost wakeup

  /** Three processes and a mutex with wait queue 9. */
  function Snapshot(current: nat, ready: seq<nat>, queue: seq<nat>, states: seq<ProcState>, holders: set<nat>,
                    retry: set<nat>): System<nat>
    requires |states| == 3
  {
    System(Sched(Some(current), ready, map[9 := queue], map[0 := states[0], 1 := states[1], 2 := states[2]]),
           9, holders != {}, holders, retry)
  }

  /** Process 0 takes the mutex, 1 and 2 wait for it, 0 unlocks and yields to 1, which was woken. */
  function LostState(k: nat): System<nat> {
    if k == 0 then Snapshot(0, [1, 2], [], [Running, Ready, Ready], {}, {})
    else if k == 1 then Snapshot(0, [1, 2], [], [Running, Ready, Ready], {0}, {})
    else if k == 2 then Snapshot(1, [2, 0], [], [Ready, Running, Ready], {0}, {})
    else if k == 3 then Snapshot(2, [0], [1], [Ready, Blocked, Running], {0}, {1})
    else if k == 4 then Snapshot(0, [], [1, 2], [Running, Blocked, Blocked], {0}, {1, 2})
    else if k == 5 then Snapshot(0, [1], [2], [Running, Ready, Blocked], {}, {1, 2})
    else Snapshot(1, [0], [2], [Ready, Running, Blocked], {}, {1, 2})
  }

  function LostActions(): seq<Action> {
    [Lock, Sys(Yield), Lock, Lock, Unlock, Sys(Yield)]
  }

  lemma LostLock()
    ensures Allowed(LostState(0), Lock) && LostState(1) == Act(LostState(0), Lock)
  {
    assert LostState(0).retry - {0} == {} && LostState(0).holders + {0} == {0};
  }

  lemma LostFirstWait()
    ensures Allowed(LostState(2), Lock) && LostState(3) == Act(LostState(2), Lock)
  {
    assert LostState(2).retry + {1} == {1} && LostState(2).s.queues[9] + [1] == [1];
  }

  lemma LostSecondWait()
    ensures Allowed(LostState(3), Lock) && LostState(4) == Act(LostState(3), Lock)
  {
    assert LostState(3).retry + {2} == {1, 2} && LostState(3).s.queues[9] + [2] == [1, 2];
  }

  lemma LostYields()
    ensures Allowed(LostState(1), Sys(Yield)) && LostState(2) == Act(LostState(1), Sys(Yield))
    ensures Allowed(LostState(5), Sys(Yield)) && LostState(6) == Act(LostState(5), Sys(Yield))
  {}

  lemma LostUnlock()
    ensures Allowed(LostState(4), Unlock) && LostState(5) == Act(LostState(4), Unlock)
  {
    assert LostState(4).holders - {0} == {};
  }

  lemma LostStep(k: nat)
    requires k < 6
    ensures Allowed(LostState(k), LostActions()[k]) && LostState(k + 1) == Act(LostState(k), LostActions()[k])
  {
    LostLock();
    LostFirstWait();
    LostSecondWait();
    LostYields();
    LostUnlock();
  }

  lemma LostStart()
    ensures Placed(LostState(0).s)
  {}

  /** If process 1 is ended before it tests the mutex, the mutex is free and 2 waits, with nobody left
      to wake it. */
  lemma WakeupLost() returns (states: seq<System<nat>>)
    ensures IsRun(states, LostActions())
    ensures var t := states[6];
            && t.s.current == Some(1) && 1 in t.retry && t.m in t.s.queues && t.s.queues[t.m] == [2]
            && NoLostWakeup(t) && !NoLostWakeup(EndCurrent(t))
  {
    states := seq(7, k requires 0 <= k < 7 => LostState(k));
    LostStart();
    forall k | 0 <= k < 6
      ensures ActAt(states, LostActions(), k)
    {
      LostStep(k);
    }
    RunInv(states, LostActions(), 6);
    ExitInLock(states[6]);
  }

  // ---------------------------------------------------------------- how long a woken process waits

  function DispatchedBy<P>(t: System<P>, a: Action): seq<P>
    requires Allowed(t, a)
  {
    match SchedStep(t, a)
    case None => []
    case Some(e) => Dispatched(t.s, e)
  }

  /** Everything dispatched in the first `k` actions, in order. */
  ghost function AllDispatched<P>(states: seq<System<P>>, actions: seq<Action>, k: nat): seq<P>
    requires Follows(states, actions) && k <= |actions|
  {
    if k == 0 then []
    else
      assert ActAt(states, actions, k - 1);
      AllDispatched(states, actions, k - 1) + DispatchedBy(states[k - 1], actions[k - 1])
  }

  /** The ready list stays first in, first out when processes lock and unlock. */
  lemma {:induction false} RoundRobinWithMutex<P>(states: seq<System<P>>, actions: seq<Action>, k: nat, i: nat)
    requires Follows(states, actions) && k <= |actions| && i < |states[0].s.ready|
    ensures var d := AllDispatched(states, actions, k);
            ServedOrWaiting(d, states[k].s.ready, states[0].s.ready[i], i)
  {
    if k > 0 {
      RoundRobinWithMutex(states, actions, k - 1, i);
      assert ActAt(states, actions, k - 1);
      var t, a := states[k - 1], actions[k - 1];
      match SchedStep(t, a)
      case None =>
      case Some(e) =>
        StepServes(t.s, e, AllDispatched(states, actions, k - 1), states[0].s.ready[i], i);
    }
  }

  /** The first waiter when mutex_unlock is called gets to test the mutex again after exactly as many
      dispatches as there were ready processes: whatever the others do meanwhile, it is the next one
      dispatched after those. */
  lemma UnlockWakesFirst<P>(t: System<P>, states: seq<System<P>>, actions: seq<Action>, k: nat)
    requires Inv(t) && Allowed(t, Unlock) && t.s.queues[t.m] != []
    requires Follows(states, actions) && states[0] == Act(t, Unlock) && k <= |actions|
    ensures var w, n, d := t.s.queues[t.m][0], |t.s.ready|, AllDispatched(states, actions, k);
            && w in states[0].retry
            && ServedOrWaiting(d, states[k].s.ready, w, n)
  {
    assert states[0].s.ready == t.s.ready + [t.s.queues[t.m][0]];
    RoundRobinWithMutex(states, actions, k, |t.s.ready|);
  }
}
