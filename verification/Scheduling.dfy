/** The scheduler as a transition system (kernel/kernel/process.c:95-185).

    A step is one stretch of kernel code that runs with interrupts off. `P` identifies processes. */
module Scheduling {

  import opened Common

  datatype ProcState = Cradle | Ready | Running | Blocked | Grave

  /** `queues` are all the wait queues of the kernel, by some number. */
  datatype Sched<P> = Sched(current: Option<P>, ready: seq<P>, queues: map<nat, seq<P>>, state: map<P, ProcState>)

  datatype Event =
    | Yield
    | Preempt(allowed: bool)
    | Exit
    | Wait(q: nat)
    | Wakeup(q: nat)
    | WakeupAll(q: nat)
    | Poll   // the idle loop looks at the ready list again

  // ---------------------------------------------------------------- steps

  /** process_switch up to the dispatch loop: the current process gives up the processor. */
  function SwitchOut<P>(s: Sched<P>, newState: ProcState): Sched<P> {
    match s.current
    case None => s
    case Some(p) =>
      s.(current := None,
         state := s.state[p := newState],
         ready := if newState == Ready then s.ready + [p] else s.ready)
  }

  /** One look of the dispatch loop at the ready list; without a ready process it idles. */
  function Dispatch<P>(s: Sched<P>): Sched<P> {
    if s.ready == [] then s.(current := None)
    else s.(current := Some(s.ready[0]), ready := s.ready[1..], state := s.state[s.ready[0] := Running])
  }

  function Enqueue<P>(s: Sched<P>, q: nat): Sched<P>
    requires q in s.queues && s.current.Some?
  {
    s.(queues := s.queues[q := s.queues[q] + [s.current.value]])
  }

  /** process_wakeup: the first waiter becomes ready. */
  function WakeOne<P>(s: Sched<P>, q: nat): Sched<P>
    requires q in s.queues
  {
    if s.queues[q] == [] then s
    else
      var p := s.queues[q][0];
      s.(queues := s.queues[q := s.queues[q][1..]],
         state := s.state[p := Ready],
         ready := s.ready + [p])
  }

  /** process_wakeup_all. */
  function WakeEach<P>(s: Sched<P>, q: nat): (s': Sched<P>)
    requires q in s.queues
    decreases |s.queues[q]|
  {
    if s.queues[q] == [] then s else WakeEach(WakeOne(s, q), q)
  }

  predicate Enabled<P>(s: Sched<P>, e: Event) {
    match e
    case Yield => true
    case Preempt(_) => true
    case Exit => s.current.Some?
    case Wait(q) => s.current.Some? && q in s.queues
    case Wakeup(q) => q in s.queues
    case WakeupAll(q) => q in s.queues
    case Poll => s.current.None?
  }

  predicate Preempts<P>(s: Sched<P>, e: Event) {
    e.Preempt? && e.allowed && s.current.Some? && s.ready != []
  }

  /** Does the step enter the dispatch loop? */
  predicate Switches<P>(s: Sched<P>, e: Event) {
    e.Yield? || Preempts(s, e) || e.Exit? || e.Wait? || e.Poll?
  }

  /** The part of a step before the dispatch loop, or the whole step if it does not switch. */
  function Before<P>(s: Sched<P>, e: Event): Sched<P>
    requires Enabled(s, e)
  {
    match e
    case Yield => SwitchOut(s, Ready)
    case Preempt(_) => if Preempts(s, e) then SwitchOut(s, Ready) else s
    case Exit => SwitchOut(s, Grave)
    case Wait(q) => SwitchOut(Enqueue(s, q), Blocked)
    case Wakeup(q) => WakeOne(s, q)
    case WakeupAll(q) => WakeEach(s, q)
    case Poll => s
  }

  function Next<P>(s: Sched<P>, e: Event): Sched<P>
    requires Enabled(s, e)
  {
    if Switches(s, e) then Dispatch(Before(s, e)) else Before(s, e)
  }

  /** Interrupts that wake waiters of the queues `qs`, the only steps while the processor idles. */
  predicate Wakes(qs: set<nat>, e: Event) {
    (e.Wakeup? || e.WakeupAll?) && e.q in qs
  }

  predicate AllWake(qs: set<nat>, interrupts: seq<Event>) {
    forall i :: 0 <= i < |interrupts| ==> Wakes(qs, interrupts[i])
  }

  /** The dispatch loop of process_switch, with the interrupts that arrive while it idles. It ends
      with a dispatched process, or still idling after the last interrupt. */
  function DispatchLoop<P>(s: Sched<P>, interrupts: seq<Event>): Sched<P>
    requires AllWake(s.queues.Keys, interrupts)
    decreases |interrupts|, 1
  {
    DispatchRest(Dispatch(s), interrupts)
  }

  /** What is left of the loop after a look at the ready list. */
  function DispatchRest<P>(d: Sched<P>, interrupts: seq<Event>): Sched<P>
    requires AllWake(d.queues.Keys, interrupts)
    decreases |interrupts|, 0
  {
    if d.current.Some? || interrupts == [] then d
    else
      WakeKeepsQueues(d, interrupts[0]);
      DispatchLoop(Before(d, interrupts[0]), interrupts[1..])
  }

  lemma WakeKeepsQueues<P>(s: Sched<P>, e: Event)
    requires Wakes(s.queues.Keys, e)
    ensures Before(s, e).queues.Keys == s.queues.Keys
    ensures Before(s, e).current == s.current
  {
    if e.WakeupAll? {
      WakeEachAppends(s, e.q);
    }
  }

  // ---------------------------------------------------------------- what each call does, place by place

  /** The head of `ready` runs, or nobody does. */
  ghost predicate HeadRuns<P>(s: Sched<P>, ready: seq<P>, state: map<P, ProcState>) {
    if ready == [] then s.current == None && s.ready == [] && s.state == state
    else s.current == Some(ready[0]) && s.ready == ready[1..] && s.state == state[ready[0] := Running]
  }

  /** process_yield: the caller goes to the end of the ready list. */
  lemma YieldEffect<P>(s: Sched<P>, p: P)
    requires s.current == Some(p)
    ensures var s' := Next(s, Yield);
            s'.queues == s.queues && HeadRuns(s', s.ready + [p], s.state[p := Ready])
  {}

  /** process_preempt: a yield if preemption is on, somebody runs and somebody is ready; otherwise
      nothing. */
  lemma PreemptEffect<P>(s: Sched<P>, allowed: bool)
    ensures Next(s, Preempt(allowed)) ==
            if allowed && s.current.Some? && s.ready != [] then Next(s, Yield) else s
  {}

  /** process_exit: the caller is in the grave and in no list. */
  lemma ExitEffect<P>(s: Sched<P>, p: P)
    requires s.current == Some(p)
    ensures var s' := Next(s, Exit);
            s'.queues == s.queues && HeadRuns(s', s.ready, s.state[p := Grave])
  {}

  /** process_wait: the caller is the last of the queue. */
  lemma WaitEffect<P>(s: Sched<P>, q: nat, p: P)
    requires s.current == Some(p) && q in s.queues
    ensures var s' := Next(s, Wait(q));
            s'.queues == s.queues[q := s.queues[q] + [p]] && HeadRuns(s', s.ready, s.state[p := Blocked])
  {}

  /** process_wakeup: the first of the queue becomes the last ready process; nobody else moves. */
  lemma WakeupEffect<P>(s: Sched<P>, q: nat)
    requires q in s.queues
    ensures var s', w := Next(s, Wakeup(q)), s.queues[q];
            if w == [] then s' == s
            else && s'.queues == s.queues[q := w[1..]] && s'.ready == s.ready + [w[0]]
                 && s'.state == s.state[w[0] := Ready] && s'.current == s.current
  {}

  /** process_wakeup_all: the whole queue, in order, goes to the end of the ready list. */
  lemma WakeupAllEffect<P>(s: Sched<P>, q: nat)
    requires q in s.queues
    ensures var s', w := Next(s, WakeupAll(q)), s.queues[q];
            && s'.queues == s.queues[q := []] && s'.ready == s.ready + w && s'.current == s.current
            && s'.state.Keys == s.state.Keys + (set p | p in w)
            && forall p :: p in s'.state ==> s'.state[p] == if p in w then Ready else s.state[p]
  {
    WakeEachAppends(s, q);
  }

  /** A look at the ready list when nobody runs. */
  lemma PollEffect<P>(s: Sched<P>)
    requires s.current.None?
    ensures Next(s, Poll).queues == s.queues && HeadRuns(Next(s, Poll), s.ready, s.state)
    ensures Next(s, Yield) == Next(s, Poll)
  {}

  // ---------------------------------------------------------------- the idle loop

  /** The state after all of these interrupts, without any dispatch between them. */
  function AfterAll<P>(s: Sched<P>, interrupts: seq<Event>): Sched<P>
    requires AllWake(s.queues.Keys, interrupts)
    decreases |interrupts|
  {
    if interrupts == [] then s
    else
      WakeKeepsQueues(s, interrupts[0]);
      AfterAll(Before(s, interrupts[0]), interrupts[1..])
  }

  /** After the first `k` interrupts nobody is ready. */
  ghost predicate StillIdle<P>(s: Sched<P>, interrupts: seq<Event>, k: nat)
    requires AllWake(s.queues.Keys, interrupts) && k <= |interrupts|
  {
    AfterAll(s, interrupts[..k]).ready == []
  }

  lemma IdleShift<P>(s: Sched<P>, interrupts: seq<Event>, k: nat)
    requires AllWake(s.queues.Keys, interrupts) && 0 < k <= |interrupts|
    ensures AllWake(Before(s, interrupts[0]).queues.Keys, interrupts[1..])
    ensures AfterAll(s, interrupts[..k]) == AfterAll(Before(s, interrupts[0]), interrupts[1..][..k - 1])
  {
    WakeKeepsQueues(s, interrupts[0]);
    assert interrupts[..k][1..] == interrupts[1..][..k - 1];
  }

  /** The dispatch loop takes interrupts as long as nobody is ready, and dispatches as soon as somebody
      is. */
  lemma {:induction false} IdleUntilReady<P>(s: Sched<P>, interrupts: seq<Event>, k: nat)
    requires s.current.None? && AllWake(s.queues.Keys, interrupts) && k <= |interrupts|
    requires forall j :: 0 <= j < k ==> StillIdle(s, interrupts, j)
    requires !StillIdle(s, interrupts, k)
    ensures DispatchLoop(s, interrupts) == Dispatch(AfterAll(s, interrupts[..k]))
    decreases |interrupts|
  {
    assert interrupts[..0] == [];
    if k > 0 {
      assert StillIdle(s, interrupts, 0);
      var s', rest := Before(s, interrupts[0]), interrupts[1..];
      WakeKeepsQueues(s, interrupts[0]);
      IdleShift(s, interrupts, k);
      forall j | 0 <= j < k - 1
        ensures StillIdle(s', rest, j)
      {
        IdleShift(s, interrupts, j + 1);
        assert StillIdle(s, interrupts, j + 1);
      }
      IdleUntilReady(s', rest, k - 1);
    }
  }

  /** If they wake nobody, it is still idle after the last one. */
  lemma {:induction false} IdleForever<P>(s: Sched<P>, interrupts: seq<Event>)
    requires s.current.None? && AllWake(s.queues.Keys, interrupts)
    requires forall j :: 0 <= j <= |interrupts| ==> StillIdle(s, interrupts, j)
    ensures DispatchLoop(s, interrupts) == AfterAll(s, interrupts)
    ensures AfterAll(s, interrupts).current.None?
    decreases |interrupts|
  {
    assert interrupts[..0] == [];
    assert StillIdle(s, interrupts, 0);
    if interrupts != [] {
      var s', rest := Before(s, interrupts[0]), interrupts[1..];
      WakeKeepsQueues(s, interrupts[0]);
      forall j | 0 <= j <= |rest|
        ensures StillIdle(s', rest, j)
      {
        IdleShift(s, interrupts, j + 1);
        assert StillIdle(s, interrupts, j + 1);
      }
      IdleForever(s', rest);
    }
  }

  // ---------------------------------------------------------------- the placement invariant

  predicate NoDup<P(==)>(ps: seq<P>) {
    forall i, j :: 0 <= i < j < |ps| ==> ps[i] != ps[j]
  }

  predicate Waits<P(==)>(s: Sched<P>, p: P, q: nat) {
    q in s.queues && p in s.queues[q]
  }

  predicate Waiting<P(==)>(s: Sched<P>, p: P) {
    exists q | q in s.queues :: Waits(s, p, q)
  }

  /** Every process is in exactly the place its state names, and in no place twice: RUNNING means
      current, READY means in the ready list, BLOCKED means in one wait queue, anything else means in
      no list at all. */
  ghost predicate Placed<P>(s: Sched<P>) {
    && (s.current.Some? ==> s.current.value in s.state)
    && (forall p :: p in s.ready ==> p in s.state)
    && (forall q, p | q in s.queues && p in s.queues[q] :: p in s.state)
    && (forall p :: p in s.state ==> (s.state[p] == Running <==> s.current == Some(p)))
    && (forall p :: p in s.state ==> (s.state[p] == Ready <==> p in s.ready))
    && (forall p :: p in s.state ==> (s.state[p] == Blocked <==> Waiting(s, p)))
    && NoDup(s.ready)
    && (forall q :: q in s.queues ==> NoDup(s.queues[q]))
    && (forall q, r, p | q in s.queues && r in s.queues && p in s.queues[q] && p in s.queues[r] :: q == r)
  }

  lemma NoDupSuffix<P>(ps: seq<P>)
    requires NoDup(ps) && ps != []
    ensures NoDup(ps[1..]) && ps[0] !in ps[1..]
    ensures forall p :: p in ps <==> p == ps[0] || p in ps[1..]
  {}

  lemma DispatchPlaced<P>(s: Sched<P>)
    requires Placed(s) && s.current.None?
    ensures Placed(Dispatch(s)) && Dispatch(s).state.Keys == s.state.Keys
  {
    if s.ready != [] {
      NoDupSuffix(s.ready);
      var s' := Dispatch(s);
      assert forall p, q :: Waits(s', p, q) <==> Waits(s, p, q);
    }
  }

  lemma SwitchOutPlaced<P>(s: Sched<P>, newState: ProcState)
    requires Placed(s) && (newState == Ready || newState == Grave)
    ensures Placed(SwitchOut(s, newState))
  {
    var s' := SwitchOut(s, newState);
    assert forall p, q :: Waits(s', p, q) <==> Waits(s, p, q);
  }

  lemma NotWaiting<P>(s: Sched<P>, p: P)
    requires Placed(s) && p in s.state && s.state[p] != Blocked
    ensures forall q :: q in s.queues ==> p !in s.queues[q]
  {
    forall q | q in s.queues
      ensures p !in s.queues[q]
    {
      assert !Waits(s, p, q);
    }
  }

  lemma WaitPlaced<P>(s: Sched<P>, q: nat)
    requires Placed(s) && q in s.queues && s.current.Some?
    ensures Placed(SwitchOut(Enqueue(s, q), Blocked))
  {
    var s' := SwitchOut(Enqueue(s, q), Blocked);
    var p0 := s.current.value;
    NotWaiting(s, p0);
    assert Waits(s', p0, q);
    forall p, r
      ensures Waits(s', p, r) <==> Waits(s, p, r) || (p == p0 && r == q)
    {
    }
  }

  lemma WakeOnePlaced<P>(s: Sched<P>, q: nat)
    requires Placed(s) && q in s.queues
    ensures Placed(WakeOne(s, q)) && WakeOne(s, q).state.Keys == s.state.Keys
  {
    if s.queues[q] != [] {
      var s' := WakeOne(s, q);
      NoDupSuffix(s.queues[q]);
      var p0 := s.queues[q][0];
      assert Waits(s, p0, q);
      forall p, r
        ensures Waits(s', p, r) <==> Waits(s, p, r) && p != p0
      {
      }
      assert !Waiting(s', p0);
      forall p | p in s.state && p != p0
        ensures s'.state[p] == s.state[p] && (Waiting(s', p) <==> Waiting(s, p))
      {
        if Waiting(s, p) {
          var r :| Waits(s, p, r);
          assert Waits(s', p, r);
        }
      }
    }
  }

  lemma {:induction false} WakeEachPlaced<P>(s: Sched<P>, q: nat)
    requires Placed(s) && q in s.queues
    ensures Placed(WakeEach(s, q)) && WakeEach(s, q).state.Keys == s.state.Keys
    decreases |s.queues[q]|
  {
    if s.queues[q] != [] {
      WakeOnePlaced(s, q);
      WakeEachPlaced(WakeOne(s, q), q);
    }
  }

  /** process_wakeup_all appends the whole queue, in order, to the ready list. */
  lemma {:induction false} WakeEachAppends<P>(s: Sched<P>, q: nat)
    requires q in s.queues
    ensures var s' := WakeEach(s, q);
            && s'.ready == s.ready + s.queues[q]
            && s'.queues == s.queues[q := []]
            && s'.current == s.current
            && (forall p :: p in s.state && p !in s.queues[q] ==> p in s'.state && s'.state[p] == s.state[p])
            && (forall p :: p in s.queues[q] ==> p in s'.state && s'.state[p] == Ready)
            && s'.state.Keys == s.state.Keys + (set p | p in s.queues[q])
    decreases |s.queues[q]|
  {
    if s.queues[q] != [] {
      WakeEachAppends(WakeOne(s, q), q);
      assert s.queues[q] == [s.queues[q][0]] + s.queues[q][1..];
    }
  }

  lemma BeforePlaced<P>(s: Sched<P>, e: Event)
    requires Placed(s) && Enabled(s, e)
    ensures Placed(Before(s, e)) && Before(s, e).state.Keys == s.state.Keys
    ensures Switches(s, e) ==> Before(s, e).current.None?
  {
    match e
    case Yield => SwitchOutPlaced(s, Ready);
    case Preempt(_) => SwitchOutPlaced(s, Ready);
    case Exit => SwitchOutPlaced(s, Grave);
    case Wait(q) => WaitPlaced(s, q);
    case Wakeup(q) => WakeOnePlaced(s, q);
    case WakeupAll(q) => WakeEachPlaced(s, q);
    case Poll =>
  }

  /** Every step keeps every process in exactly one place that its state names, and it neither
      creates nor destroys a process. */
  lemma StepPlaced<P>(s: Sched<P>, e: Event)
    requires Placed(s) && Enabled(s, e)
    ensures Placed(Next(s, e)) && Next(s, e).state.Keys == s.state.Keys
  {
    BeforePlaced(s, e);
    if Switches(s, e) {
      DispatchPlaced(Before(s, e));
    }
  }

  // ---------------------------------------------------------------- runs

  ghost predicate StepAt<P>(states: seq<Sched<P>>, events: seq<Event>, k: nat)
    requires k < |events| && k + 1 < |states|
  {
    Enabled(states[k], events[k]) && states[k + 1] == Next(states[k], events[k])
  }

  ghost predicate IsRun<P>(states: seq<Sched<P>>, events: seq<Event>) {
    && |states| == |events| + 1
    && forall k {:trigger StepAt(states, events, k)} :: 0 <= k < |events| ==> StepAt(states, events, k)
  }

  /** In every run from a well-formed state, every process keeps exactly one place. */
  lemma {:induction false} RunPlaced<P>(states: seq<Sched<P>>, events: seq<Event>, k: nat)
    requires IsRun(states, events) && Placed(states[0]) && k < |states|
    ensures Placed(states[k]) && states[k].state.Keys == states[0].state.Keys
  {
    if k > 0 {
      RunPlaced(states, events, k - 1);
      assert StepAt(states, events, k - 1);
      StepPlaced(states[k - 1], events[k - 1]);
    }
  }

  lemma GraveStays<P>(s: Sched<P>, e: Event, p: P)
    requires Placed(s) && Enabled(s, e) && p in s.state && s.state[p] == Grave
    ensures p in Next(s, e).state && Next(s, e).state[p] == Grave
  {
    NotWaiting(s, p);
    match e
    case WakeupAll(q) => WakeEachAppends(s, q);
    case _ =>
  }

  /** An exited process is never dispatched again. */
  lemma {:induction false} GraveForever<P>(states: seq<Sched<P>>, events: seq<Event>, p: P, i: nat, j: nat)
    requires IsRun(states, events) && Placed(states[0]) && i <= j < |states|
    requires p in states[i].state && states[i].state[p] == Grave
    ensures p in states[j].state && states[j].state[p] == Grave
    ensures states[j].current != Some(p) && p !in states[j].ready
    decreases j
  {
    RunPlaced(states, events, j);
    if i < j {
      GraveForever(states, events, p, i, j - 1);
      RunPlaced(states, events, j - 1);
      assert StepAt(states, events, j - 1);
      GraveStays(states[j - 1], events[j - 1], p);
    }
  }

  // ---------------------------------------------------------------- round robin

  /** The process a step dispatches, if any. */
  function Dispatched<P>(s: Sched<P>, e: Event): seq<P>
    requires Enabled(s, e)
  {
    if Switches(s, e) && Before(s, e).ready != [] then [Before(s, e).ready[0]] else []
  }

  /** The processes a step appends to the ready list. */
  function Enqueued<P>(s: Sched<P>, e: Event): seq<P>
    requires Enabled(s, e)
  {
    match e
    case Yield => if s.current.Some? then [s.current.value] else []
    case Preempt(_) => if Preempts(s, e) then [s.current.value] else []
    case Wakeup(q) => if s.queues[q] == [] then [] else [s.queues[q][0]]
    case WakeupAll(q) => s.queues[q]
    case _ => []
  }

  /** A dispatched process is the current one afterwards; without a dispatch the current process
      stays or the processor idles. */
  lemma DispatchedIsCurrent<P>(s: Sched<P>, e: Event)
    requires Enabled(s, e)
    ensures Dispatched(s, e) != [] ==>
              && Next(s, e).current == Some(Dispatched(s, e)[0])
              && Next(s, e).state[Dispatched(s, e)[0]] == Running
    ensures Dispatched(s, e) == [] ==> Next(s, e).current == if Switches(s, e) then None else s.current
  {
    if e.WakeupAll? {
      WakeEachAppends(s, e.q);
    }
  }

  /** The ready list is first in, first out. */
  lemma StepFifo<P>(s: Sched<P>, e: Event)
    requires Enabled(s, e)
    ensures s.ready + Enqueued(s, e) == Dispatched(s, e) + Next(s, e).ready
  {
    if e.WakeupAll? {
      WakeEachAppends(s, e.q);
    }
  }

  /** Everything dispatched in the first `k` steps, in order. */
  ghost function AllDispatched<P>(states: seq<Sched<P>>, events: seq<Event>, k: nat): seq<P>
    requires IsRun(states, events) && k <= |events|
  {
    if k == 0 then []
    else
      assert StepAt(states, events, k - 1);
      AllDispatched(states, events, k - 1) + Dispatched(states[k - 1], events[k - 1])
  }

  /** `p` is number `i` of those dispatched, or that many more dispatches away from being it. */
  predicate ServedOrWaiting<P(==)>(dispatched: seq<P>, ready: seq<P>, p: P, i: nat) {
    if i < |dispatched| then dispatched[i] == p
    else i - |dispatched| < |ready| && ready[i - |dispatched|] == p
  }

  /** A queue that is pushed at one end and popped at the other keeps that. */
  lemma FifoServes<P>(d: seq<P>, r: seq<P>, pushed: seq<P>, popped: seq<P>, r': seq<P>, p: P, i: nat)
    requires r + pushed == popped + r' && ServedOrWaiting(d, r, p, i)
    ensures ServedOrWaiting(d + popped, r', p, i)
  {
    var j := i - |d|;
    if j >= 0 {
      assert (r + pushed)[j] == (popped + r')[j];
    }
  }

  lemma StepServes<P>(s: Sched<P>, e: Event, d: seq<P>, p: P, i: nat)
    requires Enabled(s, e) && ServedOrWaiting(d, s.ready, p, i)
    ensures ServedOrWaiting(d + Dispatched(s, e), Next(s, e).ready, p, i)
  {
    StepFifo(s, e);
    FifoServes(d, s.ready, Enqueued(s, e), Dispatched(s, e), Next(s, e).ready, p, i);
  }

  /** A process at position `i` of the ready list is the one dispatched by exactly the (i+1)-th
      dispatch that follows; until then it moves up by one with every dispatch. */
  lemma {:induction false} RoundRobin<P>(states: seq<Sched<P>>, events: seq<Event>, k: nat, i: nat)
    requires IsRun(states, events) && k <= |events| && i < |states[0].ready|
    ensures ServedOrWaiting(AllDispatched(states, events, k), states[k].ready, states[0].ready[i], i)
  {
    if k > 0 {
      RoundRobin(states, events, k - 1, i);
      assert StepAt(states, events, k - 1);
      StepServes(states[k - 1], events[k - 1], AllDispatched(states, events, k - 1), states[0].ready[i], i);
    }
  }

  // ---------------------------------------------------------------- the dispatch loop is made of steps

  /** A call that switches, together with the interrupts its dispatch loop lets in, is a run of
      steps: the switch, then interrupts until somebody is ready, then one more look. */
  lemma CallIsRun<P>(s: Sched<P>, e: Event, interrupts: seq<Event>)
    returns (states: seq<Sched<P>>, events: seq<Event>)
    requires Enabled(s, e) && Switches(s, e) && AllWake(Before(s, e).queues.Keys, interrupts)
    ensures IsRun(states, events) && events != []
    ensures states[0] == s && events[0] == e
    ensures states[|events|] == DispatchLoop(Before(s, e), interrupts)
    ensures forall k :: 1 <= k < |events| ==> events[k] == Poll || events[k] in interrupts
  {
    var d := Next(s, e);
    if d.current.Some? {
      states, events := [s, d], [e];
      assert StepAt(states, events, 0);
    } else {
      var ss, es := RestIsRun(d, interrupts);
      states, events := [s] + ss, [e] + es;
      assert forall k :: 1 <= k < |events| ==> events[k] == es[k - 1] && es[k - 1] in es;
      forall k | 0 <= k < |events|
        ensures StepAt(states, events, k)
      {
        assert k > 0 ==> StepAt(ss, es, k - 1);
      }
    }
  }

  lemma {:induction false} RestIsRun<P>(s: Sched<P>, interrupts: seq<Event>)
    returns (states: seq<Sched<P>>, events: seq<Event>)
    requires s.current.None? && AllWake(s.queues.Keys, interrupts)
    ensures IsRun(states, events) && states[0] == s && states[|events|] == DispatchRest(s, interrupts)
    ensures forall e :: e in events ==> e == Poll || e in interrupts
    decreases |interrupts|
  {
    if interrupts == [] {
      states, events := [s], [];
    } else {
      var e := interrupts[0];
      WakeKeepsQueues(s, e);
      var w := Before(s, e);
      var d := Dispatch(w);
      assert DispatchLoop(w, interrupts[1..]) == DispatchRest(d, interrupts[1..]);
      if d.current.Some? {
        states, events := [s, w, d], [e, Poll];
        assert StepAt(states, events, 0) && StepAt(states, events, 1);
      } else {
        var ss, es := RestIsRun(d, interrupts[1..]);
        assert d == w;
        states, events := [s] + ss, [e] + es;
        forall k | 0 <= k < |events|
          ensures StepAt(states, events, k)
        {
          assert k > 0 ==> StepAt(ss, es, k - 1);
        }
      }
    }
  }

  /** So it keeps every process in its place. */
  lemma CallPlaced<P>(s: Sched<P>, e: Event, interrupts: seq<Event>)
    requires Placed(s) && Enabled(s, e) && Switches(s, e) && AllWake(Before(s, e).queues.Keys, interrupts)
    ensures Placed(DispatchLoop(Before(s, e), interrupts))
  {
    var states, events := CallIsRun(s, e, interrupts);
    RunPlaced(states, events, |events|);
  }

  /** After process_exit, idle loop included, the caller is in the grave and in no list. */
  lemma ExitedStaysInGrave<P>(s: Sched<P>, p: P, interrupts: seq<Event>)
    requires Placed(s) && s.current == Some(p) && AllWake(Before(s, Exit).queues.Keys, interrupts)
    ensures var s' := DispatchLoop(Before(s, Exit), interrupts);
            p in s'.state && s'.state[p] == Grave && s'.current != Some(p) && p !in s'.ready
  {
    var states, events := CallIsRun(s, Exit, interrupts);
    assert StepAt(states, events, 0);
    ExitEffect(s, p);
    StepPlaced(s, Exit);
    assert p !in s.ready;
    GraveForever(states, events, p, 1, |events|);
  }
}
