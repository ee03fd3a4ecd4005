/** The scheduler as the C code keeps it: global variables, process records and linked lists, changed
    in place (kernel/kernel/process.c). The list node is the first member of a process, so the
    address of the node identifies the process. */
module Processes {
  import opened Common
  import opened Lists
  import opened Scheduling

  class Process {
    const node: ListNode
    var state: ProcState
    var exitcode: int

    constructor (node: ListNode)
      ensures this.node == node && state == Cradle
    {
      this.node := node;
      state := Cradle;
      exitcode := 0;
    }
  }

  class Kernel {
    var current: Process?
    var allowPreempt: bool
    const readyList: List
    const queues: map<nat, List>
    /** The cast from a list node to the process that begins with it. */
    const procs: map<ListNode, Process>
    ghost var model: Sched<ListNode>

    constructor (readyList: List, queues: map<nat, List>, procs: map<ListNode, Process>)
      ensures this.readyList == readyList && this.queues == queues && this.procs == procs
      ensures current == null && !allowPreempt
      ensures model == Sched(None, readyList.nodes, map q | q in queues :: queues[q].nodes,
                             map n | n in procs :: procs[n].state)
    {
      this.readyList, this.queues, this.procs := readyList, queues, procs;
      current, allowPreempt := null, false;
      model := Sched(None, readyList.nodes, map q | q in queues :: queues[q].nodes,
                     map n | n in procs :: procs[n].state);
    }

    ghost function AllLists(): set<List> {
      {readyList} + queues.Values
    }

    ghost function Linkage(): set<object> {
      AllLists() + procs.Keys
    }

    ghost predicate ListOk(l: List)
      reads l, procs.Keys
    {
      (forall n | n in l.nodes :: n in procs) && l.Valid()
    }

    ghost predicate NodeOk(n: ListNode)
      reads n, AllLists()
    {
      n.list != null ==> n.list in AllLists() && n in n.list.nodes
    }

    /** Every list is well formed and holds processes only; a node names the list that holds it. */
    ghost predicate Coherent()
      reads AllLists(), procs.Keys
    {
      && (forall l {:trigger ListOk(l)} | l in AllLists() :: ListOk(l))
      && (forall n {:trigger NodeOk(n)} | n in procs :: NodeOk(n))
    }

    ghost predicate QueueIs(q: nat)
      requires q in queues && q in model.queues
      reads `model, queues[q]
    {
      queues[q].nodes == model.queues[q]
    }

    ghost predicate ProcIs(n: ListNode)
      requires n in procs && n in model.state
      reads `model, procs[n]
    {
      procs[n].node == n && procs[n].state == model.state[n]
    }

    /** The lists and records say what the model says. */
    ghost predicate Mirrors()
      reads `model, `current, AllLists(), procs.Values
    {
      && readyList.nodes == model.ready
      && model.queues.Keys == queues.Keys
      && (forall q {:trigger QueueIs(q)} | q in queues :: QueueIs(q))
      && model.state.Keys == procs.Keys
      && (forall n {:trigger ProcIs(n)} | n in procs :: ProcIs(n))
      && (current != null ==> current.node in procs && procs[current.node] == current)
      && model.current == if current == null then None else Some(current.node)
    }

    ghost predicate Separate() {
      && readyList !in queues.Values
      && forall q, r | q in queues && r in queues && q != r :: queues[q] != queues[r]
    }

    ghost predicate Valid()
      reads `model, `current, AllLists(), procs.Keys, procs.Values
    {
      Separate() && Coherent() && Mirrors() && Placed(model)
    }

    /** A change to one list, and to the nodes that it held or holds. */
    twostate lemma ListChanged(l: List)
      requires old(Coherent()) && l in AllLists() && ListOk(l)
      requires forall o | o in AllLists() && o != l :: o.Valid() && o.nodes == old(o.nodes)
      requires forall m | m in procs :: unchanged(m) || m in l.nodes || m.list == null
      requires forall m | m in old(l.nodes) :: m in l.nodes || m.list == null
      ensures Coherent()
    {
      l.OwnsNodes();
      forall o | o in AllLists()
        ensures ListOk(o)
      {
        assert old(ListOk(o));
      }
      forall m | m in procs
        ensures NodeOk(m)
      {
        assert old(NodeOk(m));
      }
    }

    /** A change of fields and model together: what has changed agrees, and the rest agreed before. */
    twostate lemma StillMirrors()
      requires old(Mirrors()) && readyList.nodes == model.ready
      requires model.queues.Keys == queues.Keys && model.state.Keys == procs.Keys
      requires forall r | r in queues ::
                 queues[r].nodes == model.queues[r]
                 || (model.queues[r] == old(model.queues)[r] && queues[r].nodes == old(queues[r].nodes))
      requires forall m | m in procs ::
                 (procs[m].node == m && procs[m].state == model.state[m])
                 || (model.state[m] == old(model.state)[m] && procs[m].state == old(procs[m].state))
      requires current != null ==> current.node in procs && procs[current.node] == current
      requires model.current == if current == null then None else Some(current.node)
      ensures Mirrors()
    {
      forall r | r in queues
        ensures QueueIs(r)
      {
        assert old(QueueIs(r));
      }
      forall m | m in procs
        ensures ProcIs(m)
      {
        assert old(ProcIs(m));
      }
    }

    lemma ProcNodes()
      requires Mirrors()
      ensures forall m | m in procs :: procs[m].node == m
    {
      forall m | m in procs
        ensures procs[m].node == m
      {
        assert ProcIs(m);
      }
    }

    lemma ModelShown()
      requires Valid()
      ensures model.current == (if current == null then None else Some(current.node))
      ensures model.queues.Keys == queues.Keys
    {}

    /** list_push_tail on one of the kernel's lists. */
    method Append(l: List, n: ListNode)
      requires Coherent() && l in AllLists() && n in procs && n.list == null
      modifies Linkage()
      ensures Coherent() && l.nodes == old(l.nodes) + [n]
      ensures forall o | o in AllLists() && o != l :: o.nodes == old(o.nodes)
    {
      assert forall o | o in AllLists() :: ListOk(o);
      l.OwnsNodes();
      l.PushTail(n);
      l.OthersKept(AllLists() - {l});
      l.OwnsNodes();
      ListChanged(l);
    }

    /** list_pop_head on one of the kernel's lists. */
    method TakeFirst(l: List) returns (n: ListNode?)
      requires Coherent() && l in AllLists()
      modifies Linkage()
      ensures Coherent()
      ensures if old(l.nodes) == [] then n == null && l.nodes == []
              else n == old(l.nodes)[0] && n in procs && n.list == null && l.nodes == old(l.nodes)[1..]
      ensures forall o | o in AllLists() && o != l :: o.nodes == old(o.nodes)
    {
      assert forall o | o in AllLists() :: ListOk(o);
      l.OwnsNodes();
      n := l.PopHead();
      l.OthersKept(AllLists() - {l});
      l.OwnsNodes();
      ListChanged(l);
    }

    /** A process that neither is ready nor waits has a free node. */
    lemma FreeNode(n: ListNode)
      requires Valid() && n in procs && model.state[n] != Ready && model.state[n] != Blocked
      ensures n.list == null
    {
      NotWaiting(model, n);
      assert NodeOk(n);
      forall q | q in queues
        ensures n !in queues[q].nodes
      {
        assert QueueIs(q);
      }
    }

    // -------------------------------------------------------------- single assignments and list calls

    method SetState(n: ListNode, st: ProcState)
      requires Separate() && Coherent() && Mirrors() && n in procs
      modifies `model, procs.Values`state
      ensures Coherent() && Mirrors() && model == old(model.(state := model.state[n := st]))
    {
      ProcNodes();
      ghost var states := model.state[n := st];
      procs[n].state := st;
      model := model.(state := states);
      StillMirrors();
    }

    method SetCurrent(p: Process?)
      requires Separate() && Coherent() && Mirrors()
      requires p != null ==> p.node in procs && procs[p.node] == p
      modifies `model, `current
      ensures Coherent() && Mirrors() && current == p
      ensures model == old(model.(current := if p == null then None else Some(p.node)))
    {
      current := p;
      model := model.(current := if p == null then None else Some(p.node));
      StillMirrors();
    }

    method PushReady(n: ListNode)
      requires Separate() && Coherent() && Mirrors() && n in procs && n.list == null
      modifies `model, Linkage()
      ensures Coherent() && Mirrors() && model == old(model.(ready := model.ready + [n]))
    {
      Append(readyList, n);
      model := model.(ready := model.ready + [n]);
      StillMirrors();
    }

    method PopReady() returns (n: ListNode?)
      requires Separate() && Coherent() && Mirrors()
      modifies `model, Linkage()
      ensures Coherent() && Mirrors()
      ensures if old(model.ready) == [] then n == null && model == old(model)
              else n == old(model.ready)[0] && n in procs && model == old(model.(ready := model.ready[1..]))
    {
      n := TakeFirst(readyList);
      model := model.(ready := if n == null then model.ready else model.ready[1..]);
      StillMirrors();
    }

    method PushWaiter(q: nat, n: ListNode)
      requires Separate() && Coherent() && Mirrors() && q in queues && n in procs && n.list == null
      modifies `model, Linkage()
      ensures Coherent() && Mirrors()
      ensures model == old(model.(queues := model.queues[q := model.queues[q] + [n]]))
    {
      assert QueueIs(q);
      Append(queues[q], n);
      model := model.(queues := model.queues[q := model.queues[q] + [n]]);
      StillMirrors();
    }

    method PopWaiter(q: nat) returns (n: ListNode?)
      requires Separate() && Coherent() && Mirrors() && q in queues
      modifies `model, Linkage()
      ensures Coherent() && Mirrors()
      ensures if old(model.queues)[q] == [] then n == null && model == old(model)
              else && n == old(model.queues)[q][0] && n in procs && n.list == null
                   && model == old(model.(queues := model.queues[q := model.queues[q][1..]]))
    {
      assert QueueIs(q);
      n := TakeFirst(queues[q]);
      if n != null {
        model := model.(queues := model.queues[q := model.queues[q][1..]]);
      }
      StillMirrors();
    }

    // -------------------------------------------------------------- process_switch

    /** process_switch up to the dispatch loop, without the register save. */
    method LeaveProcessor(newState: ProcState)
      requires Separate() && Coherent() && Mirrors()
      requires current != null && newState == Ready ==> current.node.list == null
      modifies `model, `current, Linkage(), procs.Values`state
      ensures Coherent() && Mirrors() && model == SwitchOut(old(model), newState)
    {
      if current != null {
        SetState(current.node, newState);
        if newState == Ready {
          PushReady(current.node);
        }
      }
      SetCurrent(null);
    }

    /** One round of the dispatch loop: current becomes the first ready process, if any. */
    method TryDispatch()
      requires Separate() && Coherent() && Mirrors()
      modifies `model, `current, Linkage(), procs.Values`state
      ensures Coherent() && Mirrors() && model == Dispatch(old(model))
    {
      var n := PopReady();
      assert n != null ==> ProcIs(n);
      SetCurrent(if n == null then null else procs[n]);
      if n != null {
        SetState(n, Running);
      }
    }

    /** A process that has left its queue becomes the last ready one. */
    method MakeReady(n: ListNode)
      requires Separate() && Coherent() && Mirrors() && n in procs && n.list == null
      modifies `model, Linkage(), procs.Values`state
      ensures Coherent() && Mirrors()
      ensures model == old(model.(state := model.state[n := Ready], ready := model.ready + [n]))
    {
      SetState(n, Ready);
      PushReady(n);
    }

    /** process_wakeup. */
    method ProcessWakeup(q: nat)
      requires Separate() && Coherent() && Mirrors() && q in queues
      modifies `model, Linkage(), procs.Values`state
      ensures Coherent() && Mirrors() && model == WakeOne(old(model), q)
    {
      var n := PopWaiter(q);
      if n != null {
        MakeReady(n);
      }
    }

    /** process_wakeup_all. */
    method ProcessWakeupAll(q: nat)
      requires Separate() && Coherent() && Mirrors() && q in queues
      modifies `model, Linkage(), procs.Values`state
      ensures Coherent() && Mirrors() && model == WakeEach(old(model), q)
    {
      var n := PopWaiter(q);
      while n != null
        invariant Coherent() && Mirrors()
        invariant if n == null then model.queues[q] == [] && model == WakeEach(old(model), q)
                  else && n in procs && n.list == null
                       && WakeEach(old(model), q) ==
                          WakeEach(model.(state := model.state[n := Ready], ready := model.ready + [n]), q)
        decreases n != null, |model.queues[q]|
      {
        MakeReady(n);
        n := PopWaiter(q);
      }
    }

    /** An interrupt handler that wakes one waiter or all of them. */
    method Interrupt(e: Event)
      requires Separate() && Coherent() && Mirrors() && Wakes(queues.Keys, e)
      modifies `model, Linkage(), procs.Values`state
      ensures Coherent() && Mirrors() && model == Before(old(model), e)
    {
      match e {
        case Wakeup(q) => ProcessWakeup(q);
        case WakeupAll(q) => ProcessWakeupAll(q);
      }
    }

    /** The dispatch loop of process_switch. `interrupts` are the wakeups that arrive, one at a time,
        while the processor idles; when they are used up it still idles. */
    method DispatchOrIdle(interrupts: seq<Event>)
      requires Separate() && Coherent() && Mirrors() && AllWake(queues.Keys, interrupts)
      modifies `model, `current, Linkage(), procs.Values`state
      ensures Coherent() && Mirrors() && model == DispatchLoop(old(model), interrupts)
    {
      TryDispatch();
      var k := 0;
      while current == null && k < |interrupts|
        invariant Coherent() && Mirrors() && k <= |interrupts|
        invariant model.current.Some? || model.ready == []
        invariant DispatchLoop(old(model), interrupts) == DispatchRest(model, interrupts[k..])
      {
        WakeKeepsQueues(model, interrupts[k]);
        ghost var w := Before(model, interrupts[k]);
        assert interrupts[k..][1..] == interrupts[k + 1..];
        Interrupt(interrupts[k]);
        TryDispatch();
        k := k + 1;
      }
    }

    /** process_switch. */
    method ProcessSwitch(newState: ProcState, interrupts: seq<Event>)
      requires Separate() && Coherent() && Mirrors() && AllWake(queues.Keys, interrupts)
      requires current != null && newState == Ready ==> current.node.list == null
      modifies `model, `current, Linkage(), procs.Values`state
      ensures Coherent() && Mirrors()
      ensures model == DispatchLoop(SwitchOut(old(model), newState), interrupts)
    {
      LeaveProcessor(newState);
      DispatchOrIdle(interrupts);
    }

    // -------------------------------------------------------------- the calls processes make

    /** process_yield. */
    method ProcessYield(interrupts: seq<Event>)
      requires Valid() && AllWake(queues.Keys, interrupts)
      modifies `model, `current, Linkage(), procs.Values`state
      ensures Valid() && model == DispatchLoop(Before(old(model), Yield), interrupts)
    {
      if current != null {
        FreeNode(current.node);
      }
      CallPlaced(model, Yield, interrupts);
      ProcessSwitch(Ready, interrupts);
    }

    /** process_preempt: nothing happens unless preemption is on and somebody else is ready. */
    method ProcessPreempt()
      requires Valid()
      modifies `model, `current, Linkage(), procs.Values`state
      ensures Valid() && model == Next(old(model), Preempt(allowPreempt))
      ensures !allowPreempt || old(current) == null || old(readyList.nodes) == [] ==>
                model == old(model) && current == old(current)
    {
      assert ListOk(readyList);
      if allowPreempt && current != null && readyList.head != null {
        FreeNode(current.node);
        CallPlaced(model, Preempt(true), []);
        ProcessSwitch(Ready, []);
      }
    }

    method SetExitCode(code: int)
      requires Valid() && current != null
      modifies current`exitcode
      ensures Valid() && current.exitcode == code
    {
      current.exitcode := code;
      StillMirrors();
    }

    /** The switch with which a process ends. */
    method SwitchToGrave(interrupts: seq<Event>)
      requires Valid() && current != null && AllWake(queues.Keys, interrupts)
      modifies `model, `current, Linkage(), procs.Values`state
      ensures Valid() && model == DispatchLoop(Before(old(model), Exit), interrupts)
      ensures old(current).state == Grave
    {
      CallPlaced(model, Exit, interrupts);
      ExitedStaysInGrave(model, current.node, interrupts);
      ProcessSwitch(Grave, interrupts);
      assert ProcIs(old(current.node));
    }

    /** process_exit. */
    method ProcessExit(code: int, interrupts: seq<Event>)
      requires Valid() && current != null && AllWake(queues.Keys, interrupts)
      modifies `model, `current, current`exitcode, Linkage(), procs.Values`state
      ensures Valid() && model == DispatchLoop(Before(old(model), Exit), interrupts)
      ensures old(current).exitcode == code && old(current).state == Grave
    {
      SetExitCode(code);
      SwitchToGrave(interrupts);
    }

    /** process_wait, called with interrupts off. */
    method ProcessWait(q: nat, interrupts: seq<Event>)
      requires Valid() && current != null && q in queues && AllWake(queues.Keys, interrupts)
      modifies `model, `current, Linkage(), procs.Values`state
      ensures Valid() && model == DispatchLoop(Before(old(model), Wait(q)), interrupts)
    {
      FreeNode(current.node);
      CallPlaced(model, Wait(q), interrupts);
      PushWaiter(q, current.node);
      ProcessSwitch(Blocked, interrupts);
    }

    /** process_wait up to the first look at the ready list. */
    method WaitStep(q: nat)
      requires Valid() && current != null && q in queues
      modifies `model, `current, Linkage(), procs.Values`state
      ensures Valid() && model == Next(old(model), Wait(q))
    {
      ProcessWait(q, []);
    }

    /** process_wakeup, called with interrupts off. */
    method WakeupStep(q: nat)
      requires Valid() && q in queues
      modifies `model, Linkage(), procs.Values`state
      ensures Valid() && model == Next(old(model), Wakeup(q))
    {
      StepPlaced(model, Wakeup(q));
      ProcessWakeup(q);
    }

    /** process_wakeup_all, called with interrupts off. */
    method WakeupAllStep(q: nat)
      requires Valid() && q in queues
      modifies `model, Linkage(), procs.Values`state
      ensures Valid() && model == Next(old(model), WakeupAll(q))
    {
      StepPlaced(model, WakeupAll(q));
      ProcessWakeupAll(q);
    }
  }
}
