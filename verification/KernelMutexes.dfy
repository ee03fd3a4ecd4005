/** The mutex record and the code of mutex_lock and mutex_unlock (kernel/kernel/mutex.c). */
module KernelMutexes {
  import opened Lists
  import opened Mutexes
  import opened Processes
  import opened Scheduling

  /** The lock step of a process that finds the mutex locked. */
  lemma LockWaits<P>(t: System<P>)
    requires t.locked && t.m in t.s.queues && t.s.current.Some?
    ensures Allowed(t, Lock)
    ensures var t' := Act(t, Lock); t'.s == Next(t.s, Wait(t.m)) && t'.m == t.m && t'.locked
  {}

  class Mutex {
    var locked: int
    /** The number of the wait queue among the kernel's queues. */
    const waitqueue: nat

    /** MUTEX_INIT. */
    constructor (waitqueue: nat)
      ensures this.waitqueue == waitqueue && locked == 0
    {
      this.waitqueue := waitqueue;
      locked := 0;
    }

    /** `t` adds to the kernel and the mutex who holds it and who is inside mutex_lock. */
    ghost predicate Shows(k: Kernel, t: System<ListNode>)
      reads this, k`model
    {
      t.s == k.model && t.m == waitqueue && t.locked == (locked != 0)
    }

    /** An assignment to the mutex does not disturb the scheduler. */
    method SetLocked(k: Kernel, locked: int)
      requires k.Valid()
      modifies this
      ensures k.Valid() && this.locked == locked
    {
      this.locked := locked;
    }

    /** The two outcomes of the test in mutex_lock: queue up behind the holder, or get the mutex. */
    method WaitForHolder(k: Kernel, ghost t: System<ListNode>)
      requires k.Valid() && k.current != null && waitqueue in k.queues && Shows(k, t) && locked != 0
      modifies k`model, k`current, k.Linkage(), k.procs.Values`state
      ensures k.Valid() && Allowed(t, Lock) && Shows(k, Act(t, Lock))
    {
      k.ModelShown();
      LockWaits(t);
      k.WaitStep(waitqueue);
    }

    method TakeFree(k: Kernel, ghost t: System<ListNode>)
      requires k.Valid() && k.current != null && waitqueue in k.queues && Shows(k, t) && locked == 0
      modifies this
      ensures k.Valid() && Allowed(t, Lock) && Shows(k, Act(t, Lock)) && locked == 1
    {
      SetLocked(k, 1);
    }

    /** mutex_lock from disabling interrupts to enabling them again: the caller gets the mutex, or it
        is in the wait queue and will run this again when it has been woken and dispatched. */
    method LockOnce(k: Kernel, ghost t: System<ListNode>) returns (acquired: bool)
      requires k.Valid() && k.current != null && waitqueue in k.queues && Shows(k, t)
      modifies this, k`model, k`current, k.Linkage(), k.procs.Values`state
      ensures k.Valid() && acquired == (old(locked) == 0) && (acquired ==> locked == 1)
      ensures if acquired then k.model == old(k.model)
              else k.model.queues == t.s.queues[t.m := t.s.queues[t.m] + [old(k.current.node)]]
      ensures Allowed(t, Lock) && Shows(k, Act(t, Lock))
    {
      k.ModelShown();
      LockEffect(t, k.current.node);
      acquired := locked == 0;
      if acquired {
        TakeFree(k, t);
      } else {
        WaitForHolder(k, t);
      }
    }

    method WakeFirst(k: Kernel, ghost t: System<ListNode>)
      requires k.Valid() && waitqueue in k.queues && Allowed(t, Action.Unlock) && Shows(k, t.(locked := false))
      modifies k`model, k.Linkage(), k.procs.Values`state
      ensures k.Valid() && Shows(k, Act(t, Action.Unlock))
    {
      k.WakeupStep(waitqueue);
    }

    /** mutex_unlock, called by a holder. */
    method MutexUnlock(k: Kernel, ghost t: System<ListNode>)
      requires k.Valid() && waitqueue in k.queues && Shows(k, t) && Allowed(t, Action.Unlock)
      modifies this, k`model, k.Linkage(), k.procs.Values`state
      ensures k.Valid() && Shows(k, Act(t, Action.Unlock)) && locked == 0
      ensures var w := t.s.queues[t.m];
              k.model.ready == t.s.ready + w[..if w == [] then 0 else 1] && k.model.current == t.s.current
    {
      UnlockEffect(t, t.s.current.value);
      SetLocked(k, 0);
      WakeFirst(k, t);
    }
  }
}
