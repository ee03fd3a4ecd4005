/** The intrusive doubly linked list of the kernel (kernel/kernel/list.c).

    Each operation is proved against sequences: `nodes` is the list from head to tail. A node that
    no list owns has a null `list` field. */
module Lists {
  import opened Priorities

  class ListNode {
    var next: ListNode?
    var prev: ListNode?
    var list: List?
    var priority: int

    constructor ()
      ensures next == null && prev == null && list == null && priority == 0
    {
      next, prev, list, priority := null, null, null, 0;
    }
  }

  ghost function Successor(nodes: seq<ListNode>, i: nat): ListNode? {
    if i + 1 < |nodes| then nodes[i + 1] else null
  }

  ghost function Predecessor(nodes: seq<ListNode>, i: nat): ListNode? {
    if 0 < i <= |nodes| then nodes[i - 1] else null
  }

  ghost predicate Distinct(nodes: seq<ListNode>) {
    forall i, j :: 0 <= i < j < |nodes| ==> nodes[i] != nodes[j]
  }

  ghost function Optional(n: ListNode?): set<ListNode> {
    if n == null then {} else {n}
  }

  class List {
    var head: ListNode?
    var tail: ListNode?
    ghost var nodes: seq<ListNode>
    ghost var prios: seq<int>

    constructor ()
      ensures Valid() && nodes == []
    {
      head, tail := null, null;
      nodes, prios := [], [];
    }

    ghost predicate LinkedAt(i: nat)
      reads this, nodes
      requires i < |nodes| == |prios|
    {
      && nodes[i].list == this && nodes[i].priority == prios[i]
      && nodes[i].next == Successor(nodes, i) && nodes[i].prev == Predecessor(nodes, i)
    }

    /** Links are mutually inverse, every node names this list as its owner, and `prios` are the
        stored priorities. */
    ghost predicate Valid()
      reads this, nodes
    {
      && head == (if nodes == [] then null else nodes[0])
      && tail == (if nodes == [] then null else nodes[|nodes| - 1])
      && |prios| == |nodes|
      && Distinct(nodes)
      && forall i {:trigger LinkedAt(i)} :: 0 <= i < |nodes| ==> LinkedAt(i)
    }

    lemma OwnsNodes()
      requires Valid()
      ensures forall n :: n in nodes ==> n.list == this
    {
      forall n | n in nodes
        ensures n.list == this
      {
        var i :| 0 <= i < |nodes| && nodes[i] == n;
        assert LinkedAt(i);
      }
    }

    /** What every operation guarantees for other lists: it changes only this list, its nodes and a
        node that no list owns. So every other well-formed list keeps its nodes, their links and
        their priorities. */
    twostate lemma OthersKept(others: set<List>)
      requires old(Valid()) && this !in others
      requires forall o | o in others :: old(o.Valid()) && unchanged(o)
      requires forall o, n | o in others && n in old(o.nodes) && old(n.list) != null && old(n.list) != this ::
                 unchanged(n)
      ensures forall o | o in others :: o.Valid()
      ensures forall o, n | o in others && n in o.nodes :: unchanged(n)
    {
      forall o, n | o in others && n in o.nodes
        ensures unchanged(n)
      {
        var i :| 0 <= i < |o.nodes| && o.nodes[i] == n;
        assert old(o.LinkedAt(i));
      }
      forall o | o in others
        ensures o.Valid()
      {
        forall i | 0 <= i < |o.nodes|
          ensures o.LinkedAt(i)
        {
          assert old(o.LinkedAt(i));
          assert o.nodes[i] in o.nodes;
        }
      }
    }

    /** list_push_head. */
    method PushHead(node: ListNode)
      requires Valid() && node.list == null
      modifies this, node, nodes
      ensures Valid() && nodes == [node] + old(nodes) && prios == [0] + old(prios)
    {
      OwnsNodes();
      node.next := head;
      node.prev := null;
      node.priority := 0;
      if head != null {
        head.prev := node;
      }
      head := node;
      if tail == null {
        tail := node;
      }
      node.list := this;
      nodes, prios := [node] + nodes, [0] + prios;
      forall i | 0 <= i < |nodes|
        ensures LinkedAt(i)
      {
        if i > 0 {
          assert nodes[i] == old(nodes)[i - 1] && old(LinkedAt(i - 1));
        }
      }
    }

    /** list_push_tail. */
    method PushTail(node: ListNode)
      requires Valid() && node.list == null
      modifies this, node, nodes
      ensures Valid() && nodes == old(nodes) + [node] && prios == Apply(old(prios), Op.PushTail)
      ensures node.priority == 0 && prios == old(prios) + [0]
    {
      OwnsNodes();
      node.prev := tail;
      node.next := null;
      node.priority := 0;
      if tail != null {
        tail.next := node;
      }
      tail := node;
      if head == null {
        head := node;
      }
      node.list := this;
      nodes, prios := nodes + [node], prios + [0];
      forall i | 0 <= i < |nodes|
        ensures LinkedAt(i)
      {
        if i < |nodes| - 1 {
          assert nodes[i] == old(nodes)[i] && old(LinkedAt(i));
        }
      }
    }

    /** list_pop_head: the first node, which no list owns afterwards, or null. */
    method PopHead() returns (result: ListNode?)
      requires Valid()
      modifies this, nodes
      ensures Valid() && prios == Apply(old(prios), Op.PopHead)
      ensures if old(nodes) == [] then result == null && nodes == []
              else result == old(nodes)[0] && nodes == old(nodes)[1..]
      ensures result != null ==> result.list == null && result.next == null && result.prev == null
    {
      result := head;
      assert nodes != [] ==> LinkedAt(0);
      if head != null {
        head := head.next;
        if head != null {
          head.prev := null;
        }
        if head == null {
          tail := null;
        }
        result.next, result.prev := null, null;
        result.list := null;
        nodes, prios := nodes[1..], prios[1..];
        forall i | 0 <= i < |nodes|
          ensures LinkedAt(i)
        {
          assert nodes[i] == old(nodes)[i + 1] && old(LinkedAt(i + 1));
        }
      }
    }

    /** list_pop_tail: the last node, which no list owns afterwards, or null. */
    method PopTail() returns (result: ListNode?)
      requires Valid()
      modifies this, nodes
      ensures Valid() && prios == Apply(old(prios), Op.PopTail)
      ensures if old(nodes) == [] then result == null && nodes == []
              else result == old(nodes)[|old(nodes)| - 1] && nodes == old(nodes)[..|old(nodes)| - 1]
      ensures result != null ==> result.list == null && result.next == null && result.prev == null
    {
      result := tail;
      assert nodes != [] ==> LinkedAt(|nodes| - 1);
      if tail != null {
        tail := tail.prev;
        if tail != null {
          tail.next := null;
        }
        if tail == null {
          head := null;
        }
        result.next, result.prev := null, null;
        result.list := null;
        nodes, prios := nodes[..|nodes| - 1], prios[..|prios| - 1];
        forall i | 0 <= i < |nodes|
          ensures LinkedAt(i)
        {
          assert nodes[i] == old(nodes)[i] && old(LinkedAt(i));
        }
      }
    }

    /** The scan of list_push_priority: the node before which to insert, or null. */
    method FindSlot(pri: int) returns (n: ListNode?, ghost k: nat)
      requires Valid()
      ensures k == Slot(prios, pri, 0) && n == if k < |nodes| then nodes[k] else null
    {
      n, k := head, 0;
      var i := 0;
      while n != null && !(pri > n.priority || i > SCAN_LIMIT)
        invariant k <= |nodes| && i == k
        invariant n == if k < |nodes| then nodes[k] else null
        invariant Slot(prios, pri, k) == Slot(prios, pri, 0)
        decreases |nodes| - k
      {
        assert LinkedAt(k);
        n := n.next;
        i := i + 1;
        k := k + 1;
      }
      assert n != null ==> LinkedAt(k);
    }

    /** The assignments with which list_push_priority links `node` in front of `n`. */
    method Link(node: ListNode, n: ListNode, pri: int)
      requires node != n && n.prev != node && n.prev != n
      modifies this`head, node, n`prev, Optional(n.prev)`next
      ensures node.next == n && node.prev == old(n.prev) && node.priority == pri && node.list == this
      ensures n.prev == node && (old(n.prev) != null ==> old(n.prev).next == node)
      ensures head == if old(n.prev) == null then node else old(head)
    {
      node.next := n;
      node.prev := n.prev;
      node.priority := pri;
      if n.prev != null {
        n.prev.next := node;
      } else {
        head := node;
      }
      n.prev := node;
      node.list := this;
    }

    /** What that makes of the list. */
    method InsertBefore(node: ListNode, n: ListNode, pri: int, ghost k: nat)
      requires Valid() && node.list == null && k < |nodes| && nodes[k] == n
      modifies this, node, nodes
      ensures Valid() && nodes == old(nodes)[..k] + [node] + old(nodes)[k..]
      ensures prios == old(prios)[..k] + [pri] + old(prios)[k..]
    {
      OwnsNodes();
      assert LinkedAt(k);
      assert k > 0 ==> LinkedAt(k - 1);
      Link(node, n, pri);
      nodes := nodes[..k] + [node] + nodes[k..];
      prios := prios[..k] + [pri] + prios[k..];
      forall i | 0 <= i < |nodes|
        ensures LinkedAt(i)
      {
        if i < k {
          assert nodes[i] == old(nodes)[i] && old(LinkedAt(i));
        } else if i > k {
          assert nodes[i] == old(nodes)[i - 1] && old(LinkedAt(i - 1));
        }
      }
    }

    /** list_push_priority: before the first node with a smaller priority. */
    method PushPriority(node: ListNode, pri: int)
      requires Valid() && node.list == null
      modifies this, node, nodes
      ensures Valid() && prios == Apply(old(prios), PushPri(pri))
      ensures var k := Slot(old(prios), pri, 0);
              nodes == old(nodes)[..k] + [node] + old(nodes)[k..]
    {
      if head == null {
        PushHead(node);
        return;
      }
      var n, k := FindSlot(pri);
      if n != null {
        InsertBefore(node, n, pri, k);
        return;
      }
      PushTail(node);
    }

    /** The unlinking that list_remove does on a node that is neither first nor last. */
    method Unlink(node: ListNode, ghost k: nat)
      requires Valid() && 0 < k < |nodes| - 1 && nodes[k] == node
      modifies this, nodes
      ensures Valid() && nodes == old(nodes)[..k] + old(nodes)[k + 1..]
      ensures prios == Apply(old(prios), Op.Remove(k))
      ensures node.list == null && node.next == null && node.prev == null
    {
      assert LinkedAt(k) && LinkedAt(k - 1) && LinkedAt(k + 1);
      node.next.prev := node.prev;
      node.prev.next := node.next;
      node.next, node.prev := null, null;
      node.list := null;
      nodes := nodes[..k] + nodes[k + 1..];
      prios := prios[..k] + prios[k + 1..];
      forall i | 0 <= i < |nodes|
        ensures LinkedAt(i)
      {
        if i < k {
          assert nodes[i] == old(nodes)[i] && old(LinkedAt(i));
        } else {
          assert nodes[i] == old(nodes)[i + 1] && old(LinkedAt(i + 1));
        }
      }
    }
  }

  /** list_remove: `node` leaves the list that owns it, wherever it stands; without an owner nothing
      happens. */
  method Remove(node: ListNode, ghost k: nat)
    requires node.list != null ==> node.list.Valid() && k < |node.list.nodes| && node.list.nodes[k] == node
    modifies node, node.list, if node.list == null then [] else node.list.nodes
    ensures node.list == null
    ensures old(node.list) == null ==> unchanged(node)
    ensures old(node.list) != null ==>
              var l := old(node.list);
              && l.Valid() && l.prios == Apply(old(l.prios), Op.Remove(k))
              && l.nodes == old(l.nodes)[..k] + old(l.nodes)[k + 1..]
              && node.next == null && node.prev == null
  {
    if node.list == null {
      return;
    }
    ghost var l := node.list;
    assert k > 0 ==> l.nodes[0] != l.nodes[k];
    assert k < |l.nodes| - 1 ==> l.nodes[k] != l.nodes[|l.nodes| - 1];
    if node.list.head == node {
      var _ := node.list.PopHead();
      return;
    }
    if node.list.tail == node {
      var _ := node.list.PopTail();
      return;
    }
    node.list.Unlink(node, k);
  }
}
