/** The stored priorities of a list, as list.c changes them (kernel/kernel/list.c:3-103). */
module Priorities {

  /** The scan of list_push_priority gives up after this many nodes. */
  const SCAN_LIMIT := 5000

  /** Where the scan stops from position `i` on: at a smaller priority, past the limit, or at the
      end. */
  function Slot(ps: seq<int>, pri: int, i: nat): (k: nat)
    requires i <= |ps|
    ensures i <= k <= |ps|
    ensures forall j :: i <= j < k ==> pri <= ps[j]
    ensures i < k ==> k - 1 <= SCAN_LIMIT
    ensures k < |ps| ==> pri > ps[k] || k > SCAN_LIMIT
    decreases |ps| - i
  {
    if i == |ps| || pri > ps[i] || i > SCAN_LIMIT then i else Slot(ps, pri, i + 1)
  }

  /** Insertion stores the requested priority only when it stops before the end. */
  function PushPriority(ps: seq<int>, pri: int): seq<int> {
    var k := Slot(ps, pri, 0);
    if k < |ps| then ps[..k] + [pri] + ps[k..] else ps + [0]
  }

  /** Node `k` is the first with a smaller priority, or past the limit. */
  ghost predicate StopsAt(ps: seq<int>, pri: int, k: nat) {
    k < |ps| && (pri > ps[k] || k > 5000) && forall j :: 0 <= j < k ==> pri <= ps[j] && j <= 5000
  }

  /** The requested priority is stored in front of that node; without such a node, in the empty list too,
      0 is stored at the end. */
  lemma PushStores(ps: seq<int>, pri: int)
    ensures forall k: nat :: StopsAt(ps, pri, k) ==> PushPriority(ps, pri) == ps[..k] + [pri] + ps[k..]
    ensures (forall k: nat :: !StopsAt(ps, pri, k)) ==> PushPriority(ps, pri) == ps + [0]
  {
    var s := Slot(ps, pri, 0);
    assert s < |ps| ==> StopsAt(ps, pri, s);
  }

  datatype Op = PushPri(pri: int) | PushTail | PopHead | PopTail | Remove(k: nat)

  function Apply(ps: seq<int>, op: Op): seq<int> {
    match op
    case PushPri(pri) => PushPriority(ps, pri)
    case PushTail => ps + [0]
    case PopHead => if ps == [] then [] else ps[1..]
    case PopTail => if ps == [] then [] else ps[..|ps| - 1]
    case Remove(k) => if k < |ps| then ps[..k] + ps[k + 1..] else ps
  }

  ghost predicate Ordered(ps: seq<int>) {
    && (forall i :: 0 <= i < |ps| ==> ps[i] >= 0)
    && (forall i, j :: 0 <= i < j < |ps| ==> ps[i] >= ps[j])
  }

  /** Inserting into an ordered list keeps it ordered, unless the scan gives up at a node with a
      larger priority. */
  lemma PushKeepsOrder(ps: seq<int>, pri: int)
    requires Ordered(ps)
    ensures Ordered(PushPriority(ps, pri)) <==> |ps| <= SCAN_LIMIT + 1 || pri >= ps[SCAN_LIMIT + 1]
  {
    var k := Slot(ps, pri, 0);
    var ps' := PushPriority(ps, pri);
    if k < |ps| {
      assert ps'[k] == pri;
      assert forall j :: k < j < |ps'| ==> ps'[j] == ps[j - 1];
      if |ps| > SCAN_LIMIT + 1 && pri < ps[SCAN_LIMIT + 1] {
        assert ps'[SCAN_LIMIT + 2] == ps[SCAN_LIMIT + 1];
      }
    }
  }

  lemma ApplyKeepsOrder(ps: seq<int>, op: Op)
    requires Ordered(ps) && |ps| <= SCAN_LIMIT + 1
    ensures Ordered(Apply(ps, op))
  {
    if op.PushPri? {
      PushKeepsOrder(ps, op.pri);
    }
  }

  function Run(ps: seq<int>, ops: seq<Op>): seq<int>
    decreases |ops|
  {
    if ops == [] then ps else Apply(Run(ps, ops[..|ops| - 1]), ops[|ops| - 1])
  }

  /** A list built from the empty one, never longer than 5001 nodes, is ordered: priorities are
      non-negative and do not increase from head to tail. */
  lemma {:induction false} RunOrdered(ops: seq<Op>)
    requires forall k :: 0 <= k <= |ops| ==> |Run([], ops[..k])| <= SCAN_LIMIT + 1
    ensures Ordered(Run([], ops))
  {
    if ops != [] {
      var init := ops[..|ops| - 1];
      forall k | 0 <= k <= |init|
        ensures |Run([], init[..k])| <= SCAN_LIMIT + 1
      {
        assert init[..k] == ops[..k];
      }
      assert init[..|init|] == init;
      RunOrdered(init);
      ApplyKeepsOrder(Run([], init), ops[|ops| - 1]);
    }
  }

  /** In a longer list the order can break: behind 5002 nodes of priority 0 a negative priority is
      stored in front of a zero. */
  lemma LongListUnordered()
    ensures var ps := seq(SCAN_LIMIT + 2, _ => 0);
            Ordered(ps) && !Ordered(PushPriority(ps, -1))
  {
    var ps := seq(SCAN_LIMIT + 2, _ => 0);
    PushKeepsOrder(ps, -1);
  }
}
