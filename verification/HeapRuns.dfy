/** kheap_add_block, kalloc and kfree as functions of the heap, and every run of them
    (kernel/kernel/heap.c:26-158). */
module HeapRuns {
  import opened Common
  import opened Division
  import opened HeapBlocks
  import opened HeapSearch

  function View(b: Block): Bitmap {
    Bitmap(b.bm, b.n, b.lfb)
  }

  // ---------------------------------------------------------------- operations on one block

  /** The block that kheap_add_block writes. */
  function NewBlock(base: nat, span: nat, cell: nat): Block
    requires Geometry(span, cell)
  {
    var k := Quot(span, cell);
    var r := CellsFor(k, cell);
    Block(base, span, cell, Quot(span - HEADER, cell), r,
          seq(k, i => if i < r then RESERVED_ID else 0), r, r - 1)
  }

  /** kalloc's test whether a block may have room: an unsigned 32-bit subtraction. */
  predicate MayHold(b: Block, size: nat) {
    (b.span - HEADER - Bytes(b.used, b.cell)) % TWO32 >= size
  }

  /** Mark `need` cells from `x` on with a fresh id and move the hint. */
  function Take(b: Block, x: nat, need: nat): Block
    requires 1 <= x && 1 <= need && x + need < |b.bm|
  {
    b.(bm := Fill(b.bm, x, need, NextId(b.bm[x - 1], b.bm[x + need])),
       lfb := x + need - 2,
       used := b.used + need)
  }

  /** kfree's test whether a pointer belongs to a block. */
  predicate Owns(b: Block, ptr: nat) {
    b.base < ptr < b.base + (b.span - HEADER)
  }

  function CellIndex(b: Block, ptr: nat): nat
    requires 0 < b.cell && b.base + HEADER <= ptr
  {
    Quot(ptr - b.base - HEADER, b.cell)
  }

  /** Clear the cells from `i` on that carry the id of cell `i`. */
  function Release(b: Block, i: nat): Block
    requires i < b.n < |b.bm|
  {
    var e := RunEnd(b.bm, i, b.bm[i], b.n);
    b.(bm := Fill(b.bm, i, e - i, 0), used := if e - i <= b.used then b.used - (e - i) else 0)
  }

  lemma NewBlockInv(base: nat, span: nat, cell: nat)
    requires Geometry(span, cell) && 0 < base && base + span <= TWO32
    ensures BlockInv(NewBlock(base, span, cell), map[])
  {
    var b := NewBlock(base, span, cell);
    GeometryLaid(b);
    OccupiedPrefix(b.bm, b.r);
  }

  lemma TakeInv(b: Block, live: map<nat, nat>, x: nat, need: nat)
    requires BlockInv(b, live) && 1 <= need && Fits(View(b), need, x)
    ensures x + need < |b.bm| && x !in live && b.r <= x
    ensures BlockInv(Take(b, x, need), live[x := need])
  {
    assert b.bm[x] == 0;
    TiledAfterAlloc(b.bm, b.r, b.n, live, x, need, NextId(b.bm[x - 1], b.bm[x + need]));
    OccupiedGrows(b.bm, Take(b, x, need).bm, x, need);
  }

  /** Clearing from the first cell of a live run clears exactly the cells of that run. */
  lemma ReleaseExact(b: Block, live: map<nat, nat>, s: nat)
    requires BlockInv(b, live) && s in live
    ensures s < b.n && s + live[s] <= |b.bm| && live[s] <= b.used
    ensures Release(b, s) == b.(bm := Fill(b.bm, s, live[s], 0), used := b.used - live[s])
    ensures Occupied(Fill(b.bm, s, live[s], 0)) == b.used - live[s]
  {
    assert RunAt(b.bm, b.r, b.n, s, live[s]);
    RunEndIsRun(b.bm, b.r, b.n, s, live[s]);
    OccupiedGrows(Fill(b.bm, s, live[s], 0), b.bm, s, live[s]);
  }

  lemma LaidKept(b: Block, bm: seq<byte>, used: nat)
    requires b.Laid() && |bm| == |b.bm|
    ensures b.(bm := bm, used := used).Laid()
  {}

  lemma ClearedInv(b: Block, live: map<nat, nat>, s: nat, used: nat)
    requires BlockInv(b, live) && s in live && s + live[s] <= |b.bm|
    requires used == Occupied(Fill(b.bm, s, live[s], 0))
    ensures BlockInv(b.(bm := Fill(b.bm, s, live[s], 0), used := used), live - {s})
  {
    TiledAfterFree(b.bm, b.r, b.n, live, s);
    LaidKept(b, Fill(b.bm, s, live[s], 0), used);
  }

  lemma ReleaseInv(b: Block, live: map<nat, nat>, s: nat)
    requires BlockInv(b, live) && s in live
    ensures s < b.n && BlockInv(Release(b, s), live - {s})
  {
    ReleaseExact(b, live, s);
    ClearedInv(b, live, s, b.used - live[s]);
  }

  /** A block recognises the pointer of each of its cells. */
  lemma OwnsCell(b: Block, x: nat)
    requires b.Laid() && x < b.n
    ensures Owns(b, b.CellAddr(x)) && CellIndex(b, b.CellAddr(x)) == x
  {
    CellInside(b, x);
    QuotOfBytes(x, b.cell);
  }

  /** The subtraction in kalloc's test never wraps, and the test never skips a block with room. */
  lemma GuardSound(b: Block, live: map<nat, nat>, size: nat)
    requires BlockInv(b, live) && size > 0
    ensures Bytes(b.used, b.cell) <= b.span - HEADER
    ensures MayHold(b, size) <==> size <= b.span - HEADER - Bytes(b.used, b.cell)
    ensures HasRoom(View(b), CellsFor(size, b.cell)) ==> MayHold(b, size)
  {
    var n, c, need := b.n, b.cell, CellsFor(size, b.cell);
    CellsForBounds(size, c);
    OccupiedBound(b.bm, 0, 0, n);
    BytesMonotone(b.used, n, c);
    if HasRoom(View(b), need) {
      var x: nat :| x + need <= n && Free(b.bm, x, need);
      OccupiedBound(b.bm, x, need, n);
      BytesMonotone(b.used + need, n, c);
      BytesAdd(b.used, need, c);
    }
  }

  // ---------------------------------------------------------------- operations on the block list

  datatype Outcome = Granted(i: nat, x: nat) | OutOfMemory | Hangs

  predicate AllSearchable(h: seq<Block>) {
    forall i :: 0 <= i < |h| ==> 0 < h[i].cell && Searchable(View(h[i]))
  }

  /** What kalloc does from block `i` of the list on. */
  ghost function Allocate(h: seq<Block>, i: nat, size: nat): (o: Outcome)
    requires AllSearchable(h) && i <= |h| && size > 0
    ensures o.Granted? ==> i <= o.i < |h|
    decreases |h| - i
  {
    if i == |h| then OutOfMemory
    else if !MayHold(h[i], size) then Allocate(h, i + 1, size)
    else match Search(View(h[i]), CellsFor(size, h[i].cell))
      case Found(x) => Granted(i, x)
      case Diverges => Hangs
      case Exhausted => Allocate(h, i + 1, size)
  }

  /** A granted request takes the nearest fit of a block whose count leaves room. */
  lemma {:induction false} GrantedFits(h: seq<Block>, i: nat, size: nat)
    requires AllSearchable(h) && i <= |h| && size > 0
    ensures var o := Allocate(h, i, size);
            o.Granted? ==> MayHold(h[o.i], size) && FirstFit(View(h[o.i]), CellsFor(size, h[o.i].cell), o.x)
    decreases |h| - i
  {
    if i < |h| {
      SearchSpec(View(h[i]), CellsFor(size, h[i].cell));
      GrantedFits(h, i + 1, size);
    }
  }

  /** The first block from `i` on whose address range holds `ptr`, or the length of the list. */
  function OwnerOf(h: seq<Block>, i: nat, ptr: nat): (o: nat)
    requires i <= |h|
    ensures i <= o <= |h|
    ensures forall j :: i <= j < o ==> !Owns(h[j], ptr)
    ensures o < |h| ==> Owns(h[o], ptr)
    decreases |h| - i
  {
    if i == |h| || Owns(h[i], ptr) then i else OwnerOf(h, i + 1, ptr)
  }

  // ---------------------------------------------------------------- runs

  /** The block list, with the live allocations of each block: first cell to number of cells. */
  datatype Heap = Heap(blocks: seq<Block>, live: seq<map<nat, nat>>)

  predicate Apart(a: Block, b: Block) {
    a.base + a.span <= b.base || b.base + b.span <= a.base
  }

  ghost predicate InvAt(s: Heap, i: nat)
    requires i < |s.blocks| == |s.live|
  {
    BlockInv(s.blocks[i], s.live[i])
  }

  ghost predicate HeapInv(s: Heap) {
    && |s.blocks| == |s.live|
    && (forall i {:trigger InvAt(s, i)} :: 0 <= i < |s.blocks| ==> InvAt(s, i))
    && (forall i, j {:trigger Apart(s.blocks[i], s.blocks[j])} ::
          0 <= i < j < |s.blocks| ==> Apart(s.blocks[i], s.blocks[j]))
  }

  lemma InvSearchable(s: Heap)
    requires HeapInv(s)
    ensures AllSearchable(s.blocks)
  {
    forall i | 0 <= i < |s.blocks|
      ensures 0 < s.blocks[i].cell && Searchable(View(s.blocks[i]))
    {
      assert InvAt(s, i);
    }
  }

  /** Live allocation `c` of block `i`. */
  predicate Live(s: Heap, i: int, c: int) {
    0 <= i < |s.blocks| && i < |s.live| && c in s.live[i]
  }

  function Ptr(s: Heap, i: nat, c: nat): nat
    requires Live(s, i, c)
  {
    s.blocks[i].CellAddr(c)
  }

  function End(s: Heap, i: nat, c: nat): nat
    requires Live(s, i, c)
  {
    s.blocks[i].CellAddr(c + s.live[i][c])
  }

  function WithRun(live: map<nat, nat>, c: nat, len: nat): map<nat, nat> {
    live[c := len]
  }

  datatype Op =
    | AddBlock(base: nat, span: nat, cell: nat)
    | KAlloc(size: nat)
    | KFree(i: nat, c: nat)

  ghost predicate StepAdd(s: Heap, base: nat, span: nat, cell: nat, s': Heap) {
    && Geometry(span, cell) && 0 < base && base + span <= TWO32
    && (forall i :: 0 <= i < |s.blocks| ==> Apart(NewBlock(base, span, cell), s.blocks[i]))
    && s' == Heap([NewBlock(base, span, cell)] + s.blocks, [map[]] + s.live)
  }

  ghost predicate StepAlloc(s: Heap, size: nat, s': Heap)
    requires HeapInv(s)
  {
    InvSearchable(s);
    && size > 0
    && var o := Allocate(s.blocks, 0, size);
    && o.Granted?
    && var need := CellsFor(size, s.blocks[o.i].cell);
    && 1 <= o.x && o.x + need < |s.blocks[o.i].bm|
    && s' == Heap(s.blocks[o.i := Take(s.blocks[o.i], o.x, need)],
                  s.live[o.i := WithRun(s.live[o.i], o.x, need)])
  }

  ghost predicate StepFree(s: Heap, i: nat, c: nat, s': Heap)
    requires HeapInv(s)
  {
    && Live(s, i, c)
    && var ptr := Ptr(s, i, c);
    && var j := OwnerOf(s.blocks, 0, ptr);
    && j < |s.blocks| && 0 < s.blocks[j].cell && s.blocks[j].base + HEADER <= ptr
    && var bi := CellIndex(s.blocks[j], ptr);
    && bi < s.blocks[j].n < |s.blocks[j].bm|
    && s' == Heap(s.blocks[j := Release(s.blocks[j], bi)], s.live[i := s.live[i] - {c}])
  }

  /** One call that returns: a block of fresh memory is added, a positive size is allocated, or the
      pointer of a live allocation is freed. */
  ghost predicate Step(s: Heap, op: Op, s': Heap)
    requires HeapInv(s)
  {
    match op
    case AddBlock(base, span, cell) => StepAdd(s, base, span, cell, s')
    case KAlloc(size) => StepAlloc(s, size, s')
    case KFree(i, c) => StepFree(s, i, c, s')
  }

  /** kfree of a live pointer finds the block the pointer came from. */
  lemma OwnerFound(s: Heap, i: nat, c: nat)
    requires HeapInv(s) && Live(s, i, c)
    ensures OwnerOf(s.blocks, 0, Ptr(s, i, c)) == i
    ensures 0 < s.blocks[i].cell && c < s.blocks[i].n < |s.blocks[i].bm|
    ensures CellIndex(s.blocks[i], Ptr(s, i, c)) == c
  {
    assert InvAt(s, i);
    ReleaseExact(s.blocks[i], s.live[i], c);
    OwnsCell(s.blocks[i], c);
    var j := OwnerOf(s.blocks, 0, Ptr(s, i, c));
    assert j < i ==> Apart(s.blocks[j], s.blocks[i]);
  }

  /** Replacing one block by one at the same place keeps the heap invariant. */
  lemma ReplaceKeepsInv(s: Heap, i: nat, b: Block, live: map<nat, nat>)
    requires HeapInv(s) && i < |s.blocks| && BlockInv(b, live)
    requires b.base == s.blocks[i].base && b.span == s.blocks[i].span
    ensures HeapInv(Heap(s.blocks[i := b], s.live[i := live]))
  {
    var s' := Heap(s.blocks[i := b], s.live[i := live]);
    forall j | 0 <= j < |s'.blocks|
      ensures InvAt(s', j)
    {
      assert j != i ==> InvAt(s, j);
    }
    forall j, k | 0 <= j < k < |s'.blocks|
      ensures Apart(s'.blocks[j], s'.blocks[k])
    {
      assert Apart(s.blocks[j], s.blocks[k]);
    }
  }

  lemma AddKeepsInv(s: Heap, base: nat, span: nat, cell: nat, s': Heap)
    requires HeapInv(s) && StepAdd(s, base, span, cell, s')
    ensures HeapInv(s')
  {
    NewBlockInv(base, span, cell);
    forall i | 0 <= i < |s'.blocks|
      ensures InvAt(s', i)
    {
      assert i > 0 ==> InvAt(s, i - 1);
    }
    forall i, j | 0 <= i < j < |s'.blocks|
      ensures Apart(s'.blocks[i], s'.blocks[j])
    {
      assert s'.blocks[j] == s.blocks[j - 1];
      assert i > 0 ==> Apart(s.blocks[i - 1], s.blocks[j - 1]);
    }
  }

  /** The step that a block put in front of the list makes. */
  lemma AddStep(s: Heap, base: nat, span: nat, cell: nat, s': Heap)
    requires HeapInv(s) && Geometry(span, cell) && 0 < base && base + span <= TWO32
    requires forall i :: 0 <= i < |s.blocks| ==> Apart(NewBlock(base, span, cell), s.blocks[i])
    requires s' == Heap([NewBlock(base, span, cell)] + s.blocks, [map[]] + s.live)
    ensures StepAdd(s, base, span, cell, s') && HeapInv(s')
  {
    AddKeepsInv(s, base, span, cell, s');
  }

  lemma AllocKeepsInv(s: Heap, size: nat, s': Heap)
    requires HeapInv(s) && StepAlloc(s, size, s')
    ensures HeapInv(s')
  {
    InvSearchable(s);
    var o := Allocate(s.blocks, 0, size);
    var need := CellsFor(size, s.blocks[o.i].cell);
    GrantedFits(s.blocks, 0, size);
    assert InvAt(s, o.i);
    TakeInv(s.blocks[o.i], s.live[o.i], o.x, need);
    ReplaceKeepsInv(s, o.i, Take(s.blocks[o.i], o.x, need), s.live[o.i][o.x := need]);
  }

  lemma GrantBounds(h: seq<Block>, size: nat, i: nat, x: nat)
    requires AllSearchable(h) && size > 0 && Allocate(h, 0, size) == Granted(i, x)
    ensures 1 <= x && x + CellsFor(size, h[i].cell) < |h[i].bm|
  {
    GrantedFits(h, 0, size);
  }

  /** The step that a granted request makes. */
  lemma GrantStep(s: Heap, size: nat, i: nat, x: nat, s': Heap)
    requires HeapInv(s) && size > 0 && AllSearchable(s.blocks)
    requires Allocate(s.blocks, 0, size) == Granted(i, x)
    requires 1 <= x && x + CellsFor(size, s.blocks[i].cell) < |s.blocks[i].bm|
    requires s' == Heap(s.blocks[i := Take(s.blocks[i], x, CellsFor(size, s.blocks[i].cell))],
                        s.live[i := WithRun(s.live[i], x, CellsFor(size, s.blocks[i].cell))])
    ensures StepAlloc(s, size, s') && HeapInv(s')
  {
    AllocKeepsInv(s, size, s');
  }

  /** kfree of a live pointer replaces only the block it belongs to. */
  lemma FreeReplaces(s: Heap, i: nat, c: nat, s': Heap)
    requires HeapInv(s) && StepFree(s, i, c, s')
    ensures c < s.blocks[i].n < |s.blocks[i].bm|
    ensures s' == Heap(s.blocks[i := Release(s.blocks[i], c)], s.live[i := s.live[i] - {c}])
  {
    OwnerFound(s, i, c);
    assert InvAt(s, i);
  }

  lemma StepKeepsInv(s: Heap, op: Op, s': Heap)
    requires HeapInv(s) && Step(s, op, s')
    ensures HeapInv(s')
  {
    match op
    case AddBlock(base, span, cell) =>
      AddKeepsInv(s, base, span, cell, s');
    case KAlloc(size) =>
      AllocKeepsInv(s, size, s');
    case KFree(i, c) =>
      FreeReplaces(s, i, c, s');
      assert InvAt(s, i);
      ReleaseInv(s.blocks[i], s.live[i], c);
      ReplaceKeepsInv(s, i, Release(s.blocks[i], c), s.live[i] - {c});
  }

  ghost predicate StepAt(states: seq<Heap>, ops: seq<Op>, k: nat)
    requires k < |ops| && k + 1 < |states|
  {
    HeapInv(states[k]) ==> Step(states[k], ops[k], states[k + 1])
  }

  ghost predicate IsRun(states: seq<Heap>, ops: seq<Op>) {
    && |states| == |ops| + 1
    && states[0] == Heap([], [])
    && forall k {:trigger StepAt(states, ops, k)} :: 0 <= k < |ops| ==> StepAt(states, ops, k)
  }

  /** The invariant holds in every state of every run. */
  lemma {:induction false} RunInv(states: seq<Heap>, ops: seq<Op>, k: nat)
    requires IsRun(states, ops) && k < |states|
    ensures HeapInv(states[k])
  {
    if k > 0 {
      RunInv(states, ops, k - 1);
      assert StepAt(states, ops, k - 1);
      StepKeepsInv(states[k - 1], ops[k - 1], states[k]);
    }
  }

  // ---------------------------------------------------------------- what the invariant means

  /** A live allocation lies in its block, past the header and the bitmap. */
  lemma LiveInside(s: Heap, i: nat, c: nat)
    requires HeapInv(s) && Live(s, i, c)
    ensures var b := s.blocks[i];
            b.base + HEADER + |b.bm| <= Ptr(s, i, c) < End(s, i, c) <= b.base + b.span
  {
    assert InvAt(s, i);
    var b, len := s.blocks[i], s.live[i][c];
    assert RunAt(b.bm, b.r, b.n, c, len);
    BytesMonotone(b.r, c, b.cell);
    BytesMonotone(c, c + len, b.cell);
    BytesMonotone(c + len, b.n, b.cell);
  }

  lemma RunsApart(b: Block, live: map<nat, nat>, c: nat, d: nat)
    requires BlockInv(b, live) && c in live && d in live && c < d
    ensures b.CellAddr(c + live[c]) <= b.CellAddr(d)
  {
    BytesMonotone(c + live[c], d, b.cell);
  }

  lemma BlocksApart(s: Heap, i: nat, c: nat, j: nat, d: nat)
    requires HeapInv(s) && Live(s, i, c) && Live(s, j, d) && i < j
    ensures End(s, i, c) <= Ptr(s, j, d) || End(s, j, d) <= Ptr(s, i, c)
  {
    assert Apart(s.blocks[i], s.blocks[j]);
    LiveInside(s, i, c);
    LiveInside(s, j, d);
  }

  /** Two different live allocations do not overlap. */
  lemma LiveDisjoint(s: Heap, i: nat, c: nat, j: nat, d: nat)
    requires HeapInv(s) && Live(s, i, c) && Live(s, j, d) && (i, c) != (j, d)
    ensures End(s, i, c) <= Ptr(s, j, d) || End(s, j, d) <= Ptr(s, i, c)
  {
    if i < j {
      BlocksApart(s, i, c, j, d);
    } else if j < i {
      BlocksApart(s, j, d, i, c);
    } else {
      assert InvAt(s, i);
      if c < d {
        RunsApart(s.blocks[i], s.live[i], c, d);
      } else {
        RunsApart(s.blocks[i], s.live[i], d, c);
      }
    }
  }

  /** What every reachable heap guarantees its clients. */
  ghost predicate Safe(s: Heap) {
    && |s.blocks| == |s.live|
    // allocations lie in their block, past its bitmap, and do not overlap
    && (forall i, c :: Live(s, i, c) ==>
          var b := s.blocks[i];
          b.base + HEADER + |b.bm| <= Ptr(s, i, c) < End(s, i, c) <= b.base + b.span)
    && (forall i, c, j, d :: Live(s, i, c) && Live(s, j, d) && (i, c) != (j, d) ==>
          End(s, i, c) <= Ptr(s, j, d) || End(s, j, d) <= Ptr(s, i, c))
    && (forall i :: 0 <= i < |s.blocks| ==> Accounted(s.blocks[i], s.live[i]))
  }

  /** The nonzero cells are the reserved prefix and the live runs; touching runs differ in id;
      `used` counts the nonzero cells. */
  ghost predicate Accounted(b: Block, live: map<nat, nat>) {
    && 1 <= b.r <= b.n < |b.bm|
    && (forall x :: 0 <= x < |b.bm| ==> (b.bm[x] != 0 <==> x < b.r || Covered(live, x)))
    && (forall c, x :: Covers(live, c, x) ==> b.r <= c <= x < b.n && b.bm[x] == b.bm[c])
    && (forall c :: c in live ==>
          b.r <= c && c + live[c] <= b.n && b.bm[c - 1] != b.bm[c] && b.bm[c + live[c]] != b.bm[c])
    && b.used == Occupied(b.bm) <= b.n
  }

  lemma InvAccounted(b: Block, live: map<nat, nat>)
    requires BlockInv(b, live)
    ensures Accounted(b, live)
  {
    OccupiedBound(b.bm, 0, 0, b.n);
    forall x | 0 <= x < |b.bm|
      ensures b.bm[x] != 0 <==> x < b.r || Covered(live, x)
    {
      if Covered(live, x) {
        var c :| Covers(live, c, x);
        assert RunAt(b.bm, b.r, b.n, c, live[c]);
      }
    }
    forall c, x | Covers(live, c, x)
      ensures b.r <= c <= x < b.n && b.bm[x] == b.bm[c]
    {
      assert RunAt(b.bm, b.r, b.n, c, live[c]);
    }
    forall c | c in live
      ensures b.r <= c && c + live[c] <= b.n && b.bm[c - 1] != b.bm[c] && b.bm[c + live[c]] != b.bm[c]
    {
      assert RunAt(b.bm, b.r, b.n, c, live[c]);
    }
  }

  lemma InvSafe(s: Heap)
    requires HeapInv(s)
    ensures Safe(s)
  {
    forall i, c | Live(s, i, c)
      ensures var b := s.blocks[i];
              b.base + HEADER + |b.bm| <= Ptr(s, i, c) < End(s, i, c) <= b.base + b.span
    {
      LiveInside(s, i, c);
    }
    forall i, c, j, d | Live(s, i, c) && Live(s, j, d) && (i, c) != (j, d)
      ensures End(s, i, c) <= Ptr(s, j, d) || End(s, j, d) <= Ptr(s, i, c)
    {
      LiveDisjoint(s, i, c, j, d);
    }
    forall i | 0 <= i < |s.blocks|
      ensures Accounted(s.blocks[i], s.live[i])
    {
      assert InvAt(s, i);
      InvAccounted(s.blocks[i], s.live[i]);
    }
  }

  /** Every state of every run of block additions, allocations and frees is safe. */
  lemma EveryRunSafe(states: seq<Heap>, ops: seq<Op>)
    requires IsRun(states, ops)
    ensures forall k :: 0 <= k < |states| ==> Safe(states[k])
  {
    forall k | 0 <= k < |states|
      ensures Safe(states[k])
    {
      RunInv(states, ops, k);
      InvSafe(states[k]);
    }
  }

  // ---------------------------------------------------------------- exactness and completeness

  /** The block and cell that kalloc grants, and the cells it takes there. */
  lemma AllocDetails(s: Heap, size: nat, s': Heap)
    requires HeapInv(s) && StepAlloc(s, size, s')
    ensures AllSearchable(s.blocks) && size > 0
    ensures var o := Allocate(s.blocks, 0, size);
            && o.Granted?
            && var need := CellsFor(size, s.blocks[o.i].cell);
            && o.x !in s.live[o.i] && 1 <= s.blocks[o.i].r <= o.x && o.x + need < |s.blocks[o.i].bm|
            && s' == Heap(s.blocks[o.i := Take(s.blocks[o.i], o.x, need)],
                          s.live[o.i := WithRun(s.live[o.i], o.x, need)])
  {
    InvSearchable(s);
    var o := Allocate(s.blocks, 0, size);
    GrantedFits(s.blocks, 0, size);
    assert InvAt(s, o.i);
    TakeInv(s.blocks[o.i], s.live[o.i], o.x, CellsFor(size, s.blocks[o.i].cell));
  }

  /** `c` is the nearest id after `a`, counting up in eight bits, that is neither 0 nor `a` nor `b`. */
  ghost predicate NextAfter(a: byte, b: byte, c: byte) {
    && c != 0 && c != a && c != b
    && forall d: byte :: d != 0 && d != a && d != b ==> Ahead(a, c) <= Ahead(a, d)
  }

  /** What an allocation writes: the cells of the run get the next id after the left neighbour's, the hint
      moves to the last but one cell of the run, and the count grows by the number of cells. */
  lemma AllocWrites(s: Heap, size: nat, s': Heap)
    requires HeapInv(s) && StepAlloc(s, size, s')
    ensures AllSearchable(s.blocks) && size > 0
    ensures var o := Allocate(s.blocks, 0, size);
            && o.Granted? && |s'.blocks| == |s.blocks|
            && var b, b' := s.blocks[o.i], s'.blocks[o.i];
            && var need := CellsFor(size, b.cell);
            && 1 <= o.x && o.x + need < |b.bm| == |b'.bm|
            && (forall k :: 0 <= k < |b.bm| ==> b'.bm[k] == if o.x <= k < o.x + need then b'.bm[o.x] else b.bm[k])
            && NextAfter(b.bm[o.x - 1], b.bm[o.x + need], b'.bm[o.x])
            && b'.used == b.used + need && b'.lfb == o.x + need - 2
  {
    AllocDetails(s, size, s');
  }

  /** A granted allocation is new and spans at least `size` bytes. */
  lemma AllocGrants(s: Heap, size: nat, s': Heap)
    requires HeapInv(s) && StepAlloc(s, size, s')
    ensures AllSearchable(s.blocks) && size > 0
    ensures var o := Allocate(s.blocks, 0, size);
            && o.Granted? && !Live(s, o.i, o.x) && Live(s', o.i, o.x)
            && End(s', o.i, o.x) - Ptr(s', o.i, o.x) >= size
  {
    AllocDetails(s, size, s');
    var o := Allocate(s.blocks, 0, size);
    var need := CellsFor(size, s.blocks[o.i].cell);
    CellsForBounds(size, s.blocks[o.i].cell);
    BytesAdd(o.x, need, s.blocks[o.i].cell);
  }

  /** kalloc leaves every other allocation and every other block as they were. */
  lemma AllocFrames(s: Heap, size: nat, s': Heap, i: nat, c: nat)
    requires HeapInv(s) && StepAlloc(s, size, s')
    ensures AllSearchable(s.blocks) && size > 0
    ensures var o := Allocate(s.blocks, 0, size);
            && (Live(s', i, c) <==> Live(s, i, c) || (o.Granted? && i == o.i && c == o.x))
            && (Live(s, i, c) ==> Ptr(s', i, c) == Ptr(s, i, c) && End(s', i, c) == End(s, i, c))
            && (i < |s.blocks| && o.Granted? && i != o.i ==> s'.blocks[i] == s.blocks[i])
  {
    AllocDetails(s, size, s');
  }

  /** kfree of a live pointer zeroes exactly the cells of that allocation. */
  lemma FreeExact(s: Heap, i: nat, c: nat)
    requires HeapInv(s) && Live(s, i, c)
    ensures var b := s.blocks[i];
            && c + s.live[i][c] <= |b.bm| && s.live[i][c] <= b.used
            && StepFree(s, i, c,
                    Heap(s.blocks[i := b.(bm := Fill(b.bm, c, s.live[i][c], 0), used := b.used - s.live[i][c])],
                         s.live[i := s.live[i] - {c}]))
  {
    OwnerFound(s, i, c);
    assert InvAt(s, i);
    ReleaseExact(s.blocks[i], s.live[i], c);
  }

  /** Marking free cells and clearing the run again restores bitmap and count. */
  lemma TakeThenRelease(b: Block, live: map<nat, nat>, x: nat, need: nat)
    requires BlockInv(b, live) && 1 <= need && Fits(View(b), need, x)
    ensures x + need < |b.bm| && x < b.n
    ensures Release(Take(b, x, need), x) == b.(lfb := x + need - 2)
  {
    TakeInv(b, live, x, need);
    ReleaseExact(Take(b, x, need), live[x := need], x);
    assert Fill(Take(b, x, need).bm, x, need, 0) == b.bm;
  }

  lemma PutBack(s: Heap, i: nat, b1: Block, x: nat, need: nat, b2: Block)
    requires i < |s.blocks| == |s.live| && x !in s.live[i]
    ensures s.live[i := WithRun(s.live[i], x, need)][i := WithRun(s.live[i], x, need) - {x}] == s.live
    ensures s.blocks[i := b1][i := b2] == s.blocks[i := b2]
  {
    assert WithRun(s.live[i], x, need) - {x} == s.live[i];
  }

  /** kalloc followed by kfree of its result `o` restores every bitmap and every used count; only
      the hint of the block that served the request may differ. */
  lemma AllocThenFree(s: Heap, size: nat, s1: Heap, o: Outcome, s2: Heap)
    requires HeapInv(s) && StepAlloc(s, size, s1) && HeapInv(s1)
    requires AllSearchable(s.blocks) && size > 0 && o.Granted? && Allocate(s.blocks, 0, size) == o
    requires StepFree(s1, o.i, o.x, s2)
    ensures s2.live == s.live
    ensures s2.blocks == s.blocks[o.i := s.blocks[o.i].(lfb := s1.blocks[o.i].lfb)]
  {
    var b := s.blocks[o.i];
    var need := CellsFor(size, b.cell);
    AllocDetails(s, size, s1);
    GrantedFits(s.blocks, 0, size);
    FreeReplaces(s1, o.i, o.x, s2);
    assert InvAt(s, o.i);
    TakeThenRelease(b, s.live[o.i], o.x, need);
    PutBack(s, o.i, Take(b, o.x, need), o.x, need, b.(lfb := o.x + need - 2));
  }

  /** The block has room for `size` bytes that the search does not miss. */
  ghost predicate Serves(b: Block, size: nat)
    requires 0 < b.cell && Searchable(View(b))
  {
    var need := CellsFor(size, b.cell);
    HasRoom(View(b), need) && !OnlyAtHint(View(b), need)
  }

  /** The block has no room, passes the test for room, and has its hint inside a free stretch. */
  ghost predicate Stuck(b: Block, size: nat)
    requires 0 < b.cell && Searchable(View(b))
  {
    MayHold(b, size) && !HasRoom(View(b), CellsFor(size, b.cell)) && InsideFree(View(b))
  }

  /** Block `j` serves the request, and no block before it in the list is stuck. */
  ghost predicate ServesAt(h: seq<Block>, i: nat, j: nat, size: nat)
    requires AllSearchable(h)
  {
    i <= j < |h| && Serves(h[j], size) && forall k :: i <= k < j ==> !Stuck(h[k], size)
  }

  /** Block `j` is stuck, and no block before it in the list serves the request. */
  ghost predicate StuckAt(h: seq<Block>, i: nat, j: nat, size: nat)
    requires AllSearchable(h)
  {
    i <= j < |h| && Stuck(h[j], size) && forall k :: i <= k < j ==> !Serves(h[k], size)
  }

  /** What kalloc makes of one block, from its cells. */
  lemma BlockOutcome(b: Block, live: map<nat, nat>, size: nat)
    requires BlockInv(b, live) && size > 0
    ensures var r := Search(View(b), CellsFor(size, b.cell));
            && (Serves(b, size) <==> MayHold(b, size) && r.Found?)
            && (Stuck(b, size) <==> MayHold(b, size) && r.Diverges?)
  {
    GuardSound(b, live, size);
    SearchOutcome(View(b), CellsFor(size, b.cell));
  }

  /** A block that neither serves the request nor is stuck makes no difference. */
  lemma PassOver(h: seq<Block>, i: nat, next: nat, size: nat)
    requires AllSearchable(h) && i < |h| && next == i + 1 && !Serves(h[i], size) && !Stuck(h[i], size)
    ensures (exists j: nat :: ServesAt(h, i, j, size)) <==> exists j: nat :: ServesAt(h, next, j, size)
    ensures (exists j: nat :: StuckAt(h, i, j, size)) <==> exists j: nat :: StuckAt(h, next, j, size)
  {
    forall j: nat
      ensures ServesAt(h, i, j, size) <==> ServesAt(h, next, j, size)
      ensures StuckAt(h, i, j, size) <==> StuckAt(h, next, j, size)
    {}
  }

  lemma {:induction false} AllocOutcomeFrom(s: Heap, size: nat, i: nat)
    requires HeapInv(s) && AllSearchable(s.blocks) && size > 0 && i <= |s.blocks|
    ensures Allocate(s.blocks, i, size).Granted? <==> exists j: nat :: ServesAt(s.blocks, i, j, size)
    ensures Allocate(s.blocks, i, size) == Hangs <==> exists j: nat :: StuckAt(s.blocks, i, j, size)
    decreases |s.blocks| - i
  {
    var h := s.blocks;
    if i < |h| {
      AllocOutcomeFrom(s, size, i + 1);
      assert InvAt(s, i);
      BlockOutcome(h[i], s.live[i], size);
      if Serves(h[i], size) {
        assert ServesAt(h, i, i, size);
      } else if Stuck(h[i], size) {
        assert StuckAt(h, i, i, size);
      } else {
        PassOver(h, i, i + 1, size);
      }
    }
  }

  /** In every heap that satisfies the invariant: kalloc grants memory exactly when some block serves
      the request with no stuck block before it, and it hangs exactly when some block is stuck with no
      serving block before it. */
  lemma AllocOutcome(s: Heap, size: nat)
    requires HeapInv(s) && size > 0
    ensures AllSearchable(s.blocks)
    ensures Allocate(s.blocks, 0, size).Granted? <==> exists j: nat :: ServesAt(s.blocks, 0, j, size)
    ensures Allocate(s.blocks, 0, size) == Hangs <==> exists j: nat :: StuckAt(s.blocks, 0, j, size)
  {
    InvSearchable(s);
    AllocOutcomeFrom(s, size, 0);
  }

  /** The grant comes from the first block of the list that serves the request. */
  lemma {:induction false} GrantedFromFirst(s: Heap, size: nat, i: nat)
    requires HeapInv(s) && AllSearchable(s.blocks) && size > 0 && i <= |s.blocks|
    ensures var o := Allocate(s.blocks, i, size);
            && (o.Granted? ==> Serves(s.blocks[o.i], size) && forall k :: i <= k < o.i ==> !Serves(s.blocks[k], size))
            && (o == OutOfMemory ==> forall k :: i <= k < |s.blocks| ==> !Serves(s.blocks[k], size))
    decreases |s.blocks| - i
  {
    if i < |s.blocks| {
      GrantedFromFirst(s, size, i + 1);
      assert InvAt(s, i);
      BlockOutcome(s.blocks[i], s.live[i], size);
    }
  }

  /** `ptr` is the address of cell `x` of block `i`: the nearest fit after the hint in the first block that
      serves the request. */
  ghost predicate GrantsAt(s: Heap, size: nat, ptr: nat, i: nat, x: nat)
    requires AllSearchable(s.blocks)
  {
    && i < |s.blocks| && Serves(s.blocks[i], size)
    && (forall k :: 0 <= k < i ==> !Serves(s.blocks[k], size))
    && FirstFit(View(s.blocks[i]), CellsFor(size, s.blocks[i].cell), x)
    && ptr == s.blocks[i].base + 20 + x * s.blocks[i].cell
  }

  /** What a call of kalloc that returns gives back, without the walk over the list. */
  ghost predicate Returns(s: Heap, size: nat, ptr: nat)
    requires AllSearchable(s.blocks)
  {
    if ptr == 0 then forall k :: 0 <= k < |s.blocks| ==> !Serves(s.blocks[k], size)
    else exists i: nat, x: nat :: GrantsAt(s, size, ptr, i, x)
  }

  lemma ReturnsExactly(s: Heap, size: nat)
    requires HeapInv(s) && size > 0
    ensures AllSearchable(s.blocks)
    ensures var o := Allocate(s.blocks, 0, size);
            && (o.Granted? ==> Returns(s, size, s.blocks[o.i].CellAddr(o.x)))
            && (o == OutOfMemory ==> Returns(s, size, 0))
  {
    InvSearchable(s);
    GrantedFromFirst(s, size, 0);
    GrantedFits(s.blocks, 0, size);
    var o := Allocate(s.blocks, 0, size);
    if o.Granted? {
      PointerFormula(s.blocks[o.i], o.x);
      assert GrantsAt(s, size, s.blocks[o.i].CellAddr(o.x), o.i, o.x);
    }
  }

  /** A fresh page-sized block: its bytes, its count and its hint. */
  lemma FreshPage(base: nat)
    ensures Geometry(4096, 16)
    ensures var b := NewBlock(base, 4096, 16);
            && b.base == base && b.n == 254 && b.used == 16 && b.lfb == 15 && |b.bm| == 256
            && forall i :: 0 <= i < 256 ==> b.bm[i] == if i < 16 then 5 else 0
  {
    MainHeapGeometry();
  }

  predicate HintOccupied(b: Block) {
    b.lfb < |b.bm| && b.bm[b.lfb] != 0
  }

  predicate HintsOccupied(h: seq<Block>) {
    forall i :: 0 <= i < |h| ==> HintOccupied(h[i])
  }

  /** With occupied hints kalloc returns, and it finds memory exactly when some block has it. */
  lemma AllocComplete(s: Heap, size: nat)
    requires HeapInv(s) && HintsOccupied(s.blocks) && size > 0
    ensures AllSearchable(s.blocks)
    ensures Allocate(s.blocks, 0, size) != Hangs
    ensures Allocate(s.blocks, 0, size).Granted? <==>
              exists i :: 0 <= i < |s.blocks| && HasRoom(View(s.blocks[i]), CellsFor(size, s.blocks[i].cell))
  {
    var h := s.blocks;
    AllocOutcome(s, size);
    forall i: nat | i < |h|
      ensures !Stuck(h[i], size) && (Serves(h[i], size) <==> HasRoom(View(h[i]), CellsFor(size, h[i].cell)))
      ensures Serves(h[i], size) <==> ServesAt(h, 0, i, size)
    {
      assert forall k :: 0 <= k <= i ==> HintOccupied(h[k]);
    }
  }

  lemma NewHint(base: nat, span: nat, cell: nat)
    requires Geometry(span, cell) && 0 < base && base + span <= TWO32
    ensures HintOccupied(NewBlock(base, span, cell))
  {
    NewBlockInv(base, span, cell);
  }

  lemma TakeHint(b: Block, need: nat, x: nat)
    requires 1 <= need && 1 <= x && x + need < |b.bm| && HintOccupied(b)
    requires b.bm[x - 1] != 0 || x == b.lfb + 1
    ensures HintOccupied(Take(b, x, need))
  {}

  /** A new block has an occupied hint, and kalloc leaves no free hint behind an occupied one. */
  lemma StepKeepsHints(s: Heap, op: Op, s': Heap)
    requires HeapInv(s) && Step(s, op, s') && !op.KFree? && HintsOccupied(s.blocks)
    ensures HintsOccupied(s'.blocks)
  {
    match op
    case AddBlock(base, span, cell) =>
      NewHint(base, span, cell);
    case KAlloc(size) =>
      InvSearchable(s);
      var o := Allocate(s.blocks, 0, size);
      GrantedFits(s.blocks, 0, size);
      TakeHint(s.blocks[o.i], CellsFor(size, s.blocks[o.i].cell), o.x);
  }

  /** In a run without kfree the hints stay occupied. */
  lemma {:induction false} AllocOnlyRuns(states: seq<Heap>, ops: seq<Op>, k: nat)
    requires IsRun(states, ops) && k < |states|
    requires forall j :: 0 <= j < k ==> !ops[j].KFree?
    ensures HeapInv(states[k]) && HintsOccupied(states[k].blocks)
  {
    RunInv(states, ops, k);
    if k > 0 {
      AllocOnlyRuns(states, ops, k - 1);
      assert StepAt(states, ops, k - 1);
      StepKeepsHints(states[k - 1], ops[k - 1], states[k]);
    }
  }

  /** In a run without kfree every kalloc returns, and it succeeds exactly when some block has room. */
  lemma AllocOnlyComplete(states: seq<Heap>, ops: seq<Op>, k: nat, size: nat)
    requires IsRun(states, ops) && k < |states| && size > 0
    requires forall j :: 0 <= j < k ==> !ops[j].KFree?
    ensures var h := states[k].blocks;
            && AllSearchable(h)
            && Allocate(h, 0, size) != Hangs
            && (Allocate(h, 0, size).Granted? <==>
                  exists i :: 0 <= i < |h| && HasRoom(View(h[i]), CellsFor(size, h[i].cell)))
  {
    AllocOnlyRuns(states, ops, k);
    AllocComplete(states[k], size);
  }
}
