/** The kernel heap as the C code keeps it: a linked list of blocks, each with its bitmap bytes,
    changed in place (kernel/kernel/heap.c). */
module KernelHeaps {
  import opened Common
  import opened Division
  import opened HeapBlocks
  import opened HeapSearch
  import opened HeapRuns

  /** A block header at address `base`; `bm` is the memory right behind it. */
  class HeapBlock {
    const base: nat
    const bm: array<byte>
    var next: HeapBlock?
    var size: nat
    var used: nat
    var bsize: nat
    var lfb: nat

    constructor (base: nat, cells: nat)
      ensures this.base == base && fresh(bm) && bm.Length == cells
    {
      this.base := base;
      bm := new byte[cells];
    }

    ghost predicate Sized()
      reads this
    {
      0 < bsize && bm.Length == Quot(size + HEADER, bsize)
    }

    ghost function Abs(): (b: Block)
      reads this, bm
      requires Sized()
      ensures b.Counted()
    {
      Block(base, size + HEADER, bsize, Quot(size, bsize), CellsFor(bm.Length, bsize), bm[..], used, lfb)
    }

    /** Write the header, clear the bitmap, reserve its cells. */
    method Format(span: nat, cell: nat, first: HeapBlock?)
      requires Geometry(span, cell) && bm.Length == Quot(span, cell)
      modifies this, bm
      ensures Sized() && Abs() == NewBlock(base, span, cell)
      ensures next == first
    {
      size := span - HEADER;
      bsize := cell;
      next := first;
      var bcnt := span / cell;
      QuotRest(span, cell);
      for x := 0 to bcnt
        invariant forall i :: 0 <= i < x ==> bm[i] == 0
        invariant size == span - HEADER && bsize == cell && next == first
      {
        bm[x] := 0;
      }
      RoundUpIsCellsFor(bcnt, cell);
      bcnt := if bcnt / bsize * bsize < bcnt then bcnt / bsize + 1 else bcnt / bsize;
      NewBlockFits(span, cell);
      for x := 0 to bcnt
        invariant forall i :: 0 <= i < bm.Length ==> bm[i] == if i < x then RESERVED_ID else 0
        invariant size == span - HEADER && bsize == cell && next == first
      {
        bm[x] := RESERVED_ID;
      }
      lfb := bcnt - 1;
      used := bcnt;
      assert bm[..] == NewBlock(base, span, cell).bm;
    }

    /** The test with which kalloc skips a full block. */
    method CheckSpace(size: nat) returns (ok: bool)
      requires Sized()
      ensures ok <==> MayHold(Abs(), size)
    {
      BytesIsProduct(used, bsize);
      var bytes := used * bsize;
      ok := (this.size - bytes) % TWO32 >= size;
    }

    /** The usable cells of this block and the cells a request takes. */
    method CountCells(size: nat) returns (bcnt: nat, bneed: nat)
      requires Sized()
      ensures bcnt == Quot(this.size, bsize) && bneed == CellsFor(size, bsize)
    {
      bcnt := this.size / bsize;
      bneed := if size / bsize * bsize < size then size / bsize + 1 else size / bsize;
      QuotRest(this.size, bsize);
      RoundUpIsCellsFor(size, bsize);
    }

    method PointerTo(x: nat) returns (ptr: nat)
      requires Sized()
      ensures ptr == Abs().CellAddr(x)
    {
      BytesIsProduct(x, bsize);
      ptr := x * bsize + (base + HEADER);
    }

    method CellOf(ptr: nat) returns (bi: nat)
      requires Sized() && base + HEADER <= ptr
      ensures bi == CellIndex(Abs(), ptr)
    {
      var ptroff := ptr - (base + HEADER);
      QuotRest(ptroff, bsize);
      bi := ptroff / bsize;
    }

    /** Mark a found run and update hint and count. */
    method TakeCells(x: nat, need: nat)
      requires Sized() && 1 <= x && 1 <= need && x + need < bm.Length
      modifies `used, `lfb, bm
      ensures Sized() && Abs() == Take(old(Abs()), x, need)
    {
      ghost var was := bm[..];
      var nid := GetNid(bm[x - 1], bm[x + need]);
      for z := 0 to need
        invariant bm[..] == Fill(was, x, z, nid)
        invariant used == old(used)
      {
        bm[x + z] := nid;
      }
      lfb := (x + need) - 2;
      used := used + need;
    }

    /** Clear the run that starts at cell `bi`. */
    method ReleaseCells(bi: nat)
      requires Sized() && bi < Quot(size, bsize) < bm.Length
      requires RunEnd(bm[..], bi, bm[bi], Quot(size, bsize)) - bi <= used
      modifies `used, bm
      ensures Sized() && Abs() == Release(old(Abs()), bi)
    {
      ghost var was := bm[..];
      var id := bm[bi];
      var max := size / bsize;
      QuotRest(size, bsize);
      ghost var e := RunEnd(was, bi, id, max);
      var x := bi;
      while bm[x] == id && x < max
        invariant bi <= x <= e && used == old(used)
        invariant bm[..] == Fill(was, bi, x - bi, 0)
        decreases max - x
      {
        bm[x] := 0;
        x := x + 1;
      }
      used := used - (x - bi);
    }
  }

  lemma NewBlockFits(span: nat, cell: nat)
    requires Geometry(span, cell)
    ensures 2 <= CellsFor(Quot(span, cell), cell) < Quot(span, cell)
  {
    QuotBounds(span - HEADER, cell);
    HeaderCells(span, cell);
    CellsForShrinks(Quot(span, cell), cell);
  }

  ghost function Follower(blocks: seq<HeapBlock>, i: nat): HeapBlock? {
    if i + 1 < |blocks| then blocks[i + 1] else null
  }

  ghost predicate Separate(a: HeapBlock, b: HeapBlock) {
    a != b && a.bm != b.bm
  }

  lemma PushSeparate(b: HeapBlock, blocks: seq<HeapBlock>)
    requires forall i, j {:trigger Separate(blocks[i], blocks[j])} ::
               0 <= i < j < |blocks| ==> Separate(blocks[i], blocks[j])
    requires forall i :: 0 <= i < |blocks| ==> Separate(b, blocks[i])
    ensures var all := [b] + blocks;
            forall i, j {:trigger Separate(all[i], all[j])} :: 0 <= i < j < |all| ==> Separate(all[i], all[j])
  {
    var all := [b] + blocks;
    forall i, j | 0 <= i < j < |all|
      ensures Separate(all[i], all[j])
    {
      assert all[j] == blocks[j - 1];
      assert i > 0 ==> Separate(blocks[i - 1], blocks[j - 1]);
    }
  }

  /** The pointer of the allocation that a step makes. */
  lemma GrantedPointer(s: Heap, size: nat, s': Heap)
    requires HeapInv(s) && StepAlloc(s, size, s')
    ensures AllSearchable(s.blocks) && size > 0
    ensures var o := Allocate(s.blocks, 0, size);
            o.Granted? && Live(s', o.i, o.x) && Ptr(s', o.i, o.x) == s.blocks[o.i].CellAddr(o.x) > 0
  {
    AllocGrants(s, size, s');
    AllocDetails(s, size, s');
  }

  /** The same allocations and the same bitmaps. */
  ghost predicate SameBitmaps(s: Heap, s': Heap) {
    && s'.live == s.live && |s'.blocks| == |s.blocks|
    && forall i :: 0 <= i < |s.blocks| ==> s'.blocks[i].bm == s.blocks[i].bm
  }

  lemma BackToSame(s: Heap, size: nat, s1: Heap, o: Outcome, s2: Heap)
    requires HeapInv(s) && StepAlloc(s, size, s1) && HeapInv(s1)
    requires AllSearchable(s.blocks) && size > 0 && o.Granted? && Allocate(s.blocks, 0, size) == o
    requires StepFree(s1, o.i, o.x, s2)
    ensures SameBitmaps(s, s2)
  {
    AllocThenFree(s, size, s1, o, s2);
  }

  /** The list of blocks, newest first. The ghost fields record the blocks in list order, what is
      stored in them, and the live allocations. */
  class KernelHeap {
    var fblock: HeapBlock?
    ghost var blocks: seq<HeapBlock>
    ghost var model: seq<Block>
    ghost var live: seq<map<nat, nat>>
    ghost var memory: set<object>

    ghost predicate Linked()
      reads `fblock, `blocks, `model, `memory, memory
    {
      && (forall i :: 0 <= i < |blocks| ==> blocks[i] in memory && blocks[i].bm in memory)
      && fblock == (if blocks == [] then null else blocks[0])
      && |model| == |blocks|
      && (forall i :: 0 <= i < |blocks| ==>
            blocks[i].next == Follower(blocks, i) && blocks[i].Sized() && model[i] == blocks[i].Abs())
      && (forall i, j {:trigger Separate(blocks[i], blocks[j])} ::
            0 <= i < j < |blocks| ==> Separate(blocks[i], blocks[j]))
    }

    ghost function State(): Heap
      reads `model, `live
    {
      Heap(model, live)
    }

    ghost predicate Valid()
      reads `fblock, `blocks, `model, `live, `memory, memory
    {
      Linked() && HeapInv(State())
    }

    /** kheap_init. */
    constructor ()
      ensures Valid() && State() == Heap([], []) && memory == {}
    {
      fblock := null;
      blocks, model, live, memory := [], [], [], {};
    }

    lemma OthersSeparate(i: nat)
      requires Linked() && i < |blocks|
      ensures forall j :: 0 <= j < |blocks| && j != i ==> blocks[j] != blocks[i] && blocks[j].bm != blocks[i].bm
    {
      forall j | 0 <= j < |blocks| && j != i
        ensures blocks[j] != blocks[i] && blocks[j].bm != blocks[i].bm
      {
        assert Separate(blocks[if i < j then i else j], blocks[if i < j then j else i]);
      }
    }

    /** Changing the counters and cells of one block changes one entry of the model. */
    twostate lemma OneBlockChanged(i: nat)
      requires old(Linked()) && blocks == old(blocks) && memory == old(memory) && fblock == old(fblock) && i < |blocks|
      requires forall j :: 0 <= j < |blocks| && j != i ==> unchanged(blocks[j]) && unchanged(blocks[j].bm)
      requires blocks[i].next == old(blocks[i].next) && blocks[i].Sized()
      requires model == old(model)[i := blocks[i].Abs()]
      ensures Linked()
    {
      forall j | 0 <= j < |blocks|
        ensures blocks[j].next == Follower(blocks, j) && blocks[j].Sized() && model[j] == blocks[j].Abs()
      {
        assert old(blocks[j].next) == Follower(blocks, j);
      }
    }

    /** A block put in front of the list. */
    twostate lemma BlockPushed(b: HeapBlock)
      requires old(Linked()) && blocks == [b] + old(blocks) && fblock == b
      requires b !in old(memory) && b.bm !in old(memory) && memory == old(memory) + {b, b.bm}
      requires b.next == old(fblock) && b.Sized() && model == [b.Abs()] + old(model)
      requires forall j :: 0 <= j < |old(blocks)| ==> unchanged(old(blocks)[j]) && unchanged(old(blocks)[j].bm)
      ensures Linked()
    {
      forall j | 1 <= j < |blocks|
        ensures blocks[j].next == Follower(blocks, j) && blocks[j].Sized() && model[j] == blocks[j].Abs()
      {
        assert blocks[j] == old(blocks)[j - 1];
        assert Follower(blocks, j) == Follower(old(blocks), j - 1);
      }
      PushSeparate(b, old(blocks));
    }

    /** kheap_add_block: `b` stands for the memory at its address. */
    method AddBlock(b: HeapBlock, span: nat, cell: nat)
      requires Valid() && b !in memory && b.bm !in memory
      requires Geometry(span, cell) && b.bm.Length == Quot(span, cell)
      requires 0 < b.base && b.base + span <= TWO32
      requires forall i :: 0 <= i < |model| ==> Apart(NewBlock(b.base, span, cell), model[i])
      modifies `fblock, `blocks, `model, `live, `memory, b, b.bm
      ensures Valid() && StepAdd(old(State()), b.base, span, cell, State())
      ensures memory == old(memory) + {b, b.bm}
    {
      ghost var added := NewBlock(b.base, span, cell);
      b.Format(span, cell, fblock);
      fblock := b;
      blocks, model, live := [b] + blocks, [added] + model, [map[]] + live;
      memory := memory + {b, b.bm};
      BlockPushed(b);
      AddStep(old(State()), b.base, span, cell, State());
    }

    /** The test and the search that kalloc makes on one block. */
    method TryBlock(b: HeapBlock, size: nat, ghost a: Block) returns (found: bool, x: nat, need: nat)
      requires b.Sized() && a == b.Abs() && Searchable(View(a)) && 0 < size
      requires MayHold(a, size) ==> Search(View(a), CellsFor(size, a.cell)) != Diverges
      ensures found <==> MayHold(a, size) && Search(View(a), CellsFor(size, a.cell)).Found?
      ensures found ==> Search(View(a), CellsFor(size, a.cell)) == Found(x) && need == CellsFor(size, a.cell)
    {
      found, x, need := false, 0, 0;
      var ok := b.CheckSpace(size);
      if ok {
        var bcnt;
        bcnt, need := b.CountCells(size);
        found, x := SearchCells(b.bm, b.lfb, need, bcnt, View(a));
      }
    }

    /** The block loop of kalloc: skip blocks without room, search the others. */
    method FindRoom(size: nat) returns (b: HeapBlock?, ghost i: nat, x: nat, need: nat)
      requires Linked() && size > 0
      requires AllSearchable(model) && Allocate(model, 0, size) != Hangs
      ensures b == null ==> Allocate(model, 0, size) == OutOfMemory
      ensures b != null ==> i < |blocks| && b == blocks[i] && need == CellsFor(size, model[i].cell)
      ensures b != null ==> Allocate(model, 0, size) == Granted(i, x)
    {
      i, x, need := 0, 0, 0;
      b := fblock;
      while b != null
        invariant i <= |blocks| && b == if i < |blocks| then blocks[i] else null
        invariant Allocate(model, i, size) == Allocate(model, 0, size)
        decreases |blocks| - i
      {
        var found;
        found, x, need := TryBlock(b, size, model[i]);
        if found {
          return;
        }
        assert b.next == Follower(blocks, i);
        b := b.next;
        i := i + 1;
      }
    }

    /** Take the found cells and record them. */
    method Grant(b: HeapBlock, ghost i: nat, x: nat, need: nat)
      requires Linked() && i < |blocks| == |live| && b == blocks[i]
      requires 1 <= x && 1 <= need && x + need < b.bm.Length
      modifies `model, `live, b`used, b`lfb, b.bm
      ensures Linked() && blocks == old(blocks) && fblock == old(fblock)
      ensures State() == Heap(old(model)[i := Take(old(model)[i], x, need)],
                              old(live)[i := WithRun(old(live)[i], x, need)])
    {
      OthersSeparate(i);
      b.TakeCells(x, need);
      model := model[i := b.Abs()];
      live := live[i := WithRun(live[i], x, need)];
      OneBlockChanged(i);
    }

    /** Grant what FindRoom found. */
    method Serve(b: HeapBlock, size: nat, ghost i: nat, x: nat, need: nat) returns (ptr: nat)
      requires Valid() && size > 0 && AllSearchable(model) && i < |blocks| && b == blocks[i]
      requires Allocate(model, 0, size) == Granted(i, x) && need == CellsFor(size, model[i].cell)
      modifies `model, `live, b`used, b`lfb, b.bm
      ensures Valid() && blocks == old(blocks) && fblock == old(fblock)
      ensures StepAlloc(old(State()), size, State())
      ensures Live(State(), i, x) && ptr == Ptr(State(), i, x) > 0 && Returns(old(State()), size, ptr)
    {
      ReturnsExactly(State(), size);
      GrantBounds(model, size, i, x);
      ptr := b.PointerTo(x);
      Grant(b, i, x, need);
      GrantStep(old(State()), size, i, x, State());
      GrantedPointer(old(State()), size, State());
    }

    /** kalloc, for the calls that return; `heapUsed` is the global statistic it updates. A null
        result stands for the panic. */
    method KAlloc(size: nat, heapUsed: nat) returns (ptr: nat, heapUsed': nat)
      requires Valid() && 0 < size < TWO32
      requires AllSearchable(model) && Allocate(model, 0, size) != Hangs
      modifies `model, `live, memory
      ensures Valid() && blocks == old(blocks) && fblock == old(fblock)
      ensures heapUsed' == (heapUsed + size) % TWO32
      ensures var o := Allocate(old(model), 0, size);
              if o.Granted?
              then && StepAlloc(old(State()), size, State())
                   && Live(State(), o.i, o.x) && ptr == Ptr(State(), o.i, o.x) > 0
              else ptr == 0 && State() == old(State())
      ensures Returns(old(State()), size, ptr)
    {
      heapUsed' := (heapUsed + size) % TWO32;
      var b, i, x, need := FindRoom(size);
      ptr := 0;
      if b != null {
        ptr := Serve(b, size, i, x, need);
      } else {
        ReturnsExactly(State(), size);
      }
    }

    /** The block loop of kfree. */
    method FindOwner(ptr: nat) returns (b: HeapBlock?, ghost i: nat)
      requires Linked()
      ensures i == OwnerOf(model, 0, ptr) <= |blocks|
      ensures b == if i < |blocks| then blocks[i] else null
    {
      i := 0;
      b := fblock;
      while b != null && !(ptr > b.base && ptr < b.base + b.size)
        invariant i <= |blocks| && b == if i < |blocks| then blocks[i] else null
        invariant OwnerOf(model, i, ptr) == OwnerOf(model, 0, ptr)
        decreases |blocks| - i
      {
        b := b.next;
        i := i + 1;
      }
    }

    /** Clear a run and forget it. */
    method Retire(b: HeapBlock, ghost i: nat, bi: nat)
      requires Linked() && i < |blocks| == |live| && b == blocks[i]
      requires bi < model[i].n < b.bm.Length
      requires RunEnd(model[i].bm, bi, model[i].bm[bi], model[i].n) - bi <= b.used
      modifies `model, `live, b`used, b.bm
      ensures Linked() && blocks == old(blocks) && fblock == old(fblock)
      ensures State() == Heap(old(model)[i := Release(old(model)[i], bi)], old(live)[i := old(live)[i] - {bi}])
    {
      OthersSeparate(i);
      b.ReleaseCells(bi);
      model := model[i := b.Abs()];
      live := live[i := live[i] - {bi}];
      OneBlockChanged(i);
    }

    /** kfree of a live pointer, the first cell `c` of an allocation in block `i`. */
    method KFree(ptr: nat, ghost i: nat, ghost c: nat)
      requires Valid() && Live(State(), i, c) && ptr == Ptr(State(), i, c)
      modifies `model, `live, memory
      ensures Valid() && StepFree(old(State()), i, c, State())
      ensures blocks == old(blocks) && fblock == old(fblock)
    {
      OwnerFound(State(), i, c);
      assert InvAt(State(), i);
      LiveRunEnd(model[i], live[i], c);
      var b, _ := FindOwner(ptr);
      var bi := b.CellOf(ptr);
      Retire(b, i, bi);
      StepKeepsInv(old(State()), Op.KFree(i, c), State());
    }

    /** kalloc, where it grants the request, and then kfree. */
    method AllocFree(size: nat) returns (ptr: nat)
      requires Valid() && this !in memory && 0 < size < TWO32
      requires AllSearchable(model) && Allocate(model, 0, size).Granted?
      modifies `model, `live, memory
      ensures Valid() && ptr != 0 && SameBitmaps(old(State()), State())
      ensures Returns(old(State()), size, ptr)
    {
      ghost var s, o := State(), Allocate(model, 0, size);
      var used;
      ptr, used := KAlloc(size, 0);
      ghost var s1 := State();
      KFree(ptr, o.i, o.x);
      BackToSame(s, size, s1, o, State());
    }
  }

  lemma LiveRunEnd(b: Block, live: map<nat, nat>, c: nat)
    requires BlockInv(b, live) && c in live
    ensures c < b.n < |b.bm| && RunEnd(b.bm, c, b.bm[c], b.n) - c <= b.used
  {
    assert RunAt(b.bm, b.r, b.n, c, live[c]);
    ReleaseExact(b, live, c);
    RunEndIsRun(b.bm, b.r, b.n, c, live[c]);
  }

  /** Page-sized memory, as kheap_add_block is given it. */
  ghost predicate IsPage(b: HeapBlock) {
    b.bm.Length == 256 && 0 < b.base && b.base + 4096 <= TWO32
  }

  ghost predicate PagesApart(a: HeapBlock, b: HeapBlock) {
    Separate(a, b) && (a.base + 4096 <= b.base || b.base + 4096 <= a.base)
  }

  ghost predicate AllPages(pages: seq<HeapBlock>) {
    && (forall i :: 0 <= i < |pages| ==> IsPage(pages[i]))
    && forall i, j {:trigger PagesApart(pages[i], pages[j])} ::
         0 <= i < j < |pages| ==> PagesApart(pages[i], pages[j])
  }

  ghost function Objects(pages: seq<HeapBlock>): set<object> {
    (set i | 0 <= i < |pages| :: pages[i]) + (set i | 0 <= i < |pages| :: pages[i].bm)
  }

  /** Fresh blocks on these pages with nothing allocated; the last page comes first in the list. */
  ghost function PageHeap(pages: seq<HeapBlock>): Heap
    requires Geometry(4096, 16)
  {
    if pages == [] then Heap([], [])
    else
      var last := |pages| - 1;
      var h := PageHeap(pages[..last]);
      Heap([NewBlock(pages[last].base, 4096, 16)] + h.blocks, [map[]] + h.live)
  }

  ghost predicate ApartFrom(b: Block, blocks: seq<Block>) {
    forall i {:trigger blocks[i]} :: 0 <= i < |blocks| ==> Apart(b, blocks[i])
  }

  lemma {:induction false} PageHeapApart(pages: seq<HeapBlock>, b: HeapBlock)
    requires Geometry(4096, 16) && forall i :: 0 <= i < |pages| ==> PagesApart(pages[i], b)
    ensures ApartFrom(NewBlock(b.base, 4096, 16), PageHeap(pages).blocks)
  {
    if pages != [] {
      var last := |pages| - 1;
      PageHeapApart(pages[..last], b);
      assert PagesApart(pages[last], b);
      NewBlocksApart(pages[last], b);
      var h, rest := PageHeap(pages), PageHeap(pages[..last]);
      assert h.blocks == [NewBlock(pages[last].base, 4096, 16)] + rest.blocks;
    }
  }

  lemma NewBlocksApart(a: HeapBlock, b: HeapBlock)
    requires Geometry(4096, 16) && PagesApart(a, b)
    ensures Apart(NewBlock(b.base, 4096, 16), NewBlock(a.base, 4096, 16))
  {}

  lemma {:induction false} PageHeapHints(pages: seq<HeapBlock>)
    requires Geometry(4096, 16) && AllPages(pages)
    ensures HintsOccupied(PageHeap(pages).blocks)
  {
    if pages != [] {
      var last := |pages| - 1;
      PageHeapHints(pages[..last]);
      assert IsPage(pages[last]);
      NewHint(pages[last].base, 4096, 16);
    }
  }

  lemma OneMore(pages: seq<HeapBlock>, n: nat)
    requires n < |pages|
    ensures Objects(pages[..n + 1]) == Objects(pages[..n]) + {pages[n], pages[n].bm}
    ensures pages[..n + 1][..n] == pages[..n]
  {}

  lemma NotYet(pages: seq<HeapBlock>, n: nat)
    requires AllPages(pages) && n < |pages|
    ensures pages[n] !in Objects(pages[..n]) && pages[n].bm !in Objects(pages[..n])
    ensures forall i :: 0 <= i < n ==> PagesApart(pages[..n][i], pages[n])
  {
    assert forall i :: 0 <= i < n ==> PagesApart(pages[i], pages[n]);
  }

  /** main_heap_init, given the pages that the page allocator hands out. */
  method MainHeapInit(pages: seq<HeapBlock>) returns (h: KernelHeap)
    requires AllPages(pages)
    modifies Objects(pages)
    ensures fresh(h) && h.Valid() && h.memory == Objects(pages) && h !in h.memory
    ensures Geometry(4096, 16) && h.State() == PageHeap(pages)
  {
    MainHeapGeometry();
    h := new KernelHeap();
    for n := 0 to |pages|
      invariant fresh(h) && h.Valid() && h.memory == Objects(pages[..n])
      invariant h.State() == PageHeap(pages[..n])
    {
      assert IsPage(pages[n]);
      NotYet(pages, n);
      PageHeapApart(pages[..n], pages[n]);
      OneMore(pages, n);
      h.AddBlock(pages[n], 4096, 16);
    }
    assert pages[..|pages|] == pages;
  }

  /** A page without allocations has room for 3808 bytes. */
  lemma EmptyPageHasRoom(base: nat, size: nat)
    requires 0 < base && base + 4096 <= TWO32 && 0 < size <= 3808
    ensures Geometry(4096, 16) && HasRoom(View(NewBlock(base, 4096, 16)), CellsFor(size, 16))
    ensures 0 < CellsFor(size, 16) <= 238
  {
    MainHeapGeometry();
    var need := CellsFor(size, 16);
    CellsForBounds(size, 16);
    BytesIsProduct(need, 16);
    assert Free(NewBlock(base, 4096, 16).bm, 16, need);
  }

  lemma FirstGrant(pages: seq<HeapBlock>, h: Heap, size: nat)
    requires AllPages(pages) && pages != [] && 0 < size <= 3808
    requires Geometry(4096, 16) && h == PageHeap(pages) && HeapInv(h)
    ensures AllSearchable(h.blocks) && Allocate(h.blocks, 0, size).Granted?
  {
    PageHeapHints(pages);
    AllocComplete(h, size);
    assert IsPage(pages[|pages| - 1]);
    EmptyPageHasRoom(pages[|pages| - 1].base, size);
    assert h.blocks[0] == NewBlock(pages[|pages| - 1].base, 4096, 16);
  }

  /** The first pointer of a heap of fresh pages is past header and bitmap of the last page. */
  lemma FirstPointer(pages: seq<HeapBlock>, h: Heap, size: nat, ptr: nat)
    requires AllPages(pages) && pages != [] && 0 < size <= 3808 && AllSearchable(h.blocks)
    requires Geometry(4096, 16) && h == PageHeap(pages) && Returns(h, size, ptr)
    ensures ptr == pages[|pages| - 1].base + 276
  {
    var base := pages[|pages| - 1].base;
    assert IsPage(pages[|pages| - 1]);
    EmptyPageHasRoom(base, size);
    FreshPage(base);
    var b := h.blocks[0];
    assert b == NewBlock(base, 4096, 16);
    assert Serves(b, size);
    var i: nat, x: nat :| GrantsAt(h, size, ptr, i, x);
    FirstOfFresh(View(b), CellsFor(size, 16), x);
  }

  lemma FirstOfFresh(b: Bitmap, need: nat, x: nat)
    requires Searchable(b) && b.n == 254 && b.lfb == 15 && 0 < need <= 238 && FirstFit(b, need, x)
    requires |b.bm| == 256 && forall i :: 0 <= i < 256 ==> (b.bm[i] != 0 <==> i < 16)
    ensures x == 16
  {
    assert Fits(b, need, 16);
  }

  /** After main_heap_init on at least one page, kalloc grants every size up to the 238 free cells of a
      page, and kfree takes the memory back. */
  method InitAllocFree(pages: seq<HeapBlock>, size: nat) returns (h: KernelHeap, ptr: nat)
    requires AllPages(pages) && pages != [] && 0 < size <= 3808
    modifies Objects(pages)
    ensures fresh(h) && h.Valid() && ptr == pages[|pages| - 1].base + 276
    ensures Geometry(4096, 16) && SameBitmaps(PageHeap(pages), h.State())
  {
    h := MainHeapInit(pages);
    FirstGrant(pages, h.State(), size);
    ptr := h.AllocFree(size);
    FirstPointer(pages, PageHeap(pages), size, ptr);
  }
}
