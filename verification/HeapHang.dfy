/** Runs of the main heap after which kalloc never returns, or misses free memory (kernel/kernel/
    heap.c:85-118): kfree does not move the search hint, and the search skips over a free hint. */
module HeapHang {
  import opened HeapBlocks
  import opened HeapSearch
  import opened HeapRuns

  /** A block of the main heap whose first `taken` cells, and no others, are occupied. */
  ghost predicate Taken(b: Block, taken: nat, lfb: nat) {
    && b.n == 254 && |b.bm| == 256 && b.span == 4096 && b.cell == 16
    && b.used == taken <= 254 && b.lfb == lfb
    && forall i :: 0 <= i < 256 ==> (b.bm[i] != 0 <==> i < taken)
  }

  lemma PageBlock() returns (b: Block)
    ensures Geometry(4096, 16) && b == NewBlock(0x10_0000, 4096, 16)
    ensures BlockInv(b, map[]) && Taken(b, 16, 15)
  {
    MainHeapGeometry();
    NewBlockInv(0x10_0000, 4096, 16);
    b := NewBlock(0x10_0000, 4096, 16);
  }

  lemma Needs(size: nat, need: nat)
    requires 16 * need - 16 < size <= 16 * need
    ensures CellsFor(size, 16) == need
  {
    RoundUpIsCellsFor(size, 16);
  }

  /** kalloc's test in terms of the cells taken. */
  lemma SpaceLeft(b: Block, taken: nat, lfb: nat, size: nat)
    requires Taken(b, taken, lfb)
    ensures MayHold(b, size) <==> size + 16 * taken <= 4076
  {
    BytesIsProduct(taken, 16);
  }

  lemma NextFit(b: Block, taken: nat, lfb: nat, need: nat)
    requires Taken(b, taken, lfb) && 2 <= taken && 1 <= lfb < taken && taken + need <= 254 && 1 <= need
    ensures Searchable(View(b)) && Fits(View(b), need, taken) && Search(View(b), need) == Found(taken)
  {
    forall z | Fits(View(b), need, z)
      ensures z >= taken
    {
      assert b.bm[z] == 0;
    }
    assert FirstFit(View(b), need, taken);
    UniqueFirstFit(View(b), need, taken);
  }

  lemma TakenGrows(b: Block, taken: nat, lfb: nat, need: nat)
    requires Taken(b, taken, lfb) && 1 <= taken && taken + need <= 254 && 1 <= need
    ensures Taken(Take(b, taken, need), taken + need, taken + need - 2)
  {}

  lemma OneBlockInv(b: Block, live: map<nat, nat>)
    requires BlockInv(b, live)
    ensures HeapInv(Heap([b], [live])) && AllSearchable([b])
  {
    var s := Heap([b], [live]);
    assert InvAt(s, 0);
    InvSearchable(s);
  }

  lemma NextGrant(b: Block, taken: nat, lfb: nat, size: nat, need: nat)
    requires AllSearchable([b]) && Taken(b, taken, lfb) && 2 <= taken && 1 <= lfb < taken && taken + need <= 254
    requires 0 < size <= 4076 - 16 * taken && need == CellsFor(size, 16)
    ensures Allocate([b], 0, size) == Granted(0, taken) && Fits(View(b), need, taken)
  {
    SpaceLeft(b, taken, lfb, size);
    NextFit(b, taken, lfb, need);
  }

  /** The next allocation in a one-block heap whose free cells all lie past the hint. */
  lemma OneAlloc(b: Block, live: map<nat, nat>, taken: nat, lfb: nat, size: nat, need: nat)
    returns (b': Block, live': map<nat, nat>)
    requires BlockInv(b, live) && Taken(b, taken, lfb) && 2 <= taken && 1 <= lfb < taken && taken + need <= 254
    requires 0 < size <= 4076 - 16 * taken && need == CellsFor(size, 16)
    ensures HeapInv(Heap([b], [live])) && StepAlloc(Heap([b], [live]), size, Heap([b'], [live']))
    ensures BlockInv(b', live') && Taken(b', taken + need, taken + need - 2)
    ensures live'.Keys == live.Keys + {taken} && live'[taken] == need
  {
    b', live' := Take(b, taken, need), WithRun(live, taken, need);
    OneBlockInv(b, live);
    NextGrant(b, taken, lfb, size, need);
    TakeInv(b, live, taken, need);
    TakenGrows(b, taken, lfb, need);
    GrantStep(Heap([b], [live]), size, 0, taken, Heap([b'], [live']));
  }

  lemma FreeStep(b: Block, live: map<nat, nat>, c: nat) returns (b': Block)
    requires HeapInv(Heap([b], [live])) && c in live
    ensures StepFree(Heap([b], [live]), 0, c, Heap([b'], [live - {c}]))
    ensures c + live[c] <= |b.bm| && live[c] <= b.used
    ensures b' == b.(bm := Fill(b.bm, c, live[c], 0), used := b.used - live[c])
  {
    var s := Heap([b], [live]);
    FreeExact(s, 0, c);
    b' := b.(bm := Fill(b.bm, c, live[c], 0), used := b.used - live[c]);
    assert Heap(s.blocks[0 := b'], s.live[0 := s.live[0] - {c}]) == Heap([b'], [live - {c}]);
  }

  lemma TakenShrinks(b: Block, c: nat, len: nat, lfb: nat)
    requires Taken(b, c + len, lfb)
    ensures Taken(b.(bm := Fill(b.bm, c, len, 0), used := b.used - len), c, lfb)
  {}

  /** A main-heap block whose first 17 cells are taken and whose hint is the free cell 18. */
  lemma FreeHintHangs(b: Block)
    requires Taken(b, 17, 18)
    ensures AllSearchable([b]) && Allocate([b], 0, 3800) == Hangs
  {
    Needs(3800, 238);
    SpaceLeft(b, 17, 18, 3800);
    SearchSpec(View(b), 238);
    forall z
      ensures !Fits(View(b), 238, z)
    {
      if 1 <= z <= 16 {
        assert b.bm[z] != 0;
      }
    }
  }

  lemma FirstPage() returns (b: Block, s: Heap)
    ensures BlockInv(b, map[]) && Taken(b, 16, 15) && s.blocks == [b] && s.live == [map[]]
    ensures StepAdd(Heap([], []), 0x10_0000, 4096, 16, s)
  {
    b := PageBlock();
    s := Heap([b] + [], [map[]] + []);
  }

  lemma TwoAllocs(b0: Block) returns (b1: Block, live1: map<nat, nat>, b2: Block, live2: map<nat, nat>)
    requires BlockInv(b0, map[]) && Taken(b0, 16, 15)
    ensures HeapInv(Heap([b0], [map[]])) && StepAlloc(Heap([b0], [map[]]), 16, Heap([b1], [live1]))
    ensures HeapInv(Heap([b1], [live1])) && StepAlloc(Heap([b1], [live1]), 48, Heap([b2], [live2]))
    ensures BlockInv(b2, live2) && Taken(b2, 20, 18) && 17 in live2 && live2[17] == 3
  {
    Needs(16, 1);
    Needs(48, 3);
    b1, live1 := OneAlloc(b0, map[], 16, 15, 16, 1);
    b2, live2 := OneAlloc(b1, live1, 17, 15, 48, 3);
  }

  /** A run from the empty heap that allocates 16 and 48 bytes and frees the second allocation. When
      3800 bytes are requested next, kalloc neither returns a pointer nor runs out of memory. */
  lemma KallocHangs() returns (s1: Heap, s2: Heap, s3: Heap, s4: Heap)
    ensures StepAdd(Heap([], []), 0x10_0000, 4096, 16, s1)
    ensures HeapInv(s1) && StepAlloc(s1, 16, s2)
    ensures HeapInv(s2) && StepAlloc(s2, 48, s3)
    ensures HeapInv(s3) && StepFree(s3, 0, 17, s4)
    ensures AllSearchable(s4.blocks) && Allocate(s4.blocks, 0, 3800) == Hangs
  {
    var b0;
    b0, s1 := FirstPage();
    var b1, live1, b2, live2 := TwoAllocs(b0);
    OneBlockInv(b2, live2);
    var b3 := FreeStep(b2, live2, 17);
    TakenShrinks(b2, 17, 3, 18);
    s2, s3, s4 := Heap([b1], [live1]), Heap([b2], [live2]), Heap([b3], [live2 - {17}]);
    FreeHintHangs(b3);
  }

  /** A main-heap block whose first 16 cells are taken and whose hint is cell 16: the 238 free cells
      start at the hint, and the search does not find them. */
  lemma FreeHintMisses(b: Block)
    requires Taken(b, 16, 16)
    ensures AllSearchable([b]) && HasRoom(View(b), CellsFor(3808, 16)) && Allocate([b], 0, 3808) == OutOfMemory
  {
    Needs(3808, 238);
    assert Free(b.bm, 16, 238);
    forall x: nat | x + 238 <= 254 && Free(b.bm, x, 238)
      ensures x == 16
    {
      assert b.bm[x] == 0;
    }
    SearchMisses(View(b), 238);
  }

  lemma AllocAndFree(b0: Block) returns (b1: Block, live1: map<nat, nat>, b2: Block)
    requires BlockInv(b0, map[]) && Taken(b0, 16, 15)
    ensures HeapInv(Heap([b0], [map[]])) && StepAlloc(Heap([b0], [map[]]), 32, Heap([b1], [live1]))
    ensures HeapInv(Heap([b1], [live1])) && StepFree(Heap([b1], [live1]), 0, 16, Heap([b2], [map[]]))
    ensures Taken(b2, 16, 16)
  {
    Needs(32, 2);
    b1, live1 := OneAlloc(b0, map[], 16, 15, 32, 2);
    OneBlockInv(b1, live1);
    b2 := FreeStep(b1, live1, 16);
    TakenShrinks(b1, 16, 2, 16);
    assert live1 - {16} == map[];
  }

  /** A run from the empty heap that allocates 32 bytes and frees them. Nothing is live, and the block
      has room for 3808 bytes, but kalloc says that it is out of memory. */
  lemma KallocMissesRoom() returns (s1: Heap, s2: Heap, s3: Heap)
    ensures StepAdd(Heap([], []), 0x10_0000, 4096, 16, s1)
    ensures HeapInv(s1) && StepAlloc(s1, 32, s2)
    ensures HeapInv(s2) && StepFree(s2, 0, 16, s3)
    ensures |s3.blocks| == 1 && s3.live == [map[]] && s3.blocks[0].cell == 16
    ensures AllSearchable(s3.blocks) && HasRoom(View(s3.blocks[0]), CellsFor(3808, 16))
    ensures Allocate(s3.blocks, 0, 3808) == OutOfMemory
  {
    var b0;
    b0, s1 := FirstPage();
    var b1, live1, b2 := AllocAndFree(b0);
    s2, s3 := Heap([b1], [live1]), Heap([b2], [map[]]);
    FreeHintMisses(b2);
  }
}
