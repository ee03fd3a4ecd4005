/** Geometry, bitmap and ids of the blocks of the kernel heap (kernel/kernel/heap.c).

    A block of `span` bytes starts at address `base` with a 20-byte header. Its bitmap has one
    byte per `cell`-byte cell and lies in the first cells of the block's own data area. An
    allocation is a run of cells holding one nonzero id. */
module HeapBlocks {
  import opened Common
  import opened Division

  const HEADER: nat := 20
  const RESERVED_ID: byte := 5

  // ---------------------------------------------------------------- cells and bytes

  /** The size of `k` cells; `BytesIsProduct` relates it to the multiplication of the source. */
  function Bytes(k: nat, cell: nat): nat {
    if k == 0 then 0 else Bytes(k - 1, cell) + cell
  }

  /** The number of cells that hold `bytes` bytes; `RoundUpIsCellsFor` relates it to the rounding
      expression of the source. */
  function CellsFor(bytes: nat, cell: nat): (k: nat)
    requires 0 < cell
    ensures bytes > 0 ==> k > 0
  {
    if bytes == 0 then 0
    else if bytes <= cell then 1
    else 1 + CellsFor(bytes - cell, cell)
  }

  /** The pairs (span, cell) for which the block arithmetic of the source is sound. */
  predicate Geometry(span: nat, cell: nat) {
    && 0 < cell
    && HEADER <= span
    && Quot(span - HEADER, cell) < Quot(span, cell)
    && 2 <= CellsFor(Quot(span, cell), cell)
    && HEADER < cell + (span - HEADER - Bytes(Quot(span - HEADER, cell), cell))
  }

  /** A block with `n` usable cells, the first `r` of which hold the bitmap. */
  datatype Block = Block(base: nat, span: nat, cell: nat, n: nat, r: nat, bm: seq<byte>, used: nat, lfb: nat) {

    function CellAddr(x: nat): nat {
      base + HEADER + Bytes(x, cell)
    }

    /** The bitmap fits into the reserved cells, all cells fit into the block, and kfree's address
        test accepts the start of the last cell. */
    predicate Laid() {
      && 0 < base && base + span <= TWO32 && 0 < cell && HEADER <= span
      && 2 <= r < n < |bm| <= Bytes(r, cell)
      && CellAddr(n) <= base + span
      && CellAddr(n - 1) < base + (span - HEADER)
    }

    /** The counts are those the source computes from the sizes. */
    predicate Counted() {
      && 0 < cell && HEADER <= span
      && n == Quot(span - HEADER, cell)
      && r == CellsFor(Quot(span, cell), cell)
      && |bm| == Quot(span, cell)
    }
  }

  lemma {:induction false} BytesMonotone(a: nat, b: nat, cell: nat)
    requires a <= b
    ensures Bytes(a, cell) <= Bytes(b, cell)
    ensures a < b ==> Bytes(a, cell) + cell <= Bytes(b, cell)
    decreases b
  {
    if a < b {
      BytesMonotone(a, b - 1, cell);
    }
  }

  lemma {:induction false} BytesAdd(a: nat, b: nat, cell: nat)
    ensures Bytes(a + b, cell) == Bytes(a, cell) + Bytes(b, cell)
  {
    if b > 0 {
      BytesAdd(a, b - 1, cell);
    }
  }

  lemma {:induction false} BytesIsProduct(k: nat, cell: nat)
    ensures Bytes(k, cell) == k * cell
  {
    if k > 0 {
      BytesIsProduct(k - 1, cell);
    }
  }

  lemma {:induction false} QuotBounds(bytes: nat, cell: nat)
    requires 0 < cell
    ensures Bytes(Quot(bytes, cell), cell) <= bytes < Bytes(Quot(bytes, cell), cell) + cell
  {
    if bytes >= cell {
      QuotBounds(bytes - cell, cell);
    }
  }

  /** Counting cells in `k` cells gives `k`. */
  lemma {:induction false} QuotOfBytes(k: nat, cell: nat)
    requires 0 < cell
    ensures Quot(Bytes(k, cell), cell) == k
  {
    if k > 0 {
      QuotOfBytes(k - 1, cell);
    }
  }

  lemma {:induction false} CellsForBounds(bytes: nat, cell: nat)
    requires 0 < cell
    ensures bytes <= Bytes(CellsFor(bytes, cell), cell) < bytes + cell
  {
    if bytes > cell {
      CellsForBounds(bytes - cell, cell);
    }
  }

  /** The rounding expression of the source. */
  function RoundUp(bytes: nat, cell: nat): nat
    requires 0 < cell
  {
    if bytes / cell * cell < bytes then bytes / cell + 1 else bytes / cell
  }

  lemma RoundUpIsCellsFor(bytes: nat, cell: nat)
    requires 0 < cell
    ensures RoundUp(bytes, cell) == CellsFor(bytes, cell)
  {
    var k := CellsFor(bytes, cell);
    CellsForBounds(bytes, cell);
    BytesIsProduct(k, cell);
    assert (k - 1) * cell == k * cell - cell;
    if k * cell == bytes {
      DivUnique(bytes, cell, k, 0);
    } else {
      DivUnique(bytes, cell, k - 1, bytes - (k - 1) * cell);
    }
  }

  // ---------------------------------------------------------------- geometry

  /** A page-sized block with 16-byte cells, as main_heap_init adds them, has a legal geometry. */
  lemma MainHeapGeometry()
    ensures Geometry(4096, 16)
    ensures Quot(4096 - HEADER, 16) == 254 && Quot(4096, 16) == 256 && CellsFor(256, 16) == 16
  {
    RoundUpIsCellsFor(256, 16);
    QuotRest(4096, 16);
    QuotRest(4076, 16);
    BytesIsProduct(254, 16);
  }

  /** The pointer of a cell, with the multiplication of the source. */
  lemma PointerFormula(b: Block, x: nat)
    ensures b.CellAddr(x) == b.base + 20 + x * b.cell
  {
    BytesIsProduct(x, b.cell);
  }

  lemma {:induction false} CellsForShrinks(k: nat, cell: nat)
    requires 11 <= cell
    ensures 11 * CellsFor(k, cell) <= k + 10
  {
    if k > cell {
      CellsForShrinks(k - cell, cell);
    }
  }

  /** The header costs at most two cells. */
  lemma HeaderCells(span: nat, cell: nat)
    requires HEADER <= span && 11 <= cell
    ensures Quot(span, cell) <= Quot(span - HEADER, cell) + 2
  {
    var n, k := Quot(span - HEADER, cell), Quot(span, cell);
    QuotBounds(span - HEADER, cell);
    QuotBounds(span, cell);
    BytesAdd(n, 3, cell);
    BytesIsProduct(3, cell);
    if n + 3 <= k {
      BytesMonotone(n + 3, k, cell);
    }
  }

  /** A legal geometry gives a sound layout. */
  lemma GeometryLaid(b: Block)
    requires b.Counted() && Geometry(b.span, b.cell) && 0 < b.base && b.base + b.span <= TWO32
    ensures b.Laid()
  {
    var k := |b.bm|;
    QuotBounds(b.span - HEADER, b.cell);
    HeaderCells(b.span, b.cell);
    CellsForBounds(k, b.cell);
    CellsForShrinks(k, b.cell);
  }

  /** Cell `x` lies inside the block, and kfree's address test accepts the start of every cell. */
  lemma CellInside(b: Block, x: nat)
    requires b.Laid() && x < b.n
    ensures b.CellAddr(x) + b.cell <= b.base + b.span
    ensures b.base < b.CellAddr(x) < b.base + (b.span - HEADER)
  {
    BytesMonotone(x, b.n - 1, b.cell);
    BytesMonotone(x, b.n, b.cell);
  }

  // ---------------------------------------------------------------- bitmaps

  function Fill(bm: seq<byte>, x: nat, k: nat, id: byte): (r: seq<byte>)
    requires x + k <= |bm|
    ensures |r| == |bm|
    ensures forall i :: 0 <= i < |bm| ==> r[i] == if x <= i < x + k then id else bm[i]
  {
    seq(|bm|, i requires 0 <= i < |bm| => if x <= i < x + k then id else bm[i])
  }

  function Occupied(bm: seq<byte>): nat {
    if bm == [] then 0
    else Occupied(bm[..|bm| - 1]) + if bm[|bm| - 1] != 0 then 1 else 0
  }

  ghost predicate Free(bm: seq<byte>, x: nat, k: nat) {
    x + k <= |bm| && forall i :: x <= i < x + k ==> bm[i] == 0
  }

  /** Filling `k` empty cells adds `k` to the count of nonzero cells. */
  lemma {:induction false} OccupiedGrows(lo: seq<byte>, hi: seq<byte>, x: nat, k: nat)
    requires |lo| == |hi| && Free(lo, x, k)
    requires forall i :: 0 <= i < |lo| ==> if x <= i < x + k then hi[i] != 0 else hi[i] == lo[i]
    ensures Occupied(hi) == Occupied(lo) + k
  {
    if lo == [] {
    } else {
      var m := |lo| - 1;
      if x + k <= m {
        OccupiedGrows(lo[..m], hi[..m], x, k);
      } else if k == 0 {
        OccupiedGrows(lo[..m], hi[..m], 0, 0);
      } else {
        OccupiedGrows(lo[..m], hi[..m], x, k - 1);
      }
    }
  }

  /** The nonzero cells, when the first `r` cells and nothing else is nonzero. */
  lemma {:induction false} OccupiedPrefix(bm: seq<byte>, r: nat)
    requires r <= |bm|
    requires forall i :: 0 <= i < |bm| ==> (bm[i] != 0 <==> i < r)
    ensures Occupied(bm) == r
  {
    if bm == [] {
    } else {
      var m := |bm| - 1;
      OccupiedPrefix(bm[..m], if r <= m then r else m);
    }
  }

  /** Empty cells and occupied cells together make up the bitmap. */
  lemma {:induction false} OccupiedBound(bm: seq<byte>, x: nat, k: nat, n: nat)
    requires Free(bm, x, k) && x + k <= n <= |bm|
    requires forall i :: n <= i < |bm| ==> bm[i] == 0
    ensures Occupied(bm) + k <= n
  {
    if |bm| == 0 {
    } else {
      var m := |bm| - 1;
      if n <= m {
        OccupiedBound(bm[..m], x, k, n);
      } else if x + k <= m {
        OccupiedBound(bm[..m], x, k, m);
      } else if k == 0 {
        OccupiedBound(bm[..m], 0, 0, m);
      } else {
        OccupiedBound(bm[..m], x, k - 1, m);
      }
    }
  }

  // ---------------------------------------------------------------- ids

  predicate TakenId(a: byte, b: byte, c: byte) {
    c == 0 || c == a || c == b
  }

  /** `++c` in eight bits. */
  function Increment(c: byte): byte {
    if c == 255 then 0 else c + 1
  }

  /** How many increments lead from `a` to `c`. */
  function Ahead(a: byte, c: byte): nat {
    if c >= a then c - a else c + 256 - a
  }

  lemma AheadIsDifference(a: byte, c: byte)
    ensures Ahead(a, c) == (c - a) % 256
  {}

  /** The first id after `a` that is neither 0 nor `b`. */
  function NextId(a: byte, b: byte): (c: byte)
    ensures !TakenId(a, b, c)
    ensures forall d: byte :: !TakenId(a, b, d) ==> Ahead(a, c) <= Ahead(a, d)
  {
    var c1 := Increment(a);
    var c2 := Increment(c1);
    if !TakenId(a, b, c1) then c1
    else if !TakenId(a, b, c2) then c2
    else Increment(c2)
  }

  /** kheap_get_nid: counting up from `a` in 8 bits, skip 0 and `b`. */
  method GetNid(a: byte, b: byte) returns (c: byte)
    ensures c == NextId(a, b) && c != 0 && c != a && c != b
    ensures forall d: byte :: d != 0 && d != a && d != b ==> Ahead(a, c) <= Ahead(a, d)
  {
    c := Increment(a);
    while c == b || c == 0
      invariant 1 <= Ahead(a, c) <= 3
      invariant forall d: byte :: Ahead(a, d) < Ahead(a, c) ==> TakenId(a, b, d)
      decreases 3 - Ahead(a, c)
    {
      ghost var c1 := Increment(a);
      assert Ahead(a, c) == 3 ==> TakenId(a, b, c1) && TakenId(a, b, Increment(c1));
      c := Increment(c);
    }
  }

  // ---------------------------------------------------------------- the invariant of a block

  /** Cell `i` belongs to the live run that starts at `s`. */
  predicate Covers(live: map<nat, nat>, s: int, i: int) {
    s in live && s <= i < s + live[s]
  }

  ghost predicate Covered(live: map<nat, nat>, i: int) {
    exists s :: Covers(live, s, i)
  }

  /** A run of `len` cells marked with one nonzero id that neither neighbour carries. */
  ghost predicate RunAt(bm: seq<byte>, r: nat, n: nat, s: nat, len: nat) {
    && 1 <= r <= s && 1 <= len && s + len <= n < |bm|
    && bm[s] != 0 && bm[s - 1] != bm[s] && bm[s + len] != bm[s]
    && forall i :: s <= i < s + len ==> bm[i] == bm[s]
  }

  /** `live` maps the first cell of each allocation to its length; it accounts for the bitmap. */
  ghost predicate Tiled(bm: seq<byte>, r: nat, n: nat, live: map<nat, nat>) {
    && 2 <= r <= n < |bm|
    && (forall i :: 0 <= i < r ==> bm[i] == RESERVED_ID)
    && (forall i :: n <= i < |bm| ==> bm[i] == 0)
    && (forall s :: s in live ==> RunAt(bm, r, n, s, live[s]))
    && (forall s, t {:trigger s in live, t in live} :: s in live && t in live && s < t ==> s + live[s] <= t)
    && (forall i {:trigger Covered(live, i)} :: r <= i < n && bm[i] != 0 ==> Covered(live, i))
  }

  ghost predicate BlockInv(b: Block, live: map<nat, nat>) {
    && b.Laid()
    && Tiled(b.bm, b.r, b.n, live)
    && b.used == Occupied(b.bm)
    && 1 <= b.lfb < b.n
  }

  /** A run survives changes elsewhere that do not give a neighbour its id. */
  lemma RunAtKept(bm: seq<byte>, bm': seq<byte>, r: nat, n: nat, s: nat, len: nat)
    requires RunAt(bm, r, n, s, len) && |bm'| == |bm|
    requires forall i :: s <= i < s + len ==> bm'[i] == bm[i]
    requires bm'[s - 1] != bm[s] && bm'[s + len] != bm[s]
    ensures RunAt(bm', r, n, s, len)
  {}

  /** A live run does not meet a stretch of free cells. */
  lemma RunAvoidsFree(bm: seq<byte>, r: nat, n: nat, s: nat, len: nat, x: nat, need: nat)
    requires RunAt(bm, r, n, s, len) && Free(bm, x, need) && 1 <= need
    ensures s + len <= x || x + need <= s
  {
    assert bm[x] == 0;
  }

  /** A live run stays a run when a free stretch is marked with an id of its own. */
  lemma RunAfterAlloc(bm: seq<byte>, r: nat, n: nat, s: nat, len: nat, x: nat, need: nat, id: byte)
    requires RunAt(bm, r, n, s, len) && Free(bm, x, need)
    requires 1 <= x && 1 <= need && x + need <= n
    requires !TakenId(bm[x - 1], bm[x + need], id)
    ensures s + len <= x || x + need <= s
    ensures RunAt(Fill(bm, x, need, id), r, n, s, len)
  {
    RunAvoidsFree(bm, r, n, s, len, x, need);
    RunAtKept(bm, Fill(bm, x, need, id), r, n, s, len);
  }

  lemma CoveredAfterAlloc(bm: seq<byte>, live: map<nat, nat>, x: nat, need: nat, i: int)
    requires x <= i < x + need || Covered(live, i)
    requires x !in live
    ensures Covered(live[x := need], i)
  {
    if x <= i < x + need {
      assert Covers(live[x := need], x, i);
    } else {
      var s :| Covers(live, s, i);
      assert Covers(live[x := need], s, i);
    }
  }

  lemma RunsAfterAlloc(bm: seq<byte>, r: nat, n: nat, live: map<nat, nat>, x: nat, need: nat, id: byte)
    requires Tiled(bm, r, n, live)
    requires 1 <= x && 1 <= need && x + need <= n && Free(bm, x, need)
    requires !TakenId(bm[x - 1], bm[x + need], id)
    ensures r <= x && x !in live && RunAt(Fill(bm, x, need, id), r, n, x, need)
    ensures forall s :: s in live ==> s + live[s] <= x || x + need <= s
    ensures forall s :: s in live ==> RunAt(Fill(bm, x, need, id), r, n, s, live[s])
  {
    assert bm[x] == 0;
    forall s | s in live
      ensures s + live[s] <= x || x + need <= s
      ensures RunAt(Fill(bm, x, need, id), r, n, s, live[s])
    {
      RunAfterAlloc(bm, r, n, s, live[s], x, need, id);
    }
  }

  /** Marking a free run with an id that differs from both neighbours. */
  lemma TiledAfterAlloc(bm: seq<byte>, r: nat, n: nat, live: map<nat, nat>, x: nat, need: nat, id: byte)
    requires Tiled(bm, r, n, live)
    requires 1 <= x && 1 <= need && x + need <= n && Free(bm, x, need)
    requires !TakenId(bm[x - 1], bm[x + need], id)
    ensures x !in live
    ensures Tiled(Fill(bm, x, need, id), r, n, live[x := need])
  {
    RunsAfterAlloc(bm, r, n, live, x, need, id);
    forall i | r <= i < n && Fill(bm, x, need, id)[i] != 0
      ensures Covered(live[x := need], i)
    {
      assert x <= i < x + need || Covered(live, i);
      CoveredAfterAlloc(bm, live, x, need, i);
    }
  }

  lemma RunsAfterFree(bm: seq<byte>, r: nat, n: nat, live: map<nat, nat>, s: nat)
    requires Tiled(bm, r, n, live) && s in live
    ensures forall t :: t in live && t != s ==> RunAt(Fill(bm, s, live[s], 0), r, n, t, live[t])
  {
    forall t | t in live && t != s
      ensures RunAt(Fill(bm, s, live[s], 0), r, n, t, live[t])
    {
      assert t < s ==> t + live[t] <= s;
      assert s < t ==> s + live[s] <= t;
      RunAtKept(bm, Fill(bm, s, live[s], 0), r, n, t, live[t]);
    }
  }

  lemma CoveredAfterFree(live: map<nat, nat>, s: nat, i: int)
    requires s in live && Covered(live, i) && !Covers(live, s, i)
    ensures Covered(live - {s}, i)
  {
    var t :| Covers(live, t, i);
    assert Covers(live - {s}, t, i);
  }

  /** Clearing the cells of one live run. */
  lemma TiledAfterFree(bm: seq<byte>, r: nat, n: nat, live: map<nat, nat>, s: nat)
    requires Tiled(bm, r, n, live) && s in live
    ensures Tiled(Fill(bm, s, live[s], 0), r, n, live - {s})
  {
    RunsAfterFree(bm, r, n, live, s);
    forall i | r <= i < n && Fill(bm, s, live[s], 0)[i] != 0
      ensures Covered(live - {s}, i)
    {
      assert Covered(live, i);
      CoveredAfterFree(live, s, i);
    }
  }

  // ---------------------------------------------------------------- what kfree clears

  /** Where kfree's clearing loop stops when it starts at `i` on cells marked `id`. */
  function RunEnd(bm: seq<byte>, i: nat, id: byte, max: nat): (e: nat)
    requires max < |bm|
    ensures i <= max ==> i <= e <= max
    ensures forall j :: i <= j < e ==> j < max && bm[j] == id
    ensures i <= max ==> e == max || bm[e] != id
    decreases max - i
  {
    if i < max && bm[i] == id then RunEnd(bm, i + 1, id, max) else i
  }

  /** The id of a live run alone shows where the run ends. */
  lemma RunEndIsRun(bm: seq<byte>, r: nat, n: nat, s: nat, len: nat)
    requires RunAt(bm, r, n, s, len)
    ensures RunEnd(bm, s, bm[s], n) == s + len
  {
    var e := RunEnd(bm, s, bm[s], n);
    assert bm[s + len] != bm[s];
  }
}
