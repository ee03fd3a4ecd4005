/** The wrapping free-run search of kalloc (kernel/kernel/heap.c:85-118): where it stops, what it
    finds, and exactly when it runs forever. */
module HeapSearch {
  import opened Common
  import opened HeapBlocks

  /** A bitmap with `n` usable cells and the hint `lfb` at which the search starts. */
  datatype Bitmap = Bitmap(bm: seq<byte>, n: nat, lfb: nat)

  /** What the search relies on: the first two cells are never free, and the hint is a cell. */
  predicate Searchable(b: Bitmap) {
    && 2 <= b.n < |b.bm|
    && b.bm[0] != 0 && b.bm[1] != 0
    && 1 <= b.lfb < b.n
  }

  // ---------------------------------------------------------------- the loop, step by step

  /** The inner counting loop: how many of the wanted cells are free from `x` on. */
  function FreeLen(bm: seq<byte>, x: nat, y: nat, need: nat, n: nat): (r: nat)
    requires n < |bm| && x + y <= n && y <= need
    requires Free(bm, x, y)
    ensures y <= r <= need && x + r <= n && Free(bm, x, r)
    ensures r == need || x + r == n || bm[x + r] != 0
    decreases need - y
  {
    if bm[x + y] == 0 && y < need && x + y < n then FreeLen(bm, x, y + 1, need, n) else y
  }

  /** The loop variable at the loop test, or the cell at which enough room was found. */
  datatype Loop = At(x: nat) | Hit(x: nat)

  function Start(b: Bitmap): nat {
    if b.lfb + 1 >= b.n then 0 else b.lfb + 1
  }

  /** One round of the loop body and its increment, entered with loop variable `x`. */
  function Body(b: Bitmap, need: nat, x: nat): Loop
    requires Searchable(b)
  {
    var x0 := if x >= b.n then 0 else x;
    if b.bm[x0] != 0 then At(x0 + 1)
    else
      var y := FreeLen(b.bm, x0, 0, need, b.n);
      if y == need then Hit(x0) else At(x0 + (y - 1) + 1)
  }

  /** The loop after at most `k` rounds from `x`; it stays where it stops. */
  function Rounds(b: Bitmap, need: nat, x: nat, k: nat): Loop
    requires Searchable(b)
    decreases k
  {
    if k == 0 || x == b.lfb then At(x)
    else match Body(b, need, x)
      case Hit(h) => Hit(h)
      case At(x') => Rounds(b, need, x', k - 1)
  }

  predicate Halted(b: Bitmap, l: Loop) {
    l.Hit? || l.x == b.lfb
  }

  // ---------------------------------------------------------------- the result, without the loop

  /** `need` free cells at `x`, and `x` begins a stretch of free cells or follows the hint. */
  ghost predicate Fits(b: Bitmap, need: nat, x: int) {
    && 1 <= x && x + need <= b.n <= |b.bm| && x != b.lfb
    && Free(b.bm, x, need)
    && (b.bm[x - 1] != 0 || x == b.lfb + 1)
  }

  /** Cyclic distance from the hint. */
  function Dist(b: Bitmap, x: int): int {
    if x > b.lfb then x - b.lfb else x - b.lfb + b.n
  }

  ghost predicate FirstFit(b: Bitmap, need: nat, x: int) {
    Fits(b, need, x) && forall z :: Fits(b, need, z) ==> Dist(b, x) <= Dist(b, z)
  }

  datatype SearchResult = Found(x: nat) | Exhausted | Diverges

  /** The cell at cyclic distance `d` from the hint. */
  function Pos(b: Bitmap, d: nat): int {
    if b.lfb + d < b.n then b.lfb + d else b.lfb + d - b.n
  }

  /** The least distance from `d` on at which something fits, or `b.n`. */
  ghost function FitFrom(b: Bitmap, need: nat, d: nat): nat
    decreases b.n - d
  {
    if d >= b.n then b.n
    else if Fits(b, need, Pos(b, d)) then d
    else FitFrom(b, need, d + 1)
  }

  /** The nearest fit after the hint; without one, the search ends exactly when the hint or the
      cell before it is occupied. */
  ghost function Search(b: Bitmap, need: nat): SearchResult
    requires Searchable(b)
  {
    var d := FitFrom(b, need, 1);
    if d < b.n && Pos(b, d) >= 0 then Found(Pos(b, d))
    else if b.bm[b.lfb] == 0 && b.bm[b.lfb - 1] == 0 then Diverges
    else Exhausted
  }

  lemma {:induction false} FitFromLeast(b: Bitmap, need: nat, d: nat)
    requires Searchable(b) && 1 <= need && 1 <= d <= b.n
    ensures var r := FitFrom(b, need, d);
            && d <= r <= b.n
            && (r < b.n ==> Fits(b, need, Pos(b, r)) && Dist(b, Pos(b, r)) == r)
            && forall z :: Fits(b, need, z) && Dist(b, z) >= d ==> Dist(b, z) >= r && r < b.n
    decreases b.n - d
  {
    if d < b.n && !Fits(b, need, Pos(b, d)) {
      FitFromLeast(b, need, d + 1);
      assert forall z :: Fits(b, need, z) && Dist(b, z) == d ==> z == Pos(b, d);
    }
  }

  /** The result is a nearest fit, and there is one whenever something fits. */
  lemma SearchSpec(b: Bitmap, need: nat)
    requires Searchable(b) && 1 <= need
    ensures Search(b, need).Found? ==> FirstFit(b, need, Search(b, need).x)
    ensures !Search(b, need).Found? ==> forall z :: !Fits(b, need, z)
  {
    FitFromLeast(b, need, 1);
    assert forall z :: Fits(b, need, z) ==> Dist(b, z) >= 1;
  }

  lemma UniqueFirstFit(b: Bitmap, need: nat, x: nat)
    requires Searchable(b) && FirstFit(b, need, x) && 1 <= need
    ensures Search(b, need) == Found(x)
  {
    SearchSpec(b, need);
  }

  // ---------------------------------------------------------------- completeness

  ghost predicate HasRoom(b: Bitmap, need: nat) {
    exists x: nat :: x + need <= b.n && Free(b.bm, x, need)
  }

  /** A free stretch reached from a given free run, cut at the hint. */
  lemma {:induction false} RoomFits(b: Bitmap, need: nat, x: nat) returns (z: nat)
    requires Searchable(b) && 1 <= need && x + need <= b.n && Free(b.bm, x, need)
    requires b.bm[b.lfb] != 0
    ensures Fits(b, need, z)
  {
    assert b.bm[x] == 0;
    if b.bm[x - 1] != 0 {
      z := x;
    } else {
      assert Free(b.bm, x - 1, need);
      z := RoomFits(b, need, x - 1);
    }
  }

  /** With an occupied hint the search stops, and succeeds exactly when some free run is long
      enough. */
  lemma SearchComplete(b: Bitmap, need: nat)
    requires Searchable(b) && 1 <= need && b.bm[b.lfb] != 0
    ensures Search(b, need) != Diverges
    ensures Search(b, need).Found? <==> HasRoom(b, need)
  {
    SearchSpec(b, need);
    if HasRoom(b, need) {
      var x: nat :| x + need <= b.n && Free(b.bm, x, need);
      var z := RoomFits(b, need, x);
    }
  }

  /** The hint is free and starts its own stretch, and no long enough run starts anywhere else. */
  ghost predicate OnlyAtHint(b: Bitmap, need: nat)
    requires Searchable(b)
  {
    && b.bm[b.lfb] == 0 && b.bm[b.lfb - 1] != 0
    && forall x: nat {:trigger Free(b.bm, x, need)} :: x + need <= b.n && Free(b.bm, x, need) ==> x == b.lfb
  }

  /** The hint lies in the middle of a free stretch. */
  predicate InsideFree(b: Bitmap)
    requires Searchable(b)
  {
    b.bm[b.lfb] == 0 && b.bm[b.lfb - 1] == 0
  }

  /** Without that assumption: the exact condition under which the search misses a free run. */
  lemma SearchMisses(b: Bitmap, need: nat)
    requires Searchable(b) && 1 <= need && HasRoom(b, need)
    ensures Search(b, need) != Diverges
    ensures Search(b, need) == Exhausted <==> OnlyAtHint(b, need)
  {
    SearchSpec(b, need);
    var x: nat :| x + need <= b.n && Free(b.bm, x, need);
    if OnlyAtHint(b, need) {
      assert b.bm[x] == 0;
      assert forall z :: !Fits(b, need, z);
    } else {
      var w: nat := x;
      if x == b.lfb {
        assert b.bm[x] == 0;
        if b.bm[x - 1] == 0 {
          assert Free(b.bm, x - 1, need);
          w := x - 1;
        } else {
          w :| w + need <= b.n && Free(b.bm, w, need) && w != b.lfb;
        }
      }
      var z := RoomFitsOff(b, need, w);
    }
  }

  /** All three results of the search, from the cells alone. */
  lemma SearchOutcome(b: Bitmap, need: nat)
    requires Searchable(b) && 1 <= need
    ensures Search(b, need).Found? <==> HasRoom(b, need) && !OnlyAtHint(b, need)
    ensures Search(b, need) == Diverges <==> !HasRoom(b, need) && InsideFree(b)
  {
    if HasRoom(b, need) {
      SearchMisses(b, need);
    } else {
      SearchSpec(b, need);
      assert forall z: int :: !Fits(b, need, z);
    }
  }

  /** From a free run that does not start at the hint, walking left finds a fit. */
  lemma {:induction false} RoomFitsOff(b: Bitmap, need: nat, x: nat) returns (z: nat)
    requires Searchable(b) && 1 <= need && x + need <= b.n && Free(b.bm, x, need) && x != b.lfb
    ensures Fits(b, need, z)
  {
    assert b.bm[x] == 0;
    if b.bm[x - 1] != 0 || x == b.lfb + 1 {
      z := x;
    } else {
      assert Free(b.bm, x - 1, need);
      z := RoomFitsOff(b, need, x - 1);
    }
  }

  // ---------------------------------------------------------------- the loop computes the result

  /** What holds at the loop test: nothing fits in the part already scanned, and the scan does not
      stand in the middle of a free stretch. */
  ghost predicate Scanned(b: Bitmap, need: nat, x: nat)
    requires Searchable(b)
  {
    && x <= b.n
    && (x < b.n && b.bm[x] == 0 ==> x == b.lfb + 1 || b.bm[x - 1] != 0)
    && forall z :: Fits(b, need, z) ==> if x > b.lfb then z < b.lfb || x <= z else x <= z < b.lfb
  }

  lemma HitIsFirst(b: Bitmap, need: nat, x: nat)
    requires Searchable(b) && 1 <= need && x != b.lfb && Scanned(b, need, x)
    requires Body(b, need, x).Hit?
    ensures FirstFit(b, need, Body(b, need, x).x)
  {
    assert b.bm[0] != 0;
  }

  lemma NoFitInStretch(b: Bitmap, need: nat, x: nat, y: nat)
    requires Searchable(b) && y < need && Free(b.bm, x, y) && x + y <= b.n
    requires x + y == b.n || b.bm[x + y] != 0
    requires x > b.lfb || x + y <= b.lfb
    ensures forall z :: x <= z < x + y ==> !Fits(b, need, z)
  {
    forall z | x <= z < x + y
      ensures !Fits(b, need, z)
    {
      if x < z {
        assert b.bm[z - 1] == 0;
      }
    }
  }

  lemma StepScanned(b: Bitmap, need: nat, x: nat)
    requires Searchable(b) && 1 <= need && x != b.lfb && Scanned(b, need, x)
    requires Search(b, need) != Diverges && Body(b, need, x).At?
    ensures var x' := Body(b, need, x).x;
            && Scanned(b, need, x')
            && (if x > b.lfb then x < x' || (x == b.n && x' == 1) else x < x' <= b.lfb)
  {
    if x < b.n && b.bm[x] == 0 {
      var y := FreeLen(b.bm, x, 0, need, b.n);
      if x < b.lfb < x + y {
        SkippedHint(b, need, x, y);
      } else {
        NoFitInStretch(b, need, x, y);
      }
    }
  }

  /** Skipping over a free hint means that nothing fits anywhere. */
  lemma SkippedHint(b: Bitmap, need: nat, x: nat, y: nat)
    requires Searchable(b) && y < need && Free(b.bm, x, y) && x < b.lfb < x + y <= b.n
    requires x + y == b.n || b.bm[x + y] != 0
    requires Scanned(b, need, x)
    ensures Search(b, need) == Diverges
  {
    SearchSpec(b, need);
    assert b.bm[b.lfb] == 0 && b.bm[b.lfb - 1] == 0;
    forall z | x < z < b.lfb
      ensures !Fits(b, need, z)
    {
      assert b.bm[z - 1] == 0;
    }
  }

  /** A search that does not diverge stops after finitely many rounds with the specified result. */
  lemma {:induction false} Converges(b: Bitmap, need: nat, x: nat) returns (k: nat)
    requires Searchable(b) && 1 <= need && Scanned(b, need, x)
    requires Search(b, need) != Diverges
    ensures Rounds(b, need, x, k) == if Search(b, need).Found? then Hit(Search(b, need).x) else At(b.lfb)
    decreases if x > b.lfb then 2 * b.n + 1 - x else b.lfb - x
  {
    if x == b.lfb {
      k := 0;
      SearchSpec(b, need);
    } else {
      match Body(b, need, x)
      case Hit(h) =>
        k := 1;
        HitIsFirst(b, need, x);
        UniqueFirstFit(b, need, h);
      case At(x') =>
        StepScanned(b, need, x);
        var k' := Converges(b, need, x');
        k := k' + 1;
    }
  }

  lemma StartScanned(b: Bitmap, need: nat)
    requires Searchable(b) && 1 <= need
    ensures Scanned(b, need, Start(b))
  {}

  /** Where the loop variable can be while a free hint is skipped over: outside the free stretch
      that ends at the hint, except at its first cell `a`. */
  ghost predicate Skipping(b: Bitmap, a: nat, x: nat) {
    && 1 <= a < b.lfb < b.n < |b.bm|
    && b.bm[a - 1] != 0
    && Free(b.bm, a, b.lfb + 1 - a)
    && (x <= a || b.lfb < x <= b.n)
  }

  lemma StepSkips(b: Bitmap, need: nat, a: nat, x: nat)
    requires Searchable(b) && 1 <= need && Search(b, need) == Diverges && Skipping(b, a, x)
    requires x < b.n && b.bm[x] == 0 ==> x == b.lfb + 1 || b.bm[x - 1] != 0
    ensures Body(b, need, x).At?
    ensures Skipping(b, a, Body(b, need, x).x)
    ensures var x' := Body(b, need, x).x;
            x' < b.n && b.bm[x'] == 0 ==> x' == b.lfb + 1 || b.bm[x' - 1] != 0
  {
    if x < b.n && b.bm[x] == 0 {
      var y := FreeLen(b.bm, x, 0, need, b.n);
      if y == need {
        SearchSpec(b, need);
        assert Fits(b, need, x);
      } else {
        assert b.bm[a - 1] != 0;
        assert x == a ==> forall i :: a <= i <= b.lfb ==> b.bm[i] == 0;
      }
    }
  }

  lemma {:induction false} SkipsForever(b: Bitmap, need: nat, a: nat, x: nat, k: nat)
    requires Searchable(b) && 1 <= need && Search(b, need) == Diverges && Skipping(b, a, x)
    requires x < b.n && b.bm[x] == 0 ==> x == b.lfb + 1 || b.bm[x - 1] != 0
    ensures !Halted(b, Rounds(b, need, x, k))
    decreases k
  {
    if k > 0 {
      StepSkips(b, need, a, x);
      SkipsForever(b, need, a, Body(b, need, x).x, k - 1);
    }
  }

  lemma {:induction false} StretchStart(b: Bitmap, i: nat) returns (a: nat)
    requires Searchable(b) && i < b.n && b.bm[i] == 0
    ensures 1 <= a <= i && b.bm[a - 1] != 0 && Free(b.bm, a, i + 1 - a)
  {
    if b.bm[i - 1] != 0 {
      a := i;
    } else {
      a := StretchStart(b, i - 1);
    }
  }

  /** The search of a block halts if and only if some free run is long enough or the hint or the cell
      before it is occupied; when it halts, a found cell is the nearest fit after the hint. */
  lemma SearchHalts(b: Bitmap, need: nat)
    requires Searchable(b) && 1 <= need
    ensures (exists k: nat :: Halted(b, Rounds(b, need, Start(b), k))) <==>
              HasRoom(b, need) || b.bm[b.lfb] != 0 || b.bm[b.lfb - 1] != 0
    ensures Search(b, need).Found? ==>
              exists k: nat :: Rounds(b, need, Start(b), k) == Hit(Search(b, need).x)
    ensures Search(b, need).Exhausted? ==>
              exists k: nat :: Rounds(b, need, Start(b), k) == At(b.lfb)
  {
    StartScanned(b, need);
    SearchOutcome(b, need);
    if Search(b, need) == Diverges {
      var a := StretchStart(b, b.lfb);
      forall k: nat
        ensures !Halted(b, Rounds(b, need, Start(b), k))
      {
        SkipsForever(b, need, a, Start(b), k);
      }
    } else {
      var k := Converges(b, need, Start(b));
    }
  }

  // ---------------------------------------------------------------- the code

  /** The counting loop of kalloc: every index read lies in the bitmap. */
  method CountFree(bm: array<byte>, x: nat, need: nat, n: nat) returns (y: nat)
    requires n < bm.Length && x <= n
    ensures y == FreeLen(bm[..], x, 0, need, n)
  {
    y := 0;
    while bm[x + y] == 0 && y < need && x + y < n
      invariant x + y <= n && y <= need && Free(bm[..], x, y)
      invariant FreeLen(bm[..], x, y, need, n) == FreeLen(bm[..], x, 0, need, n)
    {
      y := y + 1;
    }
  }

  /** One round of the search loop: wrap around, look at a cell, skip a stretch that is too short. */
  method ProbeCell(bm: array<byte>, x: nat, need: nat, n: nat, ghost b: Bitmap)
    returns (hit: bool, x': nat)
    requires Searchable(b) && b.bm == bm[..] && b.n == n && 1 <= need
    ensures Body(b, need, x) == if hit then Hit(x') else At(x')
  {
    hit, x' := false, x;
    if x' >= n {
      x' := 0;
    }
    if bm[x'] == 0 {
      var y := CountFree(bm, x', need, n);
      if y == need {
        return true, x';
      }
      x' := x' + (y - 1);
    }
    x' := x' + 1;
  }

  /** The search loop of kalloc on one block. */
  method SearchCells(bm: array<byte>, lfb: nat, need: nat, n: nat, ghost b: Bitmap)
    returns (found: bool, x: nat)
    requires Searchable(b) && b.bm == bm[..] && b.lfb == lfb && b.n == n
    requires 1 <= need && Search(b, need) != Diverges
    ensures Search(b, need) == if found then Found(x) else Exhausted
  {
    StartScanned(b, need);
    ghost var k := Converges(b, need, Start(b));
    ghost var goal := Rounds(b, need, Start(b), k);
    found, x := false, if lfb + 1 >= n then 0 else lfb + 1;
    while !found && x != lfb
      invariant goal == if found then Hit(x) else Rounds(b, need, x, k)
      decreases !found, k
    {
      found, x := ProbeCell(bm, x, need, n, b);
      k := k - 1;
    }
  }
}
