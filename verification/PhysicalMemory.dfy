/** memory_alloc_page, memory_free_page and paging_init on the globals they change
    (kernel/kernel/mem.c:96-155). */
module PhysicalMemory {
  import opened Common
  import opened Pages
  import opened PageTables

  datatype AllocResult = NotInitialized | OutOfMemory | Page(addr: nat)

  /** No page below `n` is free. */
  ghost predicate NoneFree(cells: seq<bv32>, n: nat) {
    forall q: nat :: q < n ==> !IsFree(cells, q)
  }

  lemma NextFree(cells: seq<bv32>, n: nat)
    requires NoneFree(cells, n) && !IsFree(cells, n)
    ensures NoneFree(cells, n + 1)
  {}

  lemma CellOfPage(i: nat, j: nat)
    requires j < 32
    ensures (32 * i + j) / 32 == i && Index(32 * i + j) == Index(j)
  {
    assert (32 * i + j) % 32 == j;
  }

  lemma EmptyCell(cells: seq<bv32>, i: nat)
    requires i < |cells| && cells[i] == 0 && NoneFree(cells, 32 * i)
    ensures NoneFree(cells, 32 * (i + 1))
  {
    forall q: nat | 32 * i <= q < 32 * (i + 1)
      ensures !IsFree(cells, q)
    {
      ZeroHasNoBit(Index(q));
    }
  }

  lemma FreeOrNot(cells: seq<bv32>, found: bool, p: nat)
    requires if found then IsLowest(cells, p) else NoneFree(cells, 32 * |cells|)
    ensures found <==> FreePages(cells) != {}
  {
    if found {
      FreeBelow(cells, p);
    } else {
      forall q: nat
        ensures q !in FreePages(cells)
      {
        FreeBelow(cells, q);
      }
    }
  }

  /** The free pages, their counter and the words of memory. */
  datatype MemoryState = MemoryState(free: set<nat>, pagesFree: nat, ram: seq<word>)

  class Memory {
    var freemap: array?<bv32>
    var pagesFree: nat
    /** Physical memory by words of four bytes. The free map lies outside the allocatable pages. */
    const ram: array<word>

    constructor (freemap: array?<bv32>, pagesFree: nat, ram: array<word>)
      ensures this.freemap == freemap && this.pagesFree == pagesFree && this.ram == ram
    {
      this.freemap, this.pagesFree, this.ram := freemap, pagesFree, ram;
    }

    /** The free map is not part of the memory it manages. */
    ghost predicate Separate()
      reads this
    {
      freemap != null ==> freemap as object != ram
    }

    /** Every free page lies in memory, below the end of the address space. */
    ghost predicate FreePagesInRam()
      reads this, freemap
    {
      freemap != null ==>
        forall p: nat :: IsFree(freemap[..], p) ==> p < 0xF_FF00 && PageAddr(p) / 4 + 1024 <= ram.Length
    }

    /** Bit `j` of cell `i`. */
    method TestBit(i: nat, j: nat) returns (b: bool)
      requires freemap != null && i < freemap.Length && j < 32
      ensures b == IsFree(freemap[..], 32 * i + j)
    {
      CellOfPage(i, j);
      var cellmask := Mask(Index(j));
      b := freemap[i] & cellmask != 0;
    }

    /** The bit loop of memory_alloc_page on cell `i`: nothing below is free, and bit `j` is the first
        that is. */
    method FindBit(i: nat) returns (j: nat)
      requires freemap != null && i < freemap.Length && NoneFree(freemap[..], 32 * i)
      ensures j <= 32 && NoneFree(freemap[..], 32 * i + j)
      ensures j < 32 ==> IsFree(freemap[..], 32 * i + j)
    {
      j := 0;
      var found := false;
      while j < 32 && !found
        invariant j <= 32 && NoneFree(freemap[..], 32 * i + j)
        invariant found ==> j < 32 && IsFree(freemap[..], 32 * i + j)
        decreases 32 - j, !found
      {
        found := TestBit(i, j);
        if !found {
          NextFree(freemap[..], 32 * i + j);
          j := j + 1;
        }
      }
    }

    /** Both search loops: the lowest-numbered free page. */
    method FindPage() returns (found: bool, p: nat)
      requires freemap != null
      ensures found ==> p / 32 < freemap.Length && IsLowest(freemap[..], p)
      ensures !found ==> NoneFree(freemap[..], 32 * freemap.Length)
    {
      for i := 0 to freemap.Length
        invariant NoneFree(freemap[..], 32 * i)
      {
        if freemap[i] != 0 {
          var j := FindBit(i);
          if j < 32 {
            return true, i * 32 + j;
          }
        } else {
          EmptyCell(freemap[..], i);
        }
      }
      return false, 0;
    }

    /** memset of a page. */
    method ZeroPage(addr: nat)
      requires addr / 4 + 1024 <= ram.Length
      modifies ram
      ensures forall k :: 0 <= k < ram.Length ==>
                ram[k] == if addr / 4 <= k < addr / 4 + 1024 then 0 else old(ram[k])
    {
      for w := 0 to 1024
        invariant forall k :: 0 <= k < ram.Length ==>
                    ram[k] == if addr / 4 <= k < addr / 4 + w then 0 else old(ram[k])
      {
        ram[addr / 4 + w] := 0;
      }
    }

    /** Take page `p` out of the map. */
    method TakePage(p: nat)
      requires freemap != null && p / 32 < freemap.Length
      modifies freemap
      ensures freemap[..] == MarkUsed(old(freemap[..]), p)
    {
      freemap[p / 32] := freemap[p / 32] & !Mask(Index(p));
    }

    /** memory_alloc_page without the zeroing: the lowest free page `p` leaves the map. */
    method TakeLowest() returns (r: AllocResult, ghost p: nat)
      modifies this`pagesFree, freemap
      ensures r == NotInitialized <==> freemap == null
      ensures freemap != null ==> (r == OutOfMemory <==> FreePages(old(freemap[..])) == {})
      ensures r.Page? ==>
                && freemap != null && r.addr == PageAddr(p)
                && IsLowest(old(freemap[..]), p) && p / 32 < freemap.Length
                && freemap[..] == MarkUsed(old(freemap[..]), p) && pagesFree == (old(pagesFree) - 1) % TWO32
      ensures !r.Page? ==> pagesFree == old(pagesFree) && (freemap != null ==> freemap[..] == old(freemap[..]))
    {
      p := 0;
      if freemap == null {
        return NotInitialized, p;
      }
      var found, pagenumber := FindPage();
      p := pagenumber;
      FreeOrNot(freemap[..], found, p);
      if !found {
        return OutOfMemory, p;
      }
      TakePage(pagenumber);
      pagesFree := (pagesFree - 1) % TWO32;
      var pageaddr := (pagenumber * 4096 % TWO32 + ALLOC_START) % TWO32;
      return Page(pageaddr), p;
    }

    /** memory_alloc_page. The result is handed out zeroed if that is asked for. */
    method AllocPage(zeroit: bool) returns (r: AllocResult, ghost p: nat)
      requires Separate() && (zeroit ==> FreePagesInRam())
      modifies this`pagesFree, freemap, ram
      ensures r == NotInitialized <==> freemap == null
      ensures freemap != null ==> (r == OutOfMemory <==> FreePages(old(freemap[..])) == {})
      ensures r.Page? ==>
                && freemap != null && r.addr == PageAddr(p)
                && IsLowest(old(freemap[..]), p) && p / 32 < freemap.Length
                && freemap[..] == MarkUsed(old(freemap[..]), p) && pagesFree == (old(pagesFree) - 1) % TWO32
      ensures r.Page? && p < 0xF_FF00 ==> r.addr == 0x10_0000 + 4096 * p
      ensures !r.Page? ==> pagesFree == old(pagesFree) && (freemap != null ==> freemap[..] == old(freemap[..]))
      ensures forall k :: 0 <= k < ram.Length ==>
                ram[k] == if zeroit && r.Page? && r.addr / 4 <= k < r.addr / 4 + 1024 then 0 else old(ram[k])
    {
      r, p := TakeLowest();
      AddressOf(p);
      if r.Page? && zeroit {
        ZeroPage(r.addr);
      }
    }

    /** memory_free_page. The page number must lie in the map. */
    method FreePage(pageaddr: nat)
      requires freemap != null && pageaddr < TWO32 && PageNumber(pageaddr) / 32 < freemap.Length
      modifies this`pagesFree, freemap
      ensures freemap[..] == MarkFree(old(freemap[..]), PageNumber(pageaddr))
      ensures forall p: nat :: p < 0x8_0000 && pageaddr == 0x10_0000 + 4096 * p ==> PageNumber(pageaddr) == p
      ensures pagesFree == (old(pagesFree) + 1) % TWO32
    {
      forall p: nat | p < 0x8_0000 && pageaddr == 0x10_0000 + 4096 * p
        ensures PageNumber(pageaddr) == p
      {
        AddressOf(p);
      }
      var difference := (pageaddr - ALLOC_START) % TWO32;
      var signed := if difference < TWO32 / 2 then difference else difference - TWO32;
      var pagenumber := signed / PAGE_SIZE % TWO32;
      freemap[pagenumber / 32] := freemap[pagenumber / 32] | Mask(Index(pagenumber));
      pagesFree := (pagesFree + 1) % TWO32;
    }

    // -------------------------------------------------------------- paging_init

    /** An allocation of a zeroed page, seen from the pages taken before: the new page is none of
        them, and memory outside it is unchanged. */
    method NewTable(ghost taken: seq<nat>) returns (r: AllocResult, ghost p: nat)
      requires freemap != null && Separate() && FreePagesInRam()
      requires forall q :: q in taken ==> q < 0xF_FF00 && !IsFree(freemap[..], q)
      modifies this`pagesFree, freemap, ram
      ensures freemap == old(freemap) && FreePagesInRam()
      ensures r.Page? || r.OutOfMemory?
      ensures r.Page? <==> FreePages(old(freemap[..])) != {}
      ensures r.Page? ==>
                && p < 0xF_FF00 && p !in taken && r.addr == PageAddr(p) && r.addr / 4 + 1024 <= ram.Length
                && p in FreePages(old(freemap[..])) && FreePages(freemap[..]) == FreePages(old(freemap[..])) - {p}
                && pagesFree == (old(pagesFree) - 1) % TWO32
                && forall q :: q in taken + [p] ==> q < 0xF_FF00 && !IsFree(freemap[..], q)
      ensures forall k :: 0 <= k < ram.Length ==>
                ram[k] == if r.Page? && r.addr / 4 <= k < r.addr / 4 + 1024 then 0 else old(ram[k])
    {
      r, p := AllocPage(true);
      if r.Page? {
        MarkPages(old(freemap[..]), p);
        FreeBelow(old(freemap[..]), p);
        forall q: nat
          ensures IsFree(freemap[..], q) <==> q != p && IsFree(old(freemap[..]), q)
        {
          MarkPage(old(freemap[..]), p, q);
        }
      }
    }

    /** The inner loop: fill a zeroed table with the frames of 4 MB. */
    method FillTable(addr: nat, dirIndex: nat)
      requires dirIndex < 3 && addr / 4 + 1024 <= ram.Length
      requires forall k :: addr / 4 <= k < addr / 4 + 1024 ==> ram[k] == 0
      modifies ram
      ensures forall k :: 0 <= k < ram.Length ==>
                ram[k] == if addr / 4 <= k < addr / 4 + 1024 then Entry(1024 * dirIndex + (k - addr / 4))
                          else old(ram[k])
    {
      var first := addr / 4;
      for i := 0 to 1024
        invariant forall k :: 0 <= k < ram.Length ==>
                    ram[k] == if first <= k < first + i then Entry(1024 * dirIndex + (k - first)) else old(ram[k])
      {
        ram[first + i] := SetPresent(ram[first + i]);
        ram[first + i] := SetReadWrite(ram[first + i]);
        ram[first + i] := SetFrame(ram[first + i], (0x40_0000 * dirIndex + 4096 * i) / 4096);
        assert (0x40_0000 * dirIndex + 4096 * i) / 4096 == 1024 * dirIndex + i;
      }
    }

    /** Fill the new table and let the directory entry at word `d` point to it. */
    method EnterTable(d: nat, addr: nat, dirIndex: nat)
      requires dirIndex < 3 && addr / 4 + 1024 <= ram.Length
      requires forall k :: addr / 4 <= k < addr / 4 + 1024 ==> ram[k] == 0
      requires d < addr / 4 || addr / 4 + 1024 <= d
      requires d < ram.Length
      modifies ram
      ensures forall k :: 0 <= k < ram.Length ==>
                ram[k] == if addr / 4 <= k < addr / 4 + 1024 then Entry(1024 * dirIndex + (k - addr / 4))
                          else if k == d then SetFrame(old(ram[d]), addr / 4096)
                          else old(ram[k])
    {
      FillTable(addr, dirIndex);
      ram[d] := SetFrame(ram[d], addr / 4096);
    }

    ghost function Snapshot(): MemoryState
      reads this, freemap, ram
      requires freemap != null
    {
      MemoryState(FreePages(freemap[..]), pagesFree, ram[..])
    }

    /** The tables paging_init has built so far, on the pages `taken` (the first one holds the
        directory). */
    ghost predicate Built(pagedir: nat, tables: seq<nat>, taken: seq<nat>)
      reads this, freemap, ram
    {
      && freemap != null
      && |taken| == |tables| + 1 <= 4
      && OnPages(pagedir, tables, taken)
      && (forall q :: q in taken ==> q < 0xF_FF00 && !IsFree(freemap[..], q))
      && Directory(ram[..], pagedir, tables)
      && forall i :: 0 <= i < |tables| ==> IdentityTable(ram[..], tables[i], 1024 * i)
    }

    /** One round of the outer loop of paging_init: what it writes. */
    method WriteTable(pagedir: nat, dirIndex: nat, ghost tables: seq<nat>, ghost taken: seq<nat>)
      returns (ok: bool, addr: nat, ghost p: nat)
      requires Separate() && freemap != null && FreePagesInRam() && Built(pagedir, tables, taken)
      requires dirIndex == |tables| < 3
      modifies this`pagesFree, freemap, ram
      ensures freemap == old(freemap) && FreePagesInRam()
      ensures ok <==> FreePages(old(freemap[..])) != {}
      ensures ok ==>
                && p < 0xF_FF00 && p !in taken && addr == PageAddr(p) && addr / 4 + 1024 <= ram.Length
                && p in FreePages(old(freemap[..])) && FreePages(freemap[..]) == FreePages(old(freemap[..])) - {p}
                && pagesFree == (old(pagesFree) - 1) % TWO32
                && (forall q :: q in taken + [p] ==> q < 0xF_FF00 && !IsFree(freemap[..], q))
                && TableAdded(old(ram[..]), ram[..], pagedir, dirIndex, addr)
    {
      var d := pagedir / 4 + dirIndex;
      ram[d] := SetPresent(ram[d]);
      ram[d] := SetReadWrite(ram[d]);
      var r;
      r, p := NewTable(taken);
      ok, addr := r.Page?, 0;
      if ok {
        addr := r.addr;
        RangesApart(taken[0], p);
        EnterTable(d, addr, dirIndex);
        PageRange(p);
      }
    }

    /** What that makes of the tables built so far. */
    method AddTable(pagedir: nat, dirIndex: nat, ghost tables: seq<nat>, ghost taken: seq<nat>)
      returns (ok: bool, ghost tables': seq<nat>, ghost taken': seq<nat>)
      requires Separate() && freemap != null && FreePagesInRam() && Built(pagedir, tables, taken)
      requires dirIndex == |tables| < 3
      modifies this`pagesFree, freemap, ram
      ensures freemap == old(freemap) && FreePagesInRam()
      ensures ok <==> FreePages(old(freemap[..])) != {}
      ensures ok ==> Built(pagedir, tables', taken') && |tables'| == |tables| + 1
      ensures ok ==>
                && |taken'| == |taken| + 1 && taken' == taken + [taken'[|taken|]]
                && TookOne(old(Snapshot()), Snapshot(), taken', taken'[|taken|])
    {
      tables', taken' := tables, taken;
      var addr;
      ghost var p;
      ok, addr, p := WriteTable(pagedir, dirIndex, tables, taken);
      if ok {
        tables', taken' := tables + [addr], taken + [p];
        StillBuilt(old(ram[..]), ram[..], pagedir, tables, taken, p);
        TookTable(old(Snapshot()), Snapshot(), pagedir, dirIndex, taken, p);
      }
    }

    /** The outer loop of paging_init; `start` is the memory before the directory was allocated. */
    method AddTables(pagedir: nat, ghost first: nat, ghost start: MemoryState)
      returns (ok: bool, ghost tables: seq<nat>, ghost taken: seq<nat>)
      requires Separate() && freemap != null && FreePagesInRam() && Built(pagedir, [], [first])
      requires TookOnly(start, Snapshot(), [first])
      modifies this`pagesFree, freemap, ram
      ensures freemap == old(freemap)
      ensures ok <==> |FreePages(old(freemap[..]))| >= 3
      ensures ok ==> Built(pagedir, tables, taken) && |tables| == 3 && TookOnly(start, Snapshot(), taken)
    {
      ghost var count := |FreePages(freemap[..])|;
      ok, tables, taken := true, [], [first];
      for dirIndex := 0 to 3
        invariant freemap == old(freemap) && FreePagesInRam() && ok
        invariant Built(pagedir, tables, taken) && |tables| == dirIndex
        invariant |FreePages(freemap[..])| == count - dirIndex
        invariant TookOnly(start, Snapshot(), taken)
      {
        ghost var before, held := Snapshot(), taken;
        ok, tables, taken := AddTable(pagedir, dirIndex, tables, taken);
        if !ok {
          return;
        }
        TookMore(start, before, held, taken[|held|], Snapshot());
      }
    }

    /** paging_init: a directory and three tables on four zeroed pages. Without four free pages the
        allocator panics, which is reported by `ok`. */
    method PagingInit() returns (ok: bool, pagedir: nat, ghost taken: seq<nat>)
      requires Separate() && freemap != null && FreePagesInRam()
      modifies this`pagesFree, freemap, ram
      ensures ok <==> |FreePages(old(freemap[..]))| >= 4
      ensures ok ==> forall va: nat :: va < TWO32 ==>
                       Walk(ram[..], pagedir, va) == if va < 0xC0_0000 then Mapped(va, true) else Fault
      ensures freemap == old(freemap)
      ensures ok ==> |taken| == 4 && pagedir == PageAddr(taken[0]) && TookOnly(old(Snapshot()), Snapshot(), taken)
    {
      pagedir, taken := 0, [];
      var r, p := NewTable([]);
      ok := r.Page?;
      if ok {
        pagedir := r.addr;
        PageRange(p);
        assert forall k :: OffPages([p], k) ==> OffPage([p][0], k);
        TookFirst(old(Snapshot()), Snapshot(), p);
        ghost var tables;
        ok, tables, taken := AddTables(pagedir, p, old(Snapshot()));
        if ok {
          WalkAll(ram[..], pagedir, tables, taken);
        }
      }
    }
  }

  /** Word `k` lies on none of the pages. */
  ghost predicate OffPages(taken: seq<nat>, k: int) {
    forall j :: 0 <= j < |taken| ==> OffPage(taken[j], k)
  }

  ghost predicate OffPage(p: nat, k: int) {
    k < PageAddr(p) / 4 || PageAddr(p) / 4 + 1024 <= k
  }

  lemma OffPagesKeeps(taken: seq<nat>, p: nat, d: nat)
    requires taken != [] && !OffPage(taken[0], d)
    ensures forall k :: OffPages(taken + [p], k) ==> OffPage(p, k) && k != d && OffPages(taken, k)
  {
    forall k | OffPages(taken + [p], k)
      ensures OffPage(p, k) && k != d && OffPages(taken, k)
    {
      assert (taken + [p])[|taken|] == p && (taken + [p])[0] == taken[0];
      assert forall j :: 0 <= j < |taken| ==> (taken + [p])[j] == taken[j];
    }
  }

  /** From `a` to `b` page `p` was taken, and memory off the pages `taken` did not change. */
  ghost predicate TookOne(a: MemoryState, b: MemoryState, taken: seq<nat>, p: nat) {
    && p in a.free && b.free == a.free - {p} && b.pagesFree == (a.pagesFree - 1) % TWO32
    && |b.ram| == |a.ram| && forall k :: 0 <= k < |a.ram| && OffPages(taken, k) ==> b.ram[k] == a.ram[k]
  }

  /** From `a` to `b` exactly the pages `taken`, all different, were taken, and memory off them did not
      change. */
  ghost predicate TookOnly(a: MemoryState, b: MemoryState, taken: seq<nat>) {
    && (forall q :: q in taken ==> q in a.free)
    && (forall q :: q in b.free <==> q in a.free && q !in taken)
    && (forall i, j :: 0 <= i < j < |taken| ==> taken[i] != taken[j])
    && b.pagesFree == (a.pagesFree - |taken|) % TWO32
    && |b.ram| == |a.ram| && forall k :: 0 <= k < |a.ram| && OffPages(taken, k) ==> b.ram[k] == a.ram[k]
  }

  lemma TookTable(a: MemoryState, b: MemoryState, pagedir: nat, dirIndex: nat, taken: seq<nat>, p: nat)
    requires p in a.free && b.free == a.free - {p} && b.pagesFree == (a.pagesFree - 1) % TWO32
    requires taken != [] && pagedir == PageAddr(taken[0]) && dirIndex < 3
    requires TableAdded(a.ram, b.ram, pagedir, dirIndex, PageAddr(p))
    ensures TookOne(a, b, taken + [p], p)
  {
    OffPagesKeeps(taken, p, pagedir / 4 + dirIndex);
  }

  lemma TookFirst(a: MemoryState, b: MemoryState, p: nat)
    requires TookOne(a, b, [p], p)
    ensures TookOnly(a, b, [p])
  {}

  lemma CountDown(c: nat, n: nat)
    ensures ((c - n) % TWO32 - 1) % TWO32 == (c - (n + 1)) % TWO32
  {}

  lemma TookMore(a: MemoryState, b: MemoryState, taken: seq<nat>, p: nat, c: MemoryState)
    requires TookOnly(a, b, taken) && TookOne(b, c, taken + [p], p)
    ensures TookOnly(a, c, taken + [p])
  {
    CountDown(a.pagesFree, |taken|);
    forall k | OffPages(taken + [p], k)
      ensures OffPages(taken, k)
    {
      assert forall j :: 0 <= j < |taken| ==> (taken + [p])[j] == taken[j];
    }
  }

  lemma WalkAll(ram: seq<word>, pagedir: nat, tables: seq<nat>, taken: seq<nat>)
    requires |tables| == 3 && Directory(ram, pagedir, tables)
    requires |taken| == |tables| + 1 && forall q :: q in taken ==> q < 0xF_FF00
    requires forall i :: 0 <= i < |tables| ==> tables[i] == PageAddr(taken[i + 1])
    requires forall i :: 0 <= i < |tables| ==> IdentityTable(ram, tables[i], 1024 * i)
    ensures forall va: nat :: va < TWO32 ==>
              Walk(ram, pagedir, va) == if va < 0xC0_0000 then Mapped(va, true) else Fault
  {
    TablesBelow(tables, taken);
    forall va: nat | va < TWO32
      ensures Walk(ram, pagedir, va) == if va < 0xC0_0000 then Mapped(va, true) else Fault
    {
      WalkIsIdentity(ram, pagedir, tables, va);
    }
  }

  lemma TablesBelow(tables: seq<nat>, taken: seq<nat>)
    requires |taken| == |tables| + 1 && forall q :: q in taken ==> q < 0xF_FF00
    requires forall i :: 0 <= i < |tables| ==> tables[i] == PageAddr(taken[i + 1])
    ensures forall i :: 0 <= i < |tables| ==> tables[i] < TWO32
  {}

  /** The directory and the tables are on different pages. */
  ghost predicate OnPages(pagedir: nat, tables: seq<nat>, taken: seq<nat>)
    requires |taken| == |tables| + 1
  {
    && pagedir == PageAddr(taken[0])
    && (forall i :: 0 <= i < |tables| ==> tables[i] == PageAddr(taken[i + 1]))
    && forall i, j :: 0 <= i < j < |taken| ==> taken[i] != taken[j]
  }

  /** What one round does to memory: a new table on page `p` and one new directory entry. */
  ghost predicate TableAdded(ram: seq<word>, ram': seq<word>, pagedir: nat, dirIndex: nat, addr: nat) {
    && |ram'| == |ram|
    && forall k :: 0 <= k < |ram| ==>
         ram'[k] == if addr / 4 <= k < addr / 4 + 1024 then Entry(1024 * dirIndex + (k - addr / 4))
                    else if k == pagedir / 4 + dirIndex then Entry(addr / 4096)
                    else ram[k]
  }

  lemma StillBuilt(ram: seq<word>, ram': seq<word>, pagedir: nat, tables: seq<nat>, taken: seq<nat>, p: nat)
    requires |taken| == |tables| + 1 <= 3 && OnPages(pagedir, tables, taken)
    requires forall q :: q in taken ==> q < 0xF_FF00
    requires p < 0xF_FF00 && p !in taken && PageAddr(p) / 4 + 1024 <= |ram|
    requires Directory(ram, pagedir, tables)
    requires forall i :: 0 <= i < |tables| ==> IdentityTable(ram, tables[i], 1024 * i)
    requires TableAdded(ram, ram', pagedir, |tables|, PageAddr(p))
    ensures OnPages(pagedir, tables + [PageAddr(p)], taken + [p])
    ensures Directory(ram', pagedir, tables + [PageAddr(p)])
    ensures forall i :: 0 <= i <= |tables| ==> IdentityTable(ram', (tables + [PageAddr(p)])[i], 1024 * i)
  {
    var addr, tables' := PageAddr(p), tables + [PageAddr(p)];
    assert taken[0] in taken;
    PageRange(p);
    PageRange(taken[0]);
    RangesApart(taken[0], p);
    forall i | 0 <= i < |tables|
      ensures IdentityTable(ram', tables[i], 1024 * i)
    {
      assert taken[i + 1] in taken;
      PageRange(taken[i + 1]);
      RangesApart(taken[i + 1], p);
      RangesApart(taken[i + 1], taken[0]);
    }
  }

  lemma PageRange(p: nat)
    requires p < 0xF_FF00
    ensures PageAddr(p) == p * 4096 + ALLOC_START < TWO32 && PageAddr(p) % 4096 == 0
    ensures PageAddr(p) / 4 == p * 1024 + 0x4_0000
  {}

  /** Different pages occupy different words. */
  lemma RangesApart(p: nat, q: nat)
    requires p < 0xF_FF00 && q < 0xF_FF00 && p != q
    ensures PageAddr(p) / 4 + 1024 <= PageAddr(q) / 4 || PageAddr(q) / 4 + 1024 <= PageAddr(p) / 4
  {
    PageRange(p);
    PageRange(q);
  }
}
