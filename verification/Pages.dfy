/** The page free map and every run of page allocations and frees (kernel/kernel/mem.c:96-135). */
module Pages {
  import opened Common

  const ALLOC_START: nat := 0x10_0000
  const PAGE_SIZE: nat := 4096

  // ---------------------------------------------------------------- bits of a free-map cell

  /** A bit number as the bit-vector operations take it. */
  function Index(p: nat): bv5 {
    (p % 32) as bv5
  }

  function Mask(j: bv5): bv32 {
    (1 as bv32) << (j as bv32)
  }

  predicate Bit(c: bv32, j: bv5) {
    c & Mask(j) != 0
  }

  function ClearBit(c: bv32, j: bv5): bv32 {
    c & !Mask(j)
  }

  function SetBit(c: bv32, j: bv5): bv32 {
    c | Mask(j)
  }

  lemma BitIsShift(c: bv32, j: bv5)
    ensures Bit(c, j) <==> (c >> (j as bv32)) & 1 == 1
  {}

  lemma MasksDisjoint(j: bv5, k: bv5)
    requires j != k
    ensures Mask(j) & Mask(k) == 0
  {}

  lemma MaskNonzero(j: bv5)
    ensures Mask(j) != 0
  {}

  lemma AndNotOwn(c: bv32, m: bv32)
    ensures (c & !m) & m == 0
  {}

  lemma AndNotOther(c: bv32, m: bv32, n: bv32)
    requires m & n == 0
    ensures (c & !m) & n == c & n
  {}

  lemma OrOwn(c: bv32, m: bv32)
    ensures (c | m) & m == m
  {}

  lemma OrOther(c: bv32, m: bv32, n: bv32)
    requires m & n == 0
    ensures (c | m) & n == c & n
  {}

  lemma ClearOther(c: bv32, j: bv5, k: bv5)
    requires j != k
    ensures ClearBit(c, j) & Mask(k) == c & Mask(k)
  {
    MasksDisjoint(j, k);
    AndNotOther(c, Mask(j), Mask(k));
  }

  lemma SetOther(c: bv32, j: bv5, k: bv5)
    requires j != k
    ensures SetBit(c, j) & Mask(k) == c & Mask(k)
  {
    MasksDisjoint(j, k);
    OrOther(c, Mask(j), Mask(k));
  }

  lemma BitCleared(c: bv32, j: bv5, k: bv5)
    ensures Bit(ClearBit(c, j), k) == (j != k && Bit(c, k))
  {
    if j == k {
      AndNotOwn(c, Mask(j));
    } else {
      ClearOther(c, j, k);
    }
  }

  lemma BitSet(c: bv32, j: bv5, k: bv5)
    ensures Bit(SetBit(c, j), k) == (j == k || Bit(c, k))
  {
    if j == k {
      OrOwn(c, Mask(j));
      MaskNonzero(j);
    } else {
      SetOther(c, j, k);
    }
  }

  lemma ZeroHasNoBit(j: bv5)
    ensures !Bit(0, j)
  {}

  lemma IndexInjective(a: nat, b: nat)
    requires a < 32 && b < 32 && a != b
    ensures Index(a) != Index(b)
  {
    assert (a as bv5) as nat == a;
    assert (b as bv5) as nat == b;
  }

  // ---------------------------------------------------------------- the free map

  predicate IsFree(cells: seq<bv32>, p: nat) {
    p / 32 < |cells| && Bit(cells[p / 32], Index(p))
  }

  /** Page `p` is bit `p % 32` of cell `p / 32`, counted from the least significant one. */
  lemma FreeBit(cells: seq<bv32>, p: nat)
    requires p / 32 < |cells|
    ensures IsFree(cells, p) <==> (cells[p / 32] >> (Index(p) as bv32)) & 1 == 1
    ensures Index(p) as nat == p % 32
  {
    BitIsShift(cells[p / 32], Index(p));
  }

  /** The set bits of the map. */
  ghost function FreePages(cells: seq<bv32>): set<nat> {
    set p: nat | 0 <= p < 32 * |cells| && IsFree(cells, p)
  }

  lemma FreeBelow(cells: seq<bv32>, p: nat)
    ensures IsFree(cells, p) <==> p in FreePages(cells)
  {}

  function MarkUsed(cells: seq<bv32>, p: nat): seq<bv32>
    requires p / 32 < |cells|
  {
    cells[p / 32 := ClearBit(cells[p / 32], Index(p))]
  }

  function MarkFree(cells: seq<bv32>, p: nat): seq<bv32>
    requires p / 32 < |cells|
  {
    cells[p / 32 := SetBit(cells[p / 32], Index(p))]
  }

  lemma MarkPage(cells: seq<bv32>, p: nat, q: nat)
    requires p / 32 < |cells|
    ensures IsFree(MarkUsed(cells, p), q) <==> q != p && IsFree(cells, q)
    ensures IsFree(MarkFree(cells, p), q) <==> q == p || IsFree(cells, q)
  {
    if q / 32 == p / 32 {
      if q != p {
        IndexInjective(p % 32, q % 32);
      }
      BitCleared(cells[p / 32], Index(p), Index(q));
      BitSet(cells[p / 32], Index(p), Index(q));
    }
  }

  /** Clearing a page's bit takes exactly that page out of the free set; setting it puts it back. */
  lemma MarkPages(cells: seq<bv32>, p: nat)
    requires p / 32 < |cells|
    ensures FreePages(MarkUsed(cells, p)) == FreePages(cells) - {p}
    ensures FreePages(MarkFree(cells, p)) == FreePages(cells) + {p}
  {
    forall q: nat
      ensures q in FreePages(MarkUsed(cells, p)) <==> q in FreePages(cells) - {p}
      ensures q in FreePages(MarkFree(cells, p)) <==> q in FreePages(cells) + {p}
    {
      MarkPage(cells, p, q);
      FreeBelow(cells, q);
      FreeBelow(MarkUsed(cells, p), q);
      FreeBelow(MarkFree(cells, p), q);
    }
  }

  ghost predicate IsLowest(cells: seq<bv32>, p: nat) {
    IsFree(cells, p) && forall q: nat :: q < p ==> !IsFree(cells, q)
  }

  // ---------------------------------------------------------------- addresses

  /** The address of a page: a shift and a sum of 32-bit values. */
  function PageAddr(p: nat): nat {
    (p * PAGE_SIZE % TWO32 + ALLOC_START) % TWO32
  }

  /** A 32-bit value read as a signed one. */
  function Signed(x: nat): int
    requires x < TWO32
  {
    if x < TWO32 / 2 then x else x - TWO32
  }

  /** The page number the free path computes: the pointer difference is signed and shifted
      arithmetically, then stored unsigned. */
  function PageNumber(addr: nat): nat {
    Signed((addr - ALLOC_START) % TWO32) / PAGE_SIZE % TWO32
  }

  /** The free path recovers the page number of an allocated address exactly when the pointer
      difference does not change sign: below 2^19 (and for the last 2^19 numbers of the type, which
      lie outside a 32-bit address space). */
  lemma FreePathRecovers(p: nat)
    requires p < TWO32
    ensures PageNumber(PageAddr(p)) == p <==> p < 0x8_0000 || p >= TWO32 - 0x8_0000
  {
    var m := p % 0x10_0000;
    assert p * PAGE_SIZE % TWO32 == m * PAGE_SIZE by {
      var k := p / 0x10_0000;
      assert p == k * 0x10_0000 + m;
      assert p * PAGE_SIZE == k * TWO32 + m * PAGE_SIZE;
    }
    assert (PageAddr(p) - ALLOC_START) % TWO32 == m * PAGE_SIZE;
    if m < 0x8_0000 {
      assert PageNumber(PageAddr(p)) == m;
    } else {
      assert Signed(m * PAGE_SIZE) / PAGE_SIZE == m - 0x10_0000;
      assert PageNumber(PageAddr(p)) == m - 0x10_0000 + TWO32;
    }
  }

  /** Addresses and page numbers without wrap-around. */
  lemma AddressOf(p: nat)
    ensures p < 0xF_FF00 ==> PageAddr(p) == 0x10_0000 + 4096 * p
    ensures p < 0x8_0000 ==> PageNumber(0x10_0000 + 4096 * p) == p
  {
    if p < 0x8_0000 {
      FreePathRecovers(p);
    }
  }

  /** Below 2^20 different pages have different addresses. */
  lemma AddressesDiffer(p: nat, q: nat)
    requires p < 0x10_0000 && q < 0x10_0000 && p != q
    ensures PageAddr(p) != PageAddr(q)
  {}

  // ---------------------------------------------------------------- runs

  /** The map, the counter of free pages (32 bits), and the pages handed out and not yet freed. */
  datatype State = State(cells: seq<bv32>, pagesFree: nat, held: set<nat>)

  datatype Op = Alloc(p: nat) | Free(p: nat)

  /** memory_free_page of a held page, when the page number it computes lies in the map. */
  predicate FreeHeld(s: State, p: nat, s': State) {
    && p in s.held
    && var n := PageNumber(PageAddr(p));
    && n / 32 < |s.cells|
    && s' == State(MarkFree(s.cells, n), (s.pagesFree + 1) % TWO32, s.held - {p})
  }

  /** memory_alloc_page returns page `p`; memory_free_page gets the address of a held page. */
  ghost predicate Step(s: State, op: Op, s': State) {
    match op
    case Alloc(p) =>
      && IsLowest(s.cells, p)
      && s' == State(MarkUsed(s.cells, p), (s.pagesFree - 1) % TWO32, s.held + {p})
    case Free(p) => p < 0x8_0000 && FreeHeld(s, p, s')
  }

  /** What a state shows once the bits are read as a set. */
  datatype Account = Account(free: set<nat>, held: set<nat>, pagesFree: nat)

  ghost function Read(s: State): Account {
    Account(FreePages(s.cells), s.held, s.pagesFree)
  }

  /** Relative to the account `a0` with which a run began: no page is both held and free, no page is
      gained or lost, and the counter moves with the number of free pages. */
  ghost predicate Balanced(a0: Account, a: Account) {
    && a.held !! a.free
    && a.held + a.free == a0.held + a0.free
    && (a.pagesFree - |a.free|) % TWO32 == (a0.pagesFree - |a0.free|) % TWO32
  }

  lemma CounterMoves(free: int, count: int, d: int)
    ensures ((free + d) % TWO32 - (count + d)) % TWO32 == (free - count) % TWO32
  {}

  /** A step as the account sees it: a page moves from free to held or back. */
  predicate Moves(a: Account, op: Op, a': Account) {
    match op
    case Alloc(p) => p in a.free && a' == Account(a.free - {p}, a.held + {p}, (a.pagesFree - 1) % TWO32)
    case Free(p) => p in a.held && a' == Account(a.free + {p}, a.held - {p}, (a.pagesFree + 1) % TWO32)
  }

  lemma MovesBalanced(a0: Account, a: Account, op: Op, a': Account)
    requires Balanced(a0, a) && Moves(a, op, a')
    ensures Balanced(a0, a')
  {
    match op
    case Alloc(p) => CounterMoves(a.pagesFree, |a.free|, -1);
    case Free(p) => CounterMoves(a.pagesFree, |a.free|, 1);
  }

  /** The bits of the map move exactly the page that is allocated or freed. */
  lemma StepMoves(s: State, op: Op, s': State)
    requires Step(s, op, s')
    ensures Moves(Read(s), op, Read(s'))
  {
    match op
    case Alloc(p) =>
      FreeBelow(s.cells, p);
      MarkPages(s.cells, p);
    case Free(p) =>
      FreePathRecovers(p);
      MarkPages(s.cells, p);
  }

  /** Freeing a held page keeps the balance exactly when the free path recovers its number; otherwise the
      page is lost. */
  lemma FreeBalancedExactly(a0: Account, s: State, p: nat, s': State)
    requires Balanced(a0, Read(s)) && p < TWO32 && FreeHeld(s, p, s')
    ensures Balanced(a0, Read(s')) <==> p < 0x8_0000 || p >= TWO32 - 0x8_0000
  {
    var n := PageNumber(PageAddr(p));
    FreePathRecovers(p);
    MarkPages(s.cells, n);
    if n == p {
      MovesBalanced(a0, Read(s), Free(p), Read(s'));
    } else {
      assert p in a0.held + a0.free && p !in Read(s').held + Read(s').free;
    }
  }

  ghost predicate StepAt(states: seq<State>, ops: seq<Op>, k: nat)
    requires k < |ops| && k + 1 < |states|
  {
    Step(states[k], ops[k], states[k + 1])
  }

  ghost predicate IsRun(states: seq<State>, ops: seq<Op>) {
    && |states| == |ops| + 1
    && states[0].held == {}
    && forall k {:trigger StepAt(states, ops, k)} :: 0 <= k < |ops| ==> StepAt(states, ops, k)
  }

  ghost predicate MovesAt(accounts: seq<Account>, ops: seq<Op>, k: nat)
    requires k < |ops| && k + 1 < |accounts|
  {
    Moves(accounts[k], ops[k], accounts[k + 1])
  }

  lemma {:induction false} AccountsBalanced(accounts: seq<Account>, ops: seq<Op>, k: nat)
    requires |accounts| == |ops| + 1 && k < |accounts| && accounts[0].held == {}
    requires forall i {:trigger MovesAt(accounts, ops, i)} :: 0 <= i < |ops| ==> MovesAt(accounts, ops, i)
    ensures Balanced(accounts[0], accounts[k])
  {
    if k > 0 {
      AccountsBalanced(accounts, ops, k - 1);
      assert MovesAt(accounts, ops, k - 1);
      MovesBalanced(accounts[0], accounts[k - 1], ops[k - 1], accounts[k]);
    }
  }

  ghost function Accounts(states: seq<State>): (r: seq<Account>)
    ensures |r| == |states| && forall i :: 0 <= i < |states| ==> r[i] == Read(states[i])
  {
    seq(|states|, i requires 0 <= i < |states| => Read(states[i]))
  }

  lemma RunMoves(states: seq<State>, ops: seq<Op>)
    requires IsRun(states, ops)
    ensures |Accounts(states)| == |ops| + 1 && Accounts(states)[0].held == {}
    ensures forall i {:trigger MovesAt(Accounts(states), ops, i)} :: 0 <= i < |ops| ==>
              MovesAt(Accounts(states), ops, i)
  {
    forall i | 0 <= i < |ops|
      ensures MovesAt(Accounts(states), ops, i)
    {
      assert StepAt(states, ops, i);
      StepMoves(states[i], ops[i], states[i + 1]);
    }
  }

  /** Every run from any free map. */
  lemma RunBalanced(states: seq<State>, ops: seq<Op>, k: nat)
    requires IsRun(states, ops) && k < |states|
    ensures Balanced(Read(states[0]), Read(states[k]))
  {
    RunMoves(states, ops);
    AccountsBalanced(Accounts(states), ops, k);
  }

  /** A page that is handed out is held by nobody, and no free page has a lower number. Its address,
      if it and the held pages are among the 2^20 pages of the address space, is that of no held page. */
  lemma NeverHandedOutTwice(states: seq<State>, ops: seq<Op>, k: nat)
    requires IsRun(states, ops) && k < |ops| && ops[k].Alloc?
    ensures ops[k].p !in states[k].held && ops[k].p in states[k + 1].held
    ensures forall q: nat :: IsFree(states[k].cells, q) ==> ops[k].p <= q
    ensures forall q: nat :: q in states[k].held && q < 0x10_0000 && ops[k].p < 0x10_0000 ==>
              PageAddr(q) != PageAddr(ops[k].p)
  {
    RunBalanced(states, ops, k);
    assert StepAt(states, ops, k);
    StepMoves(states[k], ops[k], states[k + 1]);
    forall q: nat | q in states[k].held && q < 0x10_0000 && ops[k].p < 0x10_0000
      ensures PageAddr(q) != PageAddr(ops[k].p)
    {
      AddressesDiffer(q, ops[k].p);
    }
  }
}
