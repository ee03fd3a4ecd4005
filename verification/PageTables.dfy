/** Page directory and page table entries and the two-level walk of 32-bit paging (kernel/include/
    kernel/mem.h:42-79; section 4.3 of the Intel SDM, volume 3A). */
module PageTables {
  import opened Common
  import opened Pages

  type word = x: int | 0 <= x < TWO32

  // ---------------------------------------------------------------- fields of an entry

  predicate Present(w: word) { w % 2 == 1 }
  predicate ReadWrite(w: word) { w / 2 % 2 == 1 }
  predicate PageSizeBit(w: word) { w / 128 % 2 == 1 }
  function Frame(w: word): nat { w / 4096 }

  /** Storing 1 in the present bit, 1 in the read/write bit, and a number in the 20 address bits. */
  function SetPresent(w: word): word { if Present(w) then w else w + 1 }
  function SetReadWrite(w: word): word { if ReadWrite(w) then w else w + 2 }
  function SetFrame(w: word, frame: nat): word { w % 4096 + frame % 0x10_0000 * 4096 }

  /** The entry that results from filling a zeroed one. */
  function Entry(frame: nat): word {
    SetFrame(SetReadWrite(SetPresent(0)), frame)
  }

  lemma EntryFields(frame: nat)
    requires frame < 0x10_0000
    ensures Present(Entry(frame)) && ReadWrite(Entry(frame)) && !PageSizeBit(Entry(frame))
    ensures Frame(Entry(frame)) == frame
  {
    var w := Entry(frame);
    assert w == 3 + frame * 4096;
    assert w / 2 == 1 + frame * 2048;
    assert w / 128 == frame * 32;
  }

  /** Its value: present, writable, and the number of the frame from bit 12 on. */
  lemma EntryValue(frame: nat)
    requires frame < 0x10_0000
    ensures Entry(frame) == 4096 * frame + 3
  {}

  // ---------------------------------------------------------------- the walk

  /** A word of physical memory; nothing is mapped by memory that is not there. */
  function WordAt(ram: seq<word>, addr: nat): word {
    if addr / 4 < |ram| then ram[addr / 4] else 0
  }

  datatype Translation = Fault | Mapped(addr: nat, writable: bool)

  /** What the processor makes of linear address `va` with page directory `pagedir`. */
  function Walk(ram: seq<word>, pagedir: nat, va: nat): Translation {
    var pde := WordAt(ram, pagedir + 4 * (va / 0x40_0000));
    if !Present(pde) then Fault
    else if PageSizeBit(pde) then Mapped(Frame(pde) / 1024 * 0x40_0000 + va % 0x40_0000, ReadWrite(pde))
    else
      var pte := WordAt(ram, Frame(pde) * 4096 + 4 * (va / 4096 % 1024));
      if !Present(pte) then Fault
      else Mapped(Frame(pte) * 4096 + va % 4096, ReadWrite(pde) && ReadWrite(pte))
  }

  // ---------------------------------------------------------------- the tables paging_init builds

  /** The page at `addr` holds a table whose entries map 4 MB from frame `first` on to themselves. */
  ghost predicate IdentityTable(ram: seq<word>, addr: nat, first: nat) {
    && addr % 4096 == 0 && addr / 4 + 1024 <= |ram|
    && forall k :: addr / 4 <= k < addr / 4 + 1024 ==> ram[k] == Entry(first + (k - addr / 4))
  }

  function DirectoryWord(tables: seq<nat>, i: nat): word {
    if i < |tables| then Entry(tables[i] / 4096) else 0
  }

  /** The page at `addr` holds a directory with the given tables and no other entries. */
  ghost predicate Directory(ram: seq<word>, addr: nat, tables: seq<nat>) {
    && addr % 4096 == 0 && addr / 4 + 1024 <= |ram| && |tables| <= 1024
    && forall k :: addr / 4 <= k < addr / 4 + 1024 ==> ram[k] == DirectoryWord(tables, k - addr / 4)
  }

  lemma DirectoryEntry(ram: seq<word>, pagedir: nat, tables: seq<nat>, i: nat)
    requires Directory(ram, pagedir, tables) && i < 1024
    ensures WordAt(ram, pagedir + 4 * i) == DirectoryWord(tables, i)
  {
    assert (pagedir + 4 * i) / 4 == pagedir / 4 + i;
  }

  lemma TableEntry(ram: seq<word>, addr: nat, first: nat, i: nat)
    requires IdentityTable(ram, addr, first) && i < 1024
    ensures WordAt(ram, addr + 4 * i) == Entry(first + i)
  {
    assert (addr + 4 * i) / 4 == addr / 4 + i;
  }

  /** The same word, from the frame number that a directory entry holds. */
  lemma TableWord(ram: seq<word>, addr: nat, first: nat, i: nat)
    requires IdentityTable(ram, addr, first) && i < 1024
    ensures WordAt(ram, addr / 4096 * 4096 + 4 * i) == Entry(first + i)
  {
    TableEntry(ram, addr, first, i);
  }

  lemma WalkThrough(ram: seq<word>, pagedir: nat, va: nat, pde: word, pte: word, t: nat, frame: nat)
    requires Present(pde) && ReadWrite(pde) && !PageSizeBit(pde) && Present(pte) && ReadWrite(pte)
    requires Frame(pde) == t && Frame(pte) == frame
    requires WordAt(ram, pagedir + 4 * (va / 0x40_0000)) == pde
    requires WordAt(ram, t * 4096 + 4 * (va / 4096 % 1024)) == pte
    ensures Walk(ram, pagedir, va) == Mapped(frame * 4096 + va % 4096, true)
  {}

  lemma SplitAddress(va: nat, i: nat, j: nat)
    requires i == va / 0x40_0000 && j == va / 4096 % 1024
    ensures 1024 * i + j == va / 4096 && (1024 * i + j) * 4096 + va % 4096 == va
  {
    assert va / 4096 / 1024 == i;
  }

  lemma WalkTable(ram: seq<word>, pagedir: nat, tables: seq<nat>, i: nat, j: nat, va: nat)
    requires i == va / 0x40_0000 && j == va / 4096 % 1024 && i < |tables| <= 1024
    requires Directory(ram, pagedir, tables)
    requires tables[i] < TWO32 && IdentityTable(ram, tables[i], 1024 * i)
    requires 1024 * i + j < 0x10_0000
    ensures Walk(ram, pagedir, va) == Mapped((1024 * i + j) * 4096 + va % 4096, true)
  {
    var t := tables[i] / 4096;
    DirectoryEntry(ram, pagedir, tables, i);
    TableWord(ram, tables[i], 1024 * i, j);
    EntryFields(t);
    EntryFields(1024 * i + j);
    WalkThrough(ram, pagedir, va, Entry(t), Entry(1024 * i + j), t, 1024 * i + j);
  }

  /** With such tables the walk maps every address below 12 MB to itself, present and writable, and
      finds nothing for any other address. */
  lemma WalkIsIdentity(ram: seq<word>, pagedir: nat, tables: seq<nat>, va: nat)
    requires va < TWO32 && |tables| == 3 && Directory(ram, pagedir, tables)
    requires forall i :: 0 <= i < 3 ==> tables[i] < TWO32 && IdentityTable(ram, tables[i], 1024 * i)
    ensures Walk(ram, pagedir, va) == if va < 0xC0_0000 then Mapped(va, true) else Fault
  {
    var i, j := va / 0x40_0000, va / 4096 % 1024;
    if i < 3 {
      SplitAddress(va, i, j);
      WalkTable(ram, pagedir, tables, i, j, va);
    } else {
      DirectoryEntry(ram, pagedir, tables, i);
    }
  }
}
