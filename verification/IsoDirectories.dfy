/** Directory sectors: readdir and finddir (kernel/kernel/fs/iso9660.c:38-147, 230-267). The record
    format is section 9.1 of ECMA-119. */
module IsoDirectories {
  import opened Common
  import opened IsoFormat

  // ---------------------------------------------------------------- records of a sector

  /** Offsets of the fields in a directory record. */
  const LBA: nat := 2
  const LENGTH: nat := 10
  const FLAGS: nat := 25
  const ID_LENGTH: nat := 32
  const IDENTIFIER: nat := 33

  const FLAG_DIRECTORY: byte := 2

  /** The record at `off` holds its identifier and ends inside the sector. */
  predicate Fits(s: Sector, off: nat) {
    && off + IDENTIFIER < SECTOR
    && IDENTIFIER + s[off + ID_LENGTH] <= s[off]
    && off + s[off] < SECTOR
  }

  /** No byte is left after the identifier: the zero that ends the name falls on the length byte of
      the next record. */
  predicate Tight(s: Sector, off: nat)
    requires Fits(s, off)
  {
    IDENTIFIER + s[off + ID_LENGTH] == s[off]
  }

  /** From `off` on, records that fit, up to a zero length byte. */
  predicate WellFormed(s: Sector, off: nat)
    decreases SECTOR - off
  {
    off < SECTOR && (s[off] == 0 || (Fits(s, off) && WellFormed(s, off + s[off])))
  }

  /** From `off` on, record lengths lead to a zero byte, and what a scan reads on the way, the lengths and
      the first bytes of the identifiers, lies in the sector. */
  predicate StaysInside(s: Sector, off: nat)
    decreases SECTOR - off
  {
    off < SECTOR && (s[off] == 0 || (off + IDENTIFIER < SECTOR && StaysInside(s, off + s[off])))
  }

  /** Where a scan stands after `n` rounds, or None if it has left the sector. */
  function ScanAt(s: Sector, n: nat): (r: Option<nat>)
    ensures r.Some? ==> r.value < SECTOR
  {
    if n == 0 then Some(0)
    else match ScanAt(s, n - 1)
      case None => None
      case Some(o) =>
        if s[o] == 0 then Some(o)
        else if o + IDENTIFIER < SECTOR && o + s[o] < SECTOR then Some(o + s[o])
        else None
  }

  lemma {:induction false} ScanStays(s: Sector, n: nat)
    requires StaysInside(s, 0)
    ensures ScanAt(s, n).Some? && StaysInside(s, ScanAt(s, n).value)
  {
    if n > 0 {
      ScanStays(s, n - 1);
    }
  }

  lemma {:induction false} ScanLeaves(s: Sector, n: nat) returns (m: nat)
    requires ScanAt(s, n).Some? && !StaysInside(s, ScanAt(s, n).value)
    ensures ScanAt(s, m).None?
    decreases SECTOR - ScanAt(s, n).value
  {
    m := n + 1;
    if ScanAt(s, m).Some? {
      m := ScanLeaves(s, m);
    }
  }

  /** A scan to the end of the directory stays in its buffer exactly under this condition; a sector full
      of records to the last byte does not meet it. */
  lemma ScanStaysExactly(s: Sector)
    ensures StaysInside(s, 0) <==> forall n: nat :: ScanAt(s, n).Some?
  {
    if StaysInside(s, 0) {
      forall n: nat
        ensures ScanAt(s, n).Some?
      {
        ScanStays(s, n);
      }
    } else {
      var m := ScanLeaves(s, 0);
    }
  }

  /** Well-formed sectors meet it. */
  lemma {:induction false} WellFormedStays(s: Sector, off: nat)
    requires WellFormed(s, off)
    ensures StaysInside(s, off)
    decreases SECTOR - off
  {
    if s[off] != 0 {
      WellFormedStays(s, off + s[off]);
    }
  }

  ghost predicate AllFit(s: Sector, l: seq<nat>) {
    forall o :: o in l ==> Fits(s, o)
  }

  /** The offsets of the records that are listed: neither the first record of the sector nor one
      whose identifier starts with byte 1. */
  function Listed(s: Sector, off: nat): (r: seq<nat>)
    requires WellFormed(s, off)
    ensures AllFit(s, r)
    decreases SECTOR - off
  {
    if s[off] == 0 then []
    else
      var rest := Listed(s, off + s[off]);
      if off > 0 && s[off + IDENTIFIER] != 1 then [off] + rest else rest
  }

  /** The listed records that finddir gets to see when the name is not found earlier. */
  function Reachable(s: Sector, off: nat): (r: seq<nat>)
    requires WellFormed(s, off)
    ensures r <= Listed(s, off) && AllFit(s, r)
    decreases SECTOR - off
  {
    if s[off] == 0 then []
    else
      var rest := Reachable(s, off + s[off]);
      if off > 0 && s[off + IDENTIFIER] != 1 then if Tight(s, off) then [off] else [off] + rest else rest
  }

  /** The name of the record at `off`. */
  function Name(s: Sector, off: nat): seq<byte>
    requires Fits(s, off)
  {
    CString(s[off + IDENTIFIER..off + IDENTIFIER + s[off + ID_LENGTH]])
  }

  /** The name of the record at position `i` of a list. */
  function NameAt(s: Sector, l: seq<nat>, i: nat): Option<seq<byte>>
    requires AllFit(s, l)
  {
    if l == [] then None
    else if i == 0 then Some(Name(s, l[0]))
    else
      assert forall o :: o in l[1..] ==> o in l;
      NameAt(s, l[1..], i - 1)
  }

  lemma {:induction false} NameAtIndex(s: Sector, l: seq<nat>, i: nat)
    requires AllFit(s, l)
    ensures NameAt(s, l, i) == if i < |l| then Some(Name(s, l[i])) else None
  {
    if l != [] && i > 0 {
      assert forall o :: o in l[1..] ==> o in l;
      NameAtIndex(s, l[1..], i - 1);
    }
  }

  /** The name readdir lists at index `i`. */
  function Readdir(s: Sector, i: nat): Option<seq<byte>>
    requires WellFormed(s, 0)
  {
    NameAt(s, Listed(s, 0), i)
  }

  /** The first record of a list with a given name. */
  function FindIn(s: Sector, l: seq<nat>, name: seq<byte>): (r: Option<nat>)
    requires AllFit(s, l)
    ensures r.Some? ==> r.value in l && Name(s, r.value) == name
  {
    if l == [] then None
    else if Name(s, l[0]) == name then Some(l[0])
    else
      assert forall o :: o in l[1..] ==> o in l;
      FindIn(s, l[1..], name)
  }

  /** The record that finddir opens, by its offset. */
  function Finddir(s: Sector, name: seq<byte>): Option<nat>
    requires WellFormed(s, 0)
  {
    FindIn(s, Reachable(s, 0), name)
  }

  /** Position `i` is the first one of the list with the name. */
  ghost predicate FirstAt(s: Sector, l: seq<nat>, name: seq<byte>, i: nat)
    requires AllFit(s, l)
  {
    NameAt(s, l, i) == Some(name) && forall j: nat :: j < i ==> NameAt(s, l, j) != Some(name)
  }

  lemma {:induction false} FindInIsFirst(s: Sector, l: seq<nat>, name: seq<byte>) returns (i: nat)
    requires AllFit(s, l)
    ensures FindIn(s, l, name).None? ==> forall j: nat :: NameAt(s, l, j) != Some(name)
    ensures FindIn(s, l, name).Some? ==> i < |l| && FindIn(s, l, name) == Some(l[i]) && FirstAt(s, l, name, i)
  {
    i := 0;
    if l != [] && Name(s, l[0]) != name {
      assert forall o :: o in l[1..] ==> o in l;
      i := FindInIsFirst(s, l[1..], name);
      forall j: nat
        ensures NameAt(s, l, j) == if j == 0 then Some(Name(s, l[0])) else NameAt(s, l[1..], j - 1)
      {}
      i := i + 1;
    }
  }

  /** What is listed at an index does not depend on what follows. */
  lemma NameAtPrefix(s: Sector, l: seq<nat>, l': seq<nat>, i: nat)
    requires AllFit(s, l) && AllFit(s, l') && l <= l' && i < |l|
    ensures NameAt(s, l, i) == NameAt(s, l', i)
  {
    NameAtIndex(s, l, i);
    NameAtIndex(s, l', i);
  }

  /** finddir finds a name exactly when readdir lists it at the index of a reachable record, and then
      it opens the record of the first index at which readdir lists it. */
  lemma FinddirFindsReachable(s: Sector, name: seq<byte>)
    requires WellFormed(s, 0)
    ensures Finddir(s, name).Some? <==> exists i: nat :: i < |Reachable(s, 0)| && Readdir(s, i) == Some(name)
    ensures Finddir(s, name).Some? ==>
              exists i: nat :: i < |Listed(s, 0)| && Finddir(s, name) == Some(Listed(s, 0)[i])
                && FirstAt(s, Listed(s, 0), name, i)
  {
    var l, r := Listed(s, 0), Reachable(s, 0);
    forall i: nat | i < |r|
      ensures Readdir(s, i) == NameAt(s, l, i) == NameAt(s, r, i)
    {
      NameAtPrefix(s, r, l, i);
    }
    var i := FindInIsFirst(s, r, name);
    assert Finddir(s, name).Some? ==> Readdir(s, i) == Some(name) && FirstAt(s, l, name, i);
  }

  /** Every name that readdir lists, it lists already at the index of a reachable record. */
  ghost predicate NoNameLost(s: Sector)
    requires WellFormed(s, 0)
  {
    forall k: nat :: k < |Listed(s, 0)| ==> ListedReachably(s, Readdir(s, k))
  }

  ghost predicate ListedReachably(s: Sector, entry: Option<seq<byte>>)
    requires WellFormed(s, 0)
  {
    exists j: nat :: j < |Reachable(s, 0)| && Readdir(s, j) == entry
  }

  ghost predicate ListedAnywhere(s: Sector, name: seq<byte>)
    requires WellFormed(s, 0)
  {
    exists i: nat :: Readdir(s, i) == Some(name)
  }

  ghost predicate AgreeOn(s: Sector, name: seq<byte>)
    requires WellFormed(s, 0)
  {
    Finddir(s, name).Some? <==> ListedAnywhere(s, name)
  }

  /** finddir and readdir agree on all names exactly when no listed name is lost. */
  lemma AgreeExactly(s: Sector)
    requires WellFormed(s, 0)
    ensures (forall name :: AgreeOn(s, name)) <==> NoNameLost(s)
  {
    forall name
      ensures Finddir(s, name).Some? <==> ListedReachably(s, Some(name))
      ensures ListedReachably(s, Some(name)) ==> ListedAnywhere(s, name)
    {
      FinddirFindsReachable(s, name);
    }
    forall k: nat
      ensures Readdir(s, k).Some? <==> k < |Listed(s, 0)|
    {
      NameAtIndex(s, Listed(s, 0), k);
    }
    if forall name :: AgreeOn(s, name) {
      forall k: nat | k < |Listed(s, 0)|
        ensures ListedReachably(s, Readdir(s, k))
      {
        var name := Readdir(s, k).value;
        assert ListedAnywhere(s, name) && AgreeOn(s, name);
      }
    } else {
      var name :| !AgreeOn(s, name);
      var k: nat :| Readdir(s, k) == Some(name);
      assert !ListedReachably(s, Readdir(s, k));
    }
  }

  /** Only the last listed record may be without a byte to spare. */
  predicate Roomy(s: Sector, l: seq<nat>)
    requires AllFit(s, l)
  {
    forall i :: 0 <= i < |l| - 1 ==> !Tight(s, l[i])
  }

  /** Nothing is hidden exactly when no listed record but the last is without a byte to spare. */
  lemma {:induction false} ReachableIsListed(s: Sector, off: nat)
    requires WellFormed(s, off)
    ensures Reachable(s, off) == Listed(s, off) <==> Roomy(s, Listed(s, off))
    decreases SECTOR - off
  {
    if s[off] != 0 {
      ReachableIsListed(s, off + s[off]);
      var l, rest := Listed(s, off), Listed(s, off + s[off]);
      if l == [off] + rest {
        assert forall i :: 0 <= i < |rest| ==> l[i + 1] == rest[i];
        assert rest != [] ==> l[0] == off;
        assert forall i :: 0 < i < |l| - 1 ==> l[i] == rest[i - 1];
      }
    }
  }

  /** In a directory sector in which every listed record, except perhaps the last, has a byte to
      spare, finddir finds a name exactly when readdir lists it at some index, and it opens the record
      of the first such index. */
  lemma FinddirAgreesWithReaddir(s: Sector, name: seq<byte>)
    requires WellFormed(s, 0) && Roomy(s, Listed(s, 0))
    ensures Finddir(s, name).Some? <==> exists i: nat :: Readdir(s, i) == Some(name)
    ensures Finddir(s, name).Some? ==>
              exists i: nat :: i < |Listed(s, 0)| && Finddir(s, name) == Some(Listed(s, 0)[i])
                && Readdir(s, i) == Some(name)
                && forall j: nat :: j < i ==> Readdir(s, j) != Some(name)
  {
    ReachableIsListed(s, 0);
    var i := FindInIsFirst(s, Listed(s, 0), name);
    assert Readdir(s, i) == NameAt(s, Listed(s, 0), i);
  }

  /** A sector with three records of the least length: the directory itself, "A" and "B". */
  function TwoFiles(): Sector {
    seq(SECTOR, i => if i == 0 || i == 34 || i == 68 then 34
                     else if i == 32 || i == 66 || i == 100 then 1
                     else if i == 67 then 65 else if i == 101 then 66 else 0)
  }

  /** There readdir lists "B", but finddir does not find it: looking at "A" has overwritten the
      length of the record of "B". */
  lemma HiddenEntry()
    ensures var s := TwoFiles();
            WellFormed(s, 0) && Readdir(s, 0) == Some([65]) && Readdir(s, 1) == Some([66])
            && Finddir(s, [65]) == Some(34) && Finddir(s, [66]) == None
  {
    var s := TwoFiles();
    assert WellFormed(s, 102) && Listed(s, 102) == [];
    assert WellFormed(s, 68) && Listed(s, 68) == [68];
    assert WellFormed(s, 34) && Listed(s, 34) == [34, 68] && Reachable(s, 34) == [34];
    assert WellFormed(s, 0) && Listed(s, 0) == [34, 68] && Reachable(s, 0) == [34];
    assert s[67..68] == [65] && s[101..102] == [66];
    CStringIs([65], [65]);
    CStringIs([66], [66]);
    NameAtIndex(s, [34, 68], 0);
    NameAtIndex(s, [34, 68], 1);
  }

  // ---------------------------------------------------------------- nodes

  /** Which function a node is recreated with: iso9660_recreate or some other one. */
  datatype Handler = IsoRecreate | OtherRecreate(id: nat)

  /** fs_node_mini_t: what a node remembers about its parent. */
  datatype Mini = Mini(inode: nat, impl: nat, recreate: Handler)

  /** The fields of fs_node_t that the directory code fills in. */
  datatype Node = Node(name: seq<byte>, isDirectory: bool, length: nat, inode: nat, impl: nat,
                       recreate: Handler, parent: Mini)

  /** iso9660_entry_to_node_mini on the record at `off`. */
  function EntryToNode(s: Sector, off: nat, impl: nat, parent: Mini): Node
    requires off + IDENTIFIER <= SECTOR && off + IDENTIFIER + s[off + ID_LENGTH] <= SECTOR
  {
    Node(CString(s[off + IDENTIFIER..off + IDENTIFIER + s[off + ID_LENGTH]]),
         s[off + FLAGS] / FLAG_DIRECTORY % 2 == 1,
         U32(s, off + LENGTH), U32(s, off + LBA), impl, IsoRecreate, parent)
  }

  /** `n` has the fields of the record at `off`, at the offsets of section 9.1 of ECMA-119. */
  predicate Describes(n: Node, s: Sector, off: nat) {
    && off + 33 <= SECTOR && off + 33 + s[off + 32] <= SECTOR
    && n.name == CString(s[off + 33..off + 33 + s[off + 32]])
    && n.isDirectory == (s[off + 25] / 2 % 2 == 1)
    && n.length == U32(s, off + 10)
    && n.inode == U32(s, off + 2)
  }

  lemma EntryDescribed(s: Sector, off: nat, impl: nat, parent: Mini)
    requires off + IDENTIFIER <= SECTOR && off + IDENTIFIER + s[off + ID_LENGTH] <= SECTOR
    ensures var n := EntryToNode(s, off, impl, parent);
            Describes(n, s, off) && n.impl == impl && n.recreate == IsoRecreate && n.parent == parent
  {}
}
