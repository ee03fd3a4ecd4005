/** Directories written from records: what readdir lists, what finddir opens and what recreate returns, in
    terms of the records (section 9.1 of ECMA-119; kernel/include/kernel/fs/iso9660.h:101-120). */
module IsoRecords {
  import opened Common
  import opened IsoFormat
  import opened IsoDirectories
  import opened IsoCode
  import IsoPathTable

  // ---------------------------------------------------------------- records and their bytes

  datatype DirRecord = DirRecord(ext: byte, lba: nat, length: nat, date: seq<byte>, flags: byte, unit: byte,
                                 gap: byte, volume: nat, id: seq<byte>, system: seq<byte>)

  predicate Valid(r: DirRecord) {
    && r.lba < TWO32 && r.length < TWO32 && r.volume < 65536 && |r.date| == 7
    && r.id != [] && 33 + |r.id| + |r.system| < 256
  }

  function Be16(x: nat): (s: seq<byte>)
    requires x < 65536
    ensures |s| == 2
  {
    [x / 256, x % 256]
  }

  function Be32(x: nat): (s: seq<byte>)
    requires x < TWO32
    ensures |s| == 4
  {
    Be16(x / 65536) + Be16(x % 65536)
  }

  function Size(r: DirRecord): nat {
    33 + |r.id| + |r.system|
  }

  /** Length and location: the first 10 bytes. */
  function Start(r: DirRecord): (s: seq<byte>)
    requires Valid(r)
    ensures |s| == 10
  {
    var n: byte := Size(r);
    [n, r.ext] + Le32(r.lba) + Be32(r.lba)
  }

  /** Length of the file and date: the next 15. */
  function Extent(r: DirRecord): (s: seq<byte>)
    requires Valid(r)
    ensures |s| == 15
  {
    Le32(r.length) + Be32(r.length) + r.date
  }

  /** Flags, interleaving, volume and the length of the identifier: the next 8. */
  function Flags(r: DirRecord): (s: seq<byte>)
    requires Valid(r)
    ensures |s| == 8
  {
    var n: byte := |r.id|;
    [r.flags, r.unit, r.gap] + Le16(r.volume) + Be16(r.volume) + [n]
  }

  function Encode(r: DirRecord): (s: seq<byte>)
    requires Valid(r)
    ensures |s| == Size(r)
  {
    Start(r) + Extent(r) + Flags(r) + r.id + r.system
  }

  lemma PartsOf(r: DirRecord)
    requires Valid(r)
    ensures var s := Encode(r);
            && s[..10] == Start(r) && s[10..25] == Extent(r) && s[25..33] == Flags(r)
            && s[33..33 + |r.id|] == r.id
  {
    var s, a, b, c := Encode(r), Start(r), Extent(r), Flags(r);
    assert forall k :: 0 <= k < 15 ==> s[10..25][k] == b[k];
    assert forall k :: 0 <= k < 8 ==> s[25..33][k] == c[k];
    assert forall k :: 0 <= k < |r.id| ==> s[33..33 + |r.id|][k] == r.id[k];
  }

  /** The fields read back from the bytes. */
  lemma DecodeEncode(r: DirRecord)
    requires Valid(r)
    ensures var s := Encode(r);
            && s[0] == Size(r) && U32(s, 2) == r.lba && U32(s, 10) == r.length
            && s[25] == r.flags && s[32] == |r.id| && s[33..33 + |r.id|] == r.id
  {
    var s := Encode(r);
    PartsOf(r);
    Le32RoundTrip(r.lba);
    Le32RoundTrip(r.length);
    assert s[..10][2..6] == s[2..6] == Le32(r.lba) && s[10..25][..4] == s[10..14] == Le32(r.length);
    assert U32(s, 2) == U32(s[2..6], 0) && U32(s, 10) == U32(s[10..14], 0);
    assert s[0] == s[..10][0] && s[25] == s[25..33][0] && s[32] == s[25..33][7];
  }

  // ---------------------------------------------------------------- directories

  predicate AllValid(recs: seq<DirRecord>) {
    forall i :: 0 <= i < |recs| ==> Valid(recs[i])
  }

  /** From `off` on the sector holds these records and then a zero byte. */
  ghost predicate Holds(s: Sector, off: nat, recs: seq<DirRecord>)
    requires AllValid(recs)
    decreases |recs|
  {
    if recs == [] then off < SECTOR && s[off] == 0
    else
      var next := off + Size(recs[0]);
      next < SECTOR && s[off..next] == Encode(recs[0]) && Holds(s, next, recs[1..])
  }

  /** The fields of the record at `off`, at the offsets of the code. */
  lemma FieldsAt(s: Sector, off: nat, r: DirRecord)
    requires Valid(r) && off + Size(r) < SECTOR && s[off..off + Size(r)] == Encode(r)
    ensures s[off] == Size(r) > 0 && Fits(s, off) && s[off + 32] == |r.id|
    ensures s[off + 33] == r.id[0] && s[off + 33..off + 33 + |r.id|] == r.id && Name(s, off) == CString(r.id)
    ensures Tight(s, off) <==> r.system == []
    ensures U32(s, off + 2) == r.lba && U32(s, off + 10) == r.length && s[off + 25] == r.flags
  {
    var e := Encode(r);
    DecodeEncode(r);
    SliceFields(s, off, e, |r.id|);
    assert r.id[0] == e[33..33 + |r.id|][0];
  }

  lemma PartOfSlice(s: seq<byte>, off: nat, e: seq<byte>, a: nat, b: nat)
    requires a < b <= |e| && off + |e| <= |s| && s[off..off + |e|] == e
    ensures s[off + a] == e[a] && s[off + a..off + b] == e[a..b]
  {
    forall k | 0 <= k < b - a
      ensures s[off + a..off + b][k] == e[a..b][k]
    {
      assert e[a + k] == s[off..off + |e|][a + k];
    }
    assert e[a] == s[off..off + |e|][a];
  }

  lemma NumberInSlice(s: seq<byte>, off: nat, e: seq<byte>, a: nat)
    requires a + 4 <= |e| && off + |e| <= |s| && s[off..off + |e|] == e
    ensures U32(s, off + a) == U32(e, a)
  {
    PartOfSlice(s, off, e, a, a + 4);
    assert U32(s, off + a) == U32(s[off + a..off + a + 4], 0) && U32(e, a) == U32(e[a..a + 4], 0);
  }

  lemma SliceFields(s: seq<byte>, off: nat, e: seq<byte>, n: nat)
    requires 33 + n <= |e| && n > 0 && off + |e| <= |s| && s[off..off + |e|] == e
    ensures s[off] == e[0] && s[off + 25] == e[25] && s[off + 32] == e[32] && s[off + 33] == e[33]
    ensures U32(s, off + 2) == U32(e, 2) && U32(s, off + 10) == U32(e, 10)
    ensures s[off + 33..off + 33 + n] == e[33..33 + n]
  {
    PartOfSlice(s, off, e, 0, 1);
    PartOfSlice(s, off, e, 25, 26);
    PartOfSlice(s, off, e, 32, 33);
    PartOfSlice(s, off, e, 33, 33 + n);
    NumberInSlice(s, off, e, 2);
    NumberInSlice(s, off, e, 10);
  }

  lemma {:induction false} HoldsWellFormed(s: Sector, off: nat, recs: seq<DirRecord>)
    requires AllValid(recs) && Holds(s, off, recs)
    ensures WellFormed(s, off)
    decreases |recs|
  {
    if recs != [] {
      FieldsAt(s, off, recs[0]);
      HoldsWellFormed(s, off + Size(recs[0]), recs[1..]);
    }
  }

  // ---------------------------------------------------------------- the three functions on records

  /** The records that are listed: those whose identifier does not start with byte 1. */
  function Plain(recs: seq<DirRecord>): (r: seq<DirRecord>)
    requires AllValid(recs)
    ensures AllValid(r)
  {
    if recs == [] then []
    else (if recs[0].id[0] != 1 then [recs[0]] else []) + Plain(recs[1..])
  }

  /** The first record with a name, unless an earlier one hides it. */
  function FirstNamed(recs: seq<DirRecord>, name: seq<byte>): Option<DirRecord> {
    if recs == [] then None
    else if CString(recs[0].id) == name then Some(recs[0])
    else if recs[0].system == [] then None
    else FirstNamed(recs[1..], name)
  }

  function NodeOf(r: DirRecord, impl: nat, parent: Mini): Node {
    Node(CString(r.id), r.flags / 2 % 2 == 1, r.length, r.lba, impl, IsoRecreate, parent)
  }

  lemma EntryIsNode(s: Sector, off: nat, r: DirRecord, impl: nat, parent: Mini)
    requires Valid(r) && off + Size(r) < SECTOR && s[off..off + Size(r)] == Encode(r)
    ensures EntryToNode(s, off, impl, parent) == NodeOf(r, impl, parent)
  {
    FieldsAt(s, off, r);
  }

  lemma OverRecord(s: Sector, off: nat, recs: seq<DirRecord>, i: nat)
    requires off > 0 && AllValid(recs) && recs != [] && Holds(s, off, recs)
    ensures var r, next := recs[0], off + Size(recs[0]);
            && WellFormed(s, off) && WellFormed(s, next)
            && NameAt(s, Listed(s, off), i) ==
               if r.id[0] == 1 then NameAt(s, Listed(s, next), i)
               else if i == 0 then Some(CString(r.id))
               else NameAt(s, Listed(s, next), i - 1)
  {
    FieldsAt(s, off, recs[0]);
    HoldsWellFormed(s, off + Size(recs[0]), recs[1..]);
    CountOver(s, off, i);
  }

  /** The name of record `i` of a list. */
  function NameOf(recs: seq<DirRecord>, i: nat): Option<seq<byte>> {
    if i < |recs| then Some(CString(recs[i].id)) else None
  }

  lemma PlainStep(recs: seq<DirRecord>, i: nat)
    requires AllValid(recs) && recs != []
    ensures NameOf(Plain(recs), i) ==
            if recs[0].id[0] == 1 then NameOf(Plain(recs[1..]), i)
            else if i == 0 then Some(CString(recs[0].id))
            else NameOf(Plain(recs[1..]), i - 1)
  {
    var first := if recs[0].id[0] != 1 then [recs[0]] else [];
    assert Plain(recs) == first + Plain(recs[1..]);
  }

  lemma NextHolds(s: Sector, off: nat, recs: seq<DirRecord>)
    requires AllValid(recs) && recs != [] && Holds(s, off, recs)
    ensures AllValid(recs[1..]) && Holds(s, off + Size(recs[0]), recs[1..])
    ensures WellFormed(s, off) && WellFormed(s, off + Size(recs[0]))
  {
    HoldsWellFormed(s, off, recs);
    HoldsWellFormed(s, off + Size(recs[0]), recs[1..]);
  }

  /** The name that readdir lists at index `i` from `off` on is that of the listed record. */
  ghost predicate ListsName(s: Sector, off: nat, recs: seq<DirRecord>, i: nat)
    requires AllValid(recs) && WellFormed(s, off)
  {
    NameAt(s, Listed(s, off), i) == NameOf(Plain(recs), i)
  }

  lemma ListsStep(s: Sector, off: nat, recs: seq<DirRecord>, next: nat, i: nat)
    requires off > 0 && AllValid(recs) && recs != [] && Holds(s, off, recs) && next == off + Size(recs[0])
    requires WellFormed(s, off) && WellFormed(s, next)
    requires ListsName(s, next, recs[1..], i) && (i > 0 ==> ListsName(s, next, recs[1..], i - 1))
    ensures ListsName(s, off, recs, i)
  {
    OverRecord(s, off, recs, i);
    PlainStep(recs, i);
  }

  lemma {:induction false} ListsPlain(s: Sector, off: nat, recs: seq<DirRecord>, i: nat)
    requires off > 0 && AllValid(recs) && Holds(s, off, recs) && WellFormed(s, off)
    ensures ListsName(s, off, recs, i)
    decreases |recs|
  {
    if recs != [] {
      var next := off + Size(recs[0]);
      NextHolds(s, off, recs);
      ListsPlain(s, next, recs[1..], i);
      if i > 0 {
        ListsPlain(s, next, recs[1..], i - 1);
      }
      ListsStep(s, off, recs, next, i);
    }
  }

  /** readdir lists the names of the records behind the first, in order. */
  lemma ReaddirOnRecords(s: Sector, recs: seq<DirRecord>, i: nat)
    requires AllValid(recs) && recs != [] && Holds(s, 0, recs)
    ensures WellFormed(s, 0)
    ensures Readdir(s, i) == NameOf(Plain(recs[1..]), i)
  {
    HoldsWellFormed(s, 0, recs);
    FieldsAt(s, 0, recs[0]);
    CountOver(s, 0, i);
    HoldsWellFormed(s, Size(recs[0]), recs[1..]);
    ListsPlain(s, Size(recs[0]), recs[1..], i);
  }

  /** What finddir makes of what it finds. */
  ghost predicate Finds(s: Sector, o: Option<nat>, r: Option<DirRecord>, impl: nat, parent: Mini) {
    match o
    case None => r == None
    case Some(p) => r.Some? && Fits(s, p) && EntryToNode(s, p, impl, parent) == NodeOf(r.value, impl, parent)
  }

  lemma PastRecord(s: Sector, off: nat, recs: seq<DirRecord>, name: seq<byte>)
    requires off > 0 && AllValid(recs) && recs != [] && Holds(s, off, recs)
    ensures var r, next := recs[0], off + Size(recs[0]);
            && WellFormed(s, off) && WellFormed(s, next) && Fits(s, off)
            && FindIn(s, Reachable(s, off), name) ==
               if r.id[0] == 1 then FindIn(s, Reachable(s, next), name)
               else if CString(r.id) == name then Some(off)
               else if r.system == [] then None
               else FindIn(s, Reachable(s, next), name)
  {
    FieldsAt(s, off, recs[0]);
    HoldsWellFormed(s, off + Size(recs[0]), recs[1..]);
    LookOver(s, off, name);
  }

  lemma FirstStep(recs: seq<DirRecord>, name: seq<byte>)
    requires AllValid(recs) && recs != []
    ensures FirstNamed(Plain(recs), name) ==
            if recs[0].id[0] == 1 then FirstNamed(Plain(recs[1..]), name)
            else if CString(recs[0].id) == name then Some(recs[0])
            else if recs[0].system == [] then None
            else FirstNamed(Plain(recs[1..]), name)
  {
    if recs[0].id[0] != 1 {
      assert Plain(recs)[0] == recs[0] && Plain(recs)[1..] == Plain(recs[1..]);
    } else {
      assert Plain(recs) == Plain(recs[1..]);
    }
  }

  /** The record that finddir opens from `off` on is the first with the name. */
  ghost predicate FindsNamed(s: Sector, off: nat, recs: seq<DirRecord>, name: seq<byte>, impl: nat, parent: Mini)
    requires AllValid(recs) && WellFormed(s, off)
  {
    Finds(s, FindIn(s, Reachable(s, off), name), FirstNamed(Plain(recs), name), impl, parent)
  }

  lemma FindsStep(s: Sector, off: nat, recs: seq<DirRecord>, next: nat, name: seq<byte>, impl: nat, parent: Mini)
    requires off > 0 && AllValid(recs) && recs != [] && Holds(s, off, recs) && next == off + Size(recs[0])
    requires WellFormed(s, off) && WellFormed(s, next) && FindsNamed(s, next, recs[1..], name, impl, parent)
    ensures FindsNamed(s, off, recs, name, impl, parent)
  {
    PastRecord(s, off, recs, name);
    FirstStep(recs, name);
    EntryIsNode(s, off, recs[0], impl, parent);
  }

  lemma {:induction false} FindsFirst(s: Sector, off: nat, recs: seq<DirRecord>, name: seq<byte>,
                                      impl: nat, parent: Mini)
    requires off > 0 && AllValid(recs) && Holds(s, off, recs) && WellFormed(s, off)
    ensures FindsNamed(s, off, recs, name, impl, parent)
    decreases |recs|
  {
    if recs != [] {
      var next := off + Size(recs[0]);
      NextHolds(s, off, recs);
      FindsFirst(s, next, recs[1..], name, impl, parent);
      FindsStep(s, off, recs, next, name, impl, parent);
    }
  }

  /** finddir opens the first record with the name, with all its fields, unless an earlier record without
      system use bytes hides it. */
  lemma FinddirOnRecords(fs: Filesystem, dir: Node, recs: seq<DirRecord>, name: seq<byte>)
    requires AllValid(recs) && recs != [] && Holds(fs.dev(dir.inode), 0, recs)
    ensures WellFormed(fs.dev(dir.inode), 0)
    ensures Lookup(fs, dir, name) ==
            match FirstNamed(Plain(recs[1..]), name)
            case None => None
            case Some(r) => Some(NodeOf(r, fs.id, Mini(dir.inode, dir.impl, dir.recreate)))
  {
    var s := fs.dev(dir.inode);
    HoldsWellFormed(s, 0, recs);
    FieldsAt(s, 0, recs[0]);
    LookOver(s, 0, name);
    HoldsWellFormed(s, Size(recs[0]), recs[1..]);
    FindsFirst(s, Size(recs[0]), recs[1..], name, fs.id, Mini(dir.inode, dir.impl, dir.recreate));
  }

  /** iso9660_recreate returns the fields of the first record of the directory. */
  lemma RecreateOnRecords(fs: Filesystem, t: seq<IsoPathTable.PathRecord>, lba: nat, recs: seq<DirRecord>)
    requires t != [] && AllValid(recs) && recs != [] && Holds(fs.dev(lba), 0, recs)
    ensures IsoPathTable.Recreated(fs, t, lba) ==
            match IsoPathTable.ParentOf(fs, t, lba)
            case None => None
            case Some(parent) => Some(NodeOf(recs[0], fs.id, parent))
  {
    match IsoPathTable.ParentOf(fs, t, lba)
    case None =>
    case Some(parent) => EntryIsNode(fs.dev(lba), 0, recs[0], fs.id, parent);
  }
}
