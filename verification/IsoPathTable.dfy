/** The path table and iso9660_recreate, which looks a directory up in it
    (kernel/kernel/fs/iso9660.c:149-224). The record format is section 9.4 of ECMA-119. */
module IsoPathTable {
  import opened Common
  import opened IsoFormat
  import opened IsoDirectories
  import opened IsoCode

  // ---------------------------------------------------------------- the table as a list

  /** A path table record: identifier, length of the extended attributes, location, parent number. */
  datatype PathRecord = PathRecord(id: seq<byte>, ext: byte, lba: nat, parent: nat)

  predicate Valid(r: PathRecord) {
    |r.id| < 256 && r.lba < TWO32 && r.parent < 0x1_0000
  }

  function Size(r: PathRecord): nat {
    8 + |r.id| + |r.id| % 2
  }

  function Encode(r: PathRecord): (s: seq<byte>)
    requires Valid(r)
    ensures |s| == Size(r)
  {
    var n: byte := |r.id|;
    [n, r.ext] + Le32(r.lba) + Le16(r.parent) + r.id + Zeros(n % 2)
  }

  /** The zero record that ends a table. */
  const END := PathRecord([], 0, 0, 0)

  predicate AllValid(t: seq<PathRecord>) {
    forall i :: 0 <= i < |t| ==> Valid(t[i])
  }

  /** Every record has an identifier; only the record that ends the table has none. */
  predicate Records(recs: seq<PathRecord>) {
    AllValid(recs) && forall i :: 0 <= i < |recs| ==> recs[i].id != []
  }

  function Serialize(t: seq<PathRecord>): seq<byte>
    requires AllValid(t)
  {
    if t == [] then [] else Encode(t[0]) + Serialize(t[1..])
  }

  /** The block starts with the records and a zero record. */
  ghost predicate TableOf(block: Sector, recs: seq<PathRecord>) {
    Records(recs) && Serialize(recs + [END]) <= block
  }

  /** Where record `k` starts. */
  function Offset(t: seq<PathRecord>, k: nat): nat
    requires k <= |t|
  {
    if k == 0 then 0 else Size(t[0]) + Offset(t[1..], k - 1)
  }

  lemma {:induction false} OffsetNext(t: seq<PathRecord>, k: nat)
    requires k < |t|
    ensures Offset(t, k + 1) == Offset(t, k) + Size(t[k])
  {
    if k > 0 {
      OffsetNext(t[1..], k - 1);
    }
  }

  lemma SplitPrefix(x: seq<byte>, y: seq<byte>, b: seq<byte>)
    requires x + y <= b
    ensures b[..|x|] == x && y <= b[|x|..]
  {
    assert b[..|x|] == (x + y)[..|x|];
    assert b[|x|..][..|y|] == (x + y)[|x|..];
  }

  lemma SliceOfRest(b: seq<byte>, n: nat, o: nat, m: nat)
    requires n + o + m <= |b|
    ensures b[n..][o..o + m] == b[n + o..n + o + m]
  {}

  /** The bytes of record `k` are found at its offset. */
  lemma {:induction false} EncodedAt(b: seq<byte>, t: seq<PathRecord>, k: nat)
    requires AllValid(t) && k < |t| && Serialize(t) <= b
    ensures var o := Offset(t, k); o + Size(t[k]) <= |b| && b[o..o + Size(t[k])] == Encode(t[k])
  {
    var rest, n := t[1..], Size(t[0]);
    SplitPrefix(Encode(t[0]), Serialize(rest), b);
    if k > 0 {
      EncodedAt(b[n..], rest, k - 1);
      assert rest[k - 1] == t[k];
      var o := Offset(rest, k - 1);
      SliceOfRest(b, n, o, Size(t[k]));
      assert Offset(t, k) == n + o;
    } else {
      assert Offset(t, k) == 0;
    }
  }

  /** Length byte, location and parent number of a record are read back from its bytes. */
  lemma DecodeEncode(r: PathRecord)
    requires Valid(r)
    ensures var s := Encode(r); s[0] == |r.id| && U32(s, 2) == r.lba && U16(s, 6) == r.parent
  {
    var s := Encode(r);
    Le32RoundTrip(r.lba);
    assert s[2..6] == Le32(r.lba) && s[6..8] == Le16(r.parent);
    assert U32(s, 2) == U32(s[2..6], 0) && U16(s, 6) == U16(s[6..8], 0);
  }

  /** The fields at an offset are those of the record there. */
  ghost predicate EntryAt(b: seq<byte>, o: nat, r: PathRecord) {
    o + 8 <= |b| && b[o] == |r.id| && U32(b, o + 2) == r.lba && U16(b, o + 6) == r.parent
  }

  lemma TableEntry(b: Sector, recs: seq<PathRecord>, k: nat)
    requires TableOf(b, recs) && k <= |recs|
    ensures var t := recs + [END]; EntryAt(b, Offset(t, k), t[k]) && (t[k].id == [] <==> k == |recs|)
  {
    var t := recs + [END];
    EncodedAt(b, t, k);
    DecodeEncode(t[k]);
    SameFields(b, Offset(t, k), Encode(t[k]));
  }

  lemma SameFields(b: seq<byte>, o: nat, s: seq<byte>)
    requires 8 <= |s| && o + |s| <= |b| && b[o..o + |s|] == s
    ensures b[o] == s[0] && U32(b, o + 2) == U32(s, 2) && U16(b, o + 6) == U16(s, 6)
  {
    assert s[0] == b[o] && s[2] == b[o + 2] && s[3] == b[o + 3] && s[4] == b[o + 4];
    assert s[5] == b[o + 5] && s[6] == b[o + 6] && s[7] == b[o + 7];
  }

  // ---------------------------------------------------------------- what recreate looks up

  /** The first record with a location. */
  function FirstWith(t: seq<PathRecord>, lba: nat): (r: Option<nat>)
    ensures r.None? ==> forall k :: 0 <= k < |t| ==> t[k].lba != lba
    ensures r.Some? ==> r.value < |t| && t[r.value].lba == lba
    ensures r.Some? ==> forall k :: 0 <= k < r.value ==> t[k].lba != lba
  {
    if t == [] then None
    else if t[0].lba == lba then Some(0)
    else match FirstWith(t[1..], lba)
      case None => None
      case Some(k) => Some(k + 1)
  }

  /** The record that a parent number names; numbers start at one, and zero is taken for one. */
  function Numbered(t: seq<PathRecord>, n: nat): Option<PathRecord>
    requires t != []
  {
    if n == 0 then Some(t[0])
    else if n <= |t| then Some(t[n - 1])
    else None
  }

  /** The parent of the directory at `lba` according to the table `t`, which ends with a zero record. */
  function ParentOf(fs: Filesystem, t: seq<PathRecord>, lba: nat): Option<Mini>
    requires t != []
  {
    match FirstWith(t, lba)
    case None => None
    case Some(0) => Some(fs.mountpoint)
    case Some(k) =>
      match Numbered(t, t[k].parent)
      case None => None
      case Some(p) => Some(Mini(p.lba, fs.id, IsoRecreate))
  }

  function Recreated(fs: Filesystem, t: seq<PathRecord>, lba: nat): Option<Node>
    requires t != []
  {
    match ParentOf(fs, t, lba)
    case None => None
    case Some(parent) => Some(EntryToNode(fs.dev(lba), 0, fs.id, parent))
  }

  /** The zero record behind the others is the first with location zero if no other is. */
  lemma FirstOfAll(recs: seq<PathRecord>, lba: nat)
    ensures FirstWith(recs + [END], lba) ==
            if FirstWith(recs, lba).Some? then FirstWith(recs, lba)
            else if lba == 0 then Some(|recs|) else None
  {
    var t := recs + [END];
    assert forall k :: 0 <= k < |recs| ==> t[k] == recs[k];
    assert t[|recs|] == END;
  }

  /** The parent in all cases, the location and the parent number of the zero record included. */
  lemma ParentAmongRecords(fs: Filesystem, recs: seq<PathRecord>, lba: nat)
    ensures var t := recs + [END];
            match FirstWith(recs, lba)
            case None =>
              ParentOf(fs, t, lba) == if lba != 0 then None
                                      else if recs == [] then Some(fs.mountpoint)
                                      else Some(Mini(recs[0].lba, fs.id, IsoRecreate))
            case Some(k) =>
              var n := recs[k].parent;
              if k == 0 then ParentOf(fs, t, lba) == Some(fs.mountpoint)
              else if n == 0 then ParentOf(fs, t, lba) == Some(Mini(recs[0].lba, fs.id, IsoRecreate))
              else if n <= |recs| then ParentOf(fs, t, lba) == Some(Mini(recs[n - 1].lba, fs.id, IsoRecreate))
              else if n == |recs| + 1 then ParentOf(fs, t, lba) == Some(Mini(0, fs.id, IsoRecreate))
              else ParentOf(fs, t, lba) == None
  {
    FirstOfAll(recs, lba);
  }

  // ---------------------------------------------------------------- the walk over the table

  /** Where the loops of iso9660_recreate go next. */
  method NextEntry(b: array<byte>, off: nat, ghost recs: seq<PathRecord>, ghost k: nat) returns (next: nat)
    requires b.Length == SECTOR && TableOf(b[..], recs) && k < |recs| && off == Offset(recs + [END], k)
    ensures next == Offset(recs + [END], k + 1)
  {
    TableEntry(b[..], recs, k);
    OffsetNext(recs + [END], k);
    var id: nat := b[off];
    var length := 8 + id;
    if id % 2 == 1 {
      length := length + 1;
    }
    next := off + length;
  }

  /** The record at the location `lba`, and whether it is the first of the table. */
  method FindEntry(b: array<byte>, lba: nat, ghost recs: seq<PathRecord>)
    returns (off: Option<nat>, isFirst: bool, ghost k: nat)
    requires b.Length == SECTOR && TableOf(b[..], recs)
    ensures off.None? ==> FirstWith(recs + [END], lba).None?
    ensures off.Some? ==> FirstWith(recs + [END], lba) == Some(k) && off.value == Offset(recs + [END], k)
    ensures off.Some? ==> isFirst == (k == 0)
  {
    var o := 0;
    isFirst, k := true, 0;
    ghost var t := recs + [END];
    TableEntry(b[..], recs, 0);
    while U32(b[..], o + 2) != lba
      invariant k <= |recs| && o == Offset(t, k) && EntryAt(b[..], o, t[k]) && isFirst == (k == 0)
      invariant forall j :: 0 <= j < k ==> t[j].lba != lba
      decreases |recs| - k
    {
      isFirst := false;
      TableEntry(b[..], recs, k);
      if b[o] == 0 {
        return None, isFirst, k;
      }
      o := NextEntry(b, o, recs, k);
      k := k + 1;
      TableEntry(b[..], recs, k);
    }
    off := Some(o);
  }

  /** The record with number `n`. */
  method WalkTo(b: array<byte>, n: nat, ghost recs: seq<PathRecord>) returns (off: Option<nat>)
    requires b.Length == SECTOR && TableOf(b[..], recs)
    ensures match Numbered(recs + [END], n)
            case None => off.None?
            case Some(r) => off.Some? && EntryAt(b[..], off.value, r)
  {
    var o, i := 0, 1;
    ghost var t := recs + [END];
    while i < n
      invariant 1 <= i <= |t| && (i == 1 || i <= n) && o == Offset(t, i - 1)
    {
      TableEntry(b[..], recs, i - 1);
      if b[o] == 0 {
        return None;
      }
      o := NextEntry(b, o, recs, i - 1);
      i := i + 1;
    }
    TableEntry(b[..], recs, i - 1);
    off := Some(o);
  }

  // ---------------------------------------------------------------- iso9660_recreate

  /** Where the primary volume descriptor is, and where it says the path table is. */
  const VOLUME_DESCRIPTOR: nat := 16
  const TABLE_LOCATION: nat := 140

  function TableSector(dev: Device): Sector {
    dev(U32(dev(VOLUME_DESCRIPTOR), TABLE_LOCATION))
  }

  /** Section 8.4 of ECMA-119 puts the location of the table behind these fields, from the type of the
      descriptor to the location and size of the table. */
  lemma TableSectorAt(dev: Device)
    ensures TableSector(dev) == dev(U32(dev(16), 1 + 5 + 1 + 1 + 32 + 32 + 8 + 8 + 32 + 4 + 4 + 4 + 8))
  {}

  /** A zero byte ends the name of the first record within the 256 bytes that a node has for it. */
  ghost predicate NameEnds(s: Sector, stop: nat) {
    IDENTIFIER <= stop < IDENTIFIER + 256 && s[stop] == 0
  }

  /** Both loops over the table that is in the buffer. */
  method FindParent(b: array<byte>, fs: Filesystem, lba: nat, ghost recs: seq<PathRecord>)
    returns (r: Option<Mini>)
    requires b.Length == SECTOR && TableOf(b[..], recs)
    ensures r == ParentOf(fs, recs + [END], lba)
  {
    var entry, isFirst, k := FindEntry(b, lba, recs);
    if entry.None? {
      return None;
    }
    TableEntry(b[..], recs, k);
    if isFirst {
      return Some(fs.mountpoint);
    }
    var number := U16(b[..], entry.value + 6);
    var parent := WalkTo(b, number, recs);
    if parent.None? {
      return None;
    }
    var inode := U32(b[..], parent.value + 2);
    r := Some(Mini(inode, fs.id, IsoRecreate));
  }

  /** iso9660_recreate. */
  method Recreate(fs: Filesystem, mini: Mini, ghost recs: seq<PathRecord>, ghost stop: nat)
    returns (r: Option<Node>)
    requires mini.impl == fs.id && TableOf(TableSector(fs.dev), recs)
    requires ParentOf(fs, recs + [END], mini.inode).Some? ==> NameEnds(fs.dev(mini.inode), stop)
    ensures r == Recreated(fs, recs + [END], mini.inode)
    ensures r.Some? ==>
              && Describes(r.value, fs.dev(mini.inode), 0)
              && r.value.impl == fs.id && r.value.recreate == IsoRecreate
              && ParentOf(fs, recs + [END], mini.inode) == Some(r.value.parent)
  {
    var entryBuffer := LoadSector(fs.dev, mini.inode);
    var tableBuffer := LoadSector(fs.dev, VOLUME_DESCRIPTOR);
    var location := U32(tableBuffer[..], TABLE_LOCATION);
    ReadBlock(fs.dev, tableBuffer, location);
    assert tableBuffer[..] == tableBuffer[..SECTOR];
    var parent := FindParent(tableBuffer, fs, mini.inode, recs);
    if parent.None? {
      return None;
    }
    var node := MakeNode(entryBuffer, 0, fs.id, parent.value, stop);
    r := Some(node);
  }
}
