/** The directory functions as loops over a sector buffer (kernel/kernel/fs/iso9660.c:38-147,
    230-271; libc/string/strcmp.c, strcpy.c). */
module IsoCode {
  import opened Common
  import opened IsoFormat
  import opened IsoDirectories

  /** A block device: the sectors by their logical block address. */
  type Device = nat -> Sector

  /** iso9660_fs, and the number `id` that nodes of the volume hold in `impl` as its address. */
  datatype Filesystem = Filesystem(id: nat, dev: Device, mountpoint: Mini)

  /** Reading one block into a buffer that may be longer. */
  method ReadBlock(dev: Device, buffer: array<byte>, lba: nat)
    requires SECTOR <= buffer.Length
    modifies buffer
    ensures buffer[..SECTOR] == dev(lba)
  {
    var s := dev(lba);
    for i := 0 to SECTOR
      invariant forall k :: 0 <= k < i ==> buffer[k] == s[k]
    {
      buffer[i] := s[i];
    }
  }

  /** A fresh buffer of one sector, filled from the device. */
  method LoadSector(dev: Device, lba: nat) returns (buffer: array<byte>)
    ensures fresh(buffer) && buffer.Length == SECTOR && buffer[..] == dev(lba)
  {
    buffer := new byte[SECTOR];
    ReadBlock(dev, buffer, lba);
    assert buffer[..] == buffer[..SECTOR];
  }

  /** strcpy: the bytes up to the zero that `stop` promises. */
  method CopyString(buffer: array<byte>, off: nat, ghost stop: nat) returns (r: seq<byte>)
    requires off <= stop < buffer.Length && buffer[stop] == 0
    ensures r == CString(buffer[off..])
  {
    r := [];
    var k := off;
    while buffer[k] != 0
      invariant off <= k <= stop && r == buffer[off..k] && 0 !in r
      decreases stop - k
    {
      r := r + [buffer[k]];
      k := k + 1;
    }
    CStringIs(buffer[off..], r);
  }

  /** The string reaches past position `k` if no byte up to there is zero. */
  lemma StringReaches(s: seq<byte>, k: nat)
    requires k < |s| && forall j :: 0 <= j <= k ==> s[j] != 0
    ensures k < |CString(s)|
  {}

  /** Byte `k` of the zero-terminated string `name`. */
  function ByteAt(name: seq<byte>, k: nat): byte
    requires k <= |name|
  {
    if k < |name| then name[k] else 0
  }

  /** Where strcmp stops, the bytes there tell whether the strings are equal. */
  lemma Compared(s: seq<byte>, name: seq<byte>, k: nat)
    requires k < |s| && k <= |name| && s[..k] == name[..k] && 0 !in name
    requires s[k] == 0 || s[k] != ByteAt(name, k)
    ensures s[k] == ByteAt(name, k) <==> CString(s) == name
  {
    var c := CString(s);
    assert forall j :: 0 <= j < k ==> s[j] == name[..k][j] && name[j] in name;
    if s[k] == 0 {
      assert forall b :: b in name[..k] ==> b in name;
      CStringIs(s, s[..k]);
      assert k < |name| ==> name[k] in name;
    } else {
      StringReaches(s, k);
      assert c[k] == s[k];
    }
  }

  /** strcmp(...) == 0 of the string at `off` with `name`, which ends where the sequence ends. */
  method SameString(buffer: array<byte>, off: nat, name: seq<byte>, ghost stop: nat) returns (same: bool)
    requires off <= stop < buffer.Length && buffer[stop] == 0 && 0 !in name
    ensures same <==> CString(buffer[off..]) == name
  {
    var k := 0;
    while buffer[off + k] != 0 && buffer[off + k] == ByteAt(name, k)
      invariant off + k <= stop && k <= |name| && buffer[off..off + k] == name[..k]
      decreases stop - k
    {
      k := k + 1;
    }
    same := buffer[off + k] == ByteAt(name, k);
    ghost var s := buffer[off..];
    assert s[..k] == buffer[off..off + k] && s[k] == buffer[off + k];
    Compared(s, name, k);
  }

  /** A zero at position `n` ends the string there, if not earlier; so does cutting the string. */
  lemma StringUpTo(s: seq<byte>, n: nat)
    requires n <= |s|
    ensures var c := CString(s); CString(s[..n]) == if |c| <= n then c else c[..n]
    ensures n < |s| && s[n] == 0 ==> |CString(s)| <= n
  {
    var c := CString(s);
    var cut := if |c| <= n then c else c[..n];
    assert forall b :: b in cut ==> b in c;
    CStringIs(s[..n], cut);
    assert n < |c| ==> c[n] == s[n] && c[n] in c;
  }

  /** What is left of the string at `from` when it is cut at length `n`. */
  lemma CutString(s: seq<byte>, from: nat, n: nat)
    requires from + n <= |s|
    ensures var c := CString(s[from..]); CString(s[from..from + n]) == if n < |c| then c[..n] else c
    ensures from + n < |s| && s[from + n] == 0 ==> CString(s[from..]) == CString(s[from..from + n])
  {
    StringUpTo(s[from..], n);
    assert s[from..][..n] == s[from..from + n];
  }

  /** iso9660_entry_to_node_mini. strcpy runs to the first zero byte, then the copy is cut at the
      length of the identifier. */
  method MakeNode(buffer: array<byte>, off: nat, impl: nat, parent: Mini, ghost stop: nat) returns (node: Node)
    requires buffer.Length == SECTOR && off + IDENTIFIER <= stop < SECTOR && buffer[stop] == 0
    requires off + IDENTIFIER + buffer[off + ID_LENGTH] <= SECTOR
    ensures node == EntryToNode(buffer[..], off, impl, parent)
    ensures Describes(node, buffer[..], off)
  {
    var name := CopyString(buffer, off + IDENTIFIER, stop);
    var n: nat := buffer[off + ID_LENGTH];
    CutString(buffer[..], off + IDENTIFIER, n);
    assert buffer[..][off + IDENTIFIER..] == buffer[off + IDENTIFIER..];
    if n < |name| {
      name := name[..n];
    }
    var length := U32(buffer[..], off + LENGTH);
    var lba := U32(buffer[..], off + LBA);
    node := Node(name, buffer[off + FLAGS] / FLAG_DIRECTORY % 2 == 1,
                 length, lba, impl, IsoRecreate, parent);
  }

  /** The buffer holds the sector from `off` on; what lies before may have been overwritten. */
  ghost predicate SameFrom(buffer: array<byte>, s: Sector, off: nat)
    reads buffer
  {
    buffer.Length == SECTOR && forall k :: off <= k < SECTOR ==> buffer[k] == s[k]
  }

  /** The terminator written after the identifier of the record at `off`. */
  method Terminate(buffer: array<byte>, ghost s: Sector, off: nat) returns (ghost stop: nat)
    requires SameFrom(buffer, s, off) && Fits(s, off)
    modifies buffer
    ensures stop == off + IDENTIFIER + s[off + ID_LENGTH] && buffer[stop] == 0
    ensures if Tight(s, off) then buffer[off + s[off]] == 0 else SameFrom(buffer, s, off + s[off])
    ensures forall k :: off <= k < stop ==> buffer[k] == s[k]
    ensures CString(buffer[off + IDENTIFIER..]) == Name(s, off)
  {
    var n: nat := buffer[off + ID_LENGTH];
    buffer[off + IDENTIFIER + n] := 0;
    stop := off + IDENTIFIER + n;
    ghost var t := buffer[..];
    CutString(t, off + IDENTIFIER, n);
    assert t[off + IDENTIFIER..] == buffer[off + IDENTIFIER..];
    assert t[off + IDENTIFIER..stop] == s[off + IDENTIFIER..stop];
  }

  /** The name that readdir copies out of the record at `off`. */
  method EntryName(buffer: array<byte>, ghost s: Sector, off: nat) returns (name: seq<byte>)
    requires SameFrom(buffer, s, off) && Fits(s, off)
    modifies buffer
    ensures name == Name(s, off)
  {
    ghost var stop := Terminate(buffer, s, off);
    name := CopyString(buffer, off + IDENTIFIER, stop);
  }

  /** A node depends on the fixed fields and the identifier of its record only. */
  lemma EntryKept(t: Sector, s: Sector, off: nat, impl: nat, parent: Mini)
    requires Fits(s, off) && forall k :: off <= k < off + IDENTIFIER + s[off + ID_LENGTH] ==> t[k] == s[k]
    ensures EntryToNode(t, off, impl, parent) == EntryToNode(s, off, impl, parent)
  {
    var end := off + IDENTIFIER + s[off + ID_LENGTH];
    assert t[off + IDENTIFIER..end] == s[off + IDENTIFIER..end];
  }

  /** The node that finddir makes of the record at `off` if the record has the right name. */
  method MatchEntry(buffer: array<byte>, ghost s: Sector, off: nat, name: seq<byte>, impl: nat, parent: Mini)
    returns (r: Option<Node>)
    requires SameFrom(buffer, s, off) && Fits(s, off) && 0 !in name
    modifies buffer
    ensures if Tight(s, off) then buffer[off + s[off]] == 0 else SameFrom(buffer, s, off + s[off])
    ensures r == if Name(s, off) == name then Some(EntryToNode(s, off, impl, parent)) else None
  {
    ghost var stop := Terminate(buffer, s, off);
    var same := SameString(buffer, off + IDENTIFIER, name, stop);
    if same {
      var node := MakeNode(buffer, off, impl, parent, stop);
      EntryKept(buffer[..], s, off, impl, parent);
      return Some(node);
    }
    return None;
  }

  /** What a scan reads of the record at `off`: where the next one is, if this one is not the zero
      byte at the end, and whether it may be listed. */
  method ReadRecord(buffer: array<byte>, ghost s: Sector, off: nat) returns (next: Option<nat>, plain: bool)
    requires SameFrom(buffer, s, off) && WellFormed(s, off)
    ensures next == if s[off] == 0 then None else Some(off + s[off])
    ensures next.Some? ==> Fits(s, off) && WellFormed(s, next.value) && plain == (s[off + IDENTIFIER] != 1)
  {
    if buffer[off] == 0 {
      return None, false;
    }
    return Some(off + buffer[off]), buffer[off + IDENTIFIER] != 1;
  }

  /** Counting over the record at `off`. */
  lemma CountOver(s: Sector, off: nat, k: nat)
    requires WellFormed(s, off)
    ensures var r := NameAt(s, Listed(s, off), k);
            if s[off] == 0 then r == None
            else if off == 0 || s[off + IDENTIFIER] == 1 then r == NameAt(s, Listed(s, off + s[off]), k)
            else if k == 0 then r == Some(Name(s, off))
            else r == NameAt(s, Listed(s, off + s[off]), k - 1)
  {}

  /** Looking for a name past the record at `off`. */
  lemma LookOver(s: Sector, off: nat, name: seq<byte>)
    requires WellFormed(s, off)
    ensures var r := FindIn(s, Reachable(s, off), name);
            if s[off] == 0 then r == None
            else if off == 0 || s[off + IDENTIFIER] == 1 then r == FindIn(s, Reachable(s, off + s[off]), name)
            else if Name(s, off) == name then r == Some(off)
            else if Tight(s, off) then r == None
            else r == FindIn(s, Reachable(s, off + s[off]), name)
  {}

  /** The loop of iso9660_readdir over the sector it has read. */
  method ScanForIndex(buffer: array<byte>, ghost s: Sector, i: nat) returns (r: Option<seq<byte>>)
    requires SameFrom(buffer, s, 0) && WellFormed(s, 0)
    modifies buffer
    ensures r == Readdir(s, i)
  {
    var off, skipFirst, count := 0, true, 0;
    ghost var left := i;
    while true
      invariant SameFrom(buffer, s, off) && WellFormed(s, off)
      invariant skipFirst == (off == 0) && count + left == i
      invariant Readdir(s, i) == NameAt(s, Listed(s, off), left)
      decreases SECTOR - off
    {
      var next, plain := ReadRecord(buffer, s, off);
      CountOver(s, off, left);
      if next.None? {
        return None;
      }
      if !skipFirst && plain {
        if count == i {
          var name := EntryName(buffer, s, off);
          return Some(name);
        }
        count, left := count + 1, left - 1;
      }
      skipFirst, off := false, next.value;
    }
  }

  /** iso9660_readdir. */
  method IsoReaddir(fs: Filesystem, inode: nat, i: nat) returns (r: Option<seq<byte>>)
    requires WellFormed(fs.dev(inode), 0)
    ensures r == Readdir(fs.dev(inode), i)
  {
    var buffer := LoadSector(fs.dev, inode);
    r := ScanForIndex(buffer, fs.dev(inode), i);
  }

  /** Where the scan of finddir stands: before an untouched rest of the sector that decides the result,
      or at a length byte that it has overwritten itself. */
  ghost predicate Scanning(buffer: array<byte>, s: Sector, off: nat, name: seq<byte>)
    requires WellFormed(s, 0)
    reads buffer
  {
    && buffer.Length == SECTOR && off < SECTOR
    && if SameFrom(buffer, s, off) && WellFormed(s, off)
       then Finddir(s, name) == FindIn(s, Reachable(s, off), name)
       else buffer[off] == 0 && Finddir(s, name) == None
  }

  /** `r` is the node of the record that Finddir names. */
  ghost predicate Answers(s: Sector, name: seq<byte>, impl: nat, parent: Mini, r: Option<Node>)
    requires WellFormed(s, 0)
  {
    match Finddir(s, name)
    case None => r == None
    case Some(o) => Fits(s, o) && r == Some(EntryToNode(s, o, impl, parent))
  }

  /** One round of the loop of iso9660_finddir: the record at `off` answers, or the scan goes on. */
  method LookAt(buffer: array<byte>, ghost s: Sector, off: nat, skipFirst: bool, name: seq<byte>,
                impl: nat, parent: Mini)
    returns (r: Option<Node>, next: nat)
    requires WellFormed(s, 0) && Scanning(buffer, s, off, name) && skipFirst == (off == 0) && buffer[off] != 0
    requires 0 !in name
    modifies buffer
    ensures r.Some? ==> Answers(s, name, impl, parent, r)
    ensures r.None? ==> Scanning(buffer, s, next, name) && next > off
  {
    LookOver(s, off, name);
    var record, plain := ReadRecord(buffer, s, off);
    next, r := record.value, None;
    if !skipFirst && plain {
      r := MatchEntry(buffer, s, off, name, impl, parent);
    }
  }

  /** The loop of iso9660_finddir. It writes terminators into the buffer while it scans. */
  method ScanForName(buffer: array<byte>, ghost s: Sector, name: seq<byte>, impl: nat, parent: Mini)
    returns (r: Option<Node>)
    requires SameFrom(buffer, s, 0) && WellFormed(s, 0) && 0 !in name
    modifies buffer
    ensures Answers(s, name, impl, parent, r)
  {
    var off, skipFirst := 0, true;
    while true
      invariant Scanning(buffer, s, off, name) && skipFirst == (off == 0)
      decreases SECTOR - off
    {
      if buffer[off] == 0 {
        return None;
      }
      var next;
      r, next := LookAt(buffer, s, off, skipFirst, name, impl, parent);
      if r.Some? {
        return r;
      }
      skipFirst, off := false, next;
    }
  }

  /** The node of the entry with a name in the directory `dir`, which becomes its parent. */
  function Lookup(fs: Filesystem, dir: Node, name: seq<byte>): Option<Node>
    requires WellFormed(fs.dev(dir.inode), 0)
  {
    var s := fs.dev(dir.inode);
    match Finddir(s, name)
    case None => None
    case Some(o) => Some(EntryToNode(s, o, fs.id, Mini(dir.inode, dir.impl, dir.recreate)))
  }

  /** `n` has the fields of the record that Finddir names, and the directory as its parent. */
  ghost predicate Opens(fs: Filesystem, dir: Node, name: seq<byte>, n: Node)
    requires WellFormed(fs.dev(dir.inode), 0)
  {
    var s := fs.dev(dir.inode);
    && Finddir(s, name).Some? && Describes(n, s, Finddir(s, name).value)
    && n.impl == fs.id && n.recreate == IsoRecreate
    && n.parent == Mini(dir.inode, dir.impl, dir.recreate)
  }

  lemma LookupOpens(fs: Filesystem, dir: Node, name: seq<byte>)
    requires WellFormed(fs.dev(dir.inode), 0)
    ensures Lookup(fs, dir, name).Some? ==> Opens(fs, dir, name, Lookup(fs, dir, name).value)
  {}

  /** iso9660_finddir. */
  method IsoFinddir(fs: Filesystem, dir: Node, name: seq<byte>) returns (r: Option<Node>)
    requires dir.impl == fs.id && WellFormed(fs.dev(dir.inode), 0) && 0 !in name
    ensures r == Lookup(fs, dir, name)
    ensures r.Some? ==> Opens(fs, dir, name, r.value)
  {
    var buffer := LoadSector(fs.dev, dir.inode);
    r := ScanForName(buffer, fs.dev(dir.inode), name, fs.id, Mini(dir.inode, dir.impl, dir.recreate));
    LookupOpens(fs, dir, name);
  }
}
