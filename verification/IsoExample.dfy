/** A small well-formed volume: a root directory at block 20 that holds the directory "A" at block 21. */
module IsoExample {
  import opened Common
  import opened IsoFormat
  import opened IsoDirectories
  import opened IsoCode
  import opened IsoPathTable
  import opened IsoVolume

  const TABLE: nat := 19
  const ROOT: nat := 20
  const CHILD: nat := 21

  const NAME: seq<byte> := [65]

  function TwoRecords(): seq<PathRecord> {
    [PathRecord([0], 0, ROOT, 1), PathRecord(NAME, 0, CHILD, 1)]
  }

  /** A directory record for itself and, in the root, one for "A". */
  function RootSector(): Sector {
    seq(SECTOR, i => if i == 0 || i == 34 then 34
                     else if i == 2 then 20 else if i == 36 then 21
                     else if i == 25 || i == 59 then 2
                     else if i == 32 || i == 66 then 1
                     else if i == 67 then 65 else 0)
  }

  function ChildSector(): Sector {
    seq(SECTOR, i => if i == 0 then 34 else if i == 2 then 21 else if i == 25 then 2 else if i == 32 then 1 else 0)
  }

  function DescriptorSector(): Sector {
    seq(SECTOR, i => if i == TABLE_LOCATION then 19 else 0)
  }

  function TableBlock(): Sector {
    var t := TwoRecords() + [END];
    var bytes := Encode(t[0]) + Encode(t[1]) + Encode(t[2]);
    bytes + Zeros(SECTOR - |bytes|)
  }

  function Disc(lba: nat): Sector {
    if lba == VOLUME_DESCRIPTOR then DescriptorSector()
    else if lba == TABLE then TableBlock()
    else if lba == ROOT then RootSector()
    else ChildSector()
  }

  function Mounted(mountpoint: Mini): Filesystem {
    Filesystem(1, Disc, mountpoint)
  }

  function RootNode(mountpoint: Mini): Node {
    Node([], true, 0, ROOT, 1, IsoRecreate, mountpoint)
  }

  lemma TableHolds()
    ensures U32(DescriptorSector(), TABLE_LOCATION) == TABLE && TableOf(TableBlock(), TwoRecords())
  {
    var t := TwoRecords() + [END];
    var t1, t2 := t[1..], t[2..];
    assert t1[1..] == t2 && t2[1..] == [];
    assert Serialize(t2) == Encode(t[2]);
    assert Serialize(t1) == Encode(t[1]) + Encode(t[2]);
    assert Serialize(t) == Encode(t[0]) + Encode(t[1]) + Encode(t[2]);
  }

  lemma RootHolds()
    ensures DirectoryAt(RootSector(), ROOT) && Listed(RootSector(), 0) == [34] == Reachable(RootSector(), 0)
    ensures U32(RootSector(), 34 + LBA) == CHILD && IsDirectory(RootSector(), 34)
    ensures Name(RootSector(), 34) == NAME
  {
    var s := RootSector();
    assert WellFormed(s, 68) && Listed(s, 68) == [];
    assert WellFormed(s, 34) && Listed(s, 34) == [34] == Reachable(s, 34);
    assert s[67..68] == NAME;
    CStringIs(NAME, NAME);
  }

  lemma ChildHolds()
    ensures DirectoryAt(ChildSector(), CHILD) && Listed(ChildSector(), 0) == []
  {
    assert WellFormed(ChildSector(), 34) && Listed(ChildSector(), 34) == [];
  }

  /** The conditions under which paths are retraced are met by a volume with a subdirectory. */
  lemma SmallVolume(mountpoint: Mini) returns (child: Node)
    ensures var fs := Mounted(mountpoint);
            && VolumeOk(fs, TwoRecords())
            && Names(fs, TwoRecords(), RootNode(mountpoint), 0)
            && Path(fs, [RootNode(mountpoint), child], [NAME])
            && child.inode == CHILD
  {
    var fs, recs := Mounted(mountpoint), TwoRecords();
    TableHolds();
    RootHolds();
    ChildHolds();
    assert IsChild(recs, 0, 1, CHILD);
    assert HasChild(recs, 0, CHILD);
    assert DirectoryOk(fs, recs, 0);
    assert DirectoryOk(fs, recs, 1);
    child := Lookup(fs, RootNode(mountpoint), NAME).value;
    assert Opened(fs, RootNode(mountpoint), NAME, child);
  }
}
