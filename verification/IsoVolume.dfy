/** Well-formed volumes: going down with finddir and back up by recreating parents. */
module IsoVolume {
  import opened Common
  import opened IsoFormat
  import opened IsoDirectories
  import opened IsoCode
  import opened IsoPathTable

  /** The sector is a directory whose first record describes the directory itself. */
  ghost predicate DirectoryAt(s: Sector, lba: nat) {
    WellFormed(s, 0) && s[0] != 0 && U32(s, LBA) == lba && NameEnds(s, IDENTIFIER)
  }

  /** The record at `o` is that of a directory. */
  predicate IsDirectory(s: Sector, o: nat)
    requires Fits(s, o)
  {
    s[o + FLAGS] / FLAG_DIRECTORY % 2 == 1
  }

  /** The subdirectories listed in the directory with number `i + 1` are the location of a record
      that has this number as its parent. */
  ghost predicate ChildrenInTable(s: Sector, recs: seq<PathRecord>, i: nat)
    requires WellFormed(s, 0)
  {
    forall o :: o in Listed(s, 0) && IsDirectory(s, o) ==> HasChild(recs, i, U32(s, o + LBA))
  }

  /** Record `j`, not the root, is at `lba` and has record `i` as its parent. */
  predicate IsChild(recs: seq<PathRecord>, i: nat, j: nat, lba: nat) {
    0 < j < |recs| && recs[j].lba == lba && recs[j].parent == i + 1
  }

  ghost predicate HasChild(recs: seq<PathRecord>, i: nat, lba: nat) {
    exists j: nat :: IsChild(recs, i, j, lba)
  }

  ghost predicate DirectoryOk(fs: Filesystem, recs: seq<PathRecord>, i: nat)
    requires i < |recs|
  {
    var s := fs.dev(recs[i].lba);
    && recs[i].lba != 0
    && (i > 0 ==> 1 <= recs[i].parent <= |recs|)
    && DirectoryAt(s, recs[i].lba)
    && ChildrenInTable(s, recs, i)
  }

  /** The table names each directory once, and directory sectors and table agree. */
  ghost predicate TreeOk(fs: Filesystem, recs: seq<PathRecord>) {
    && (forall i, j :: 0 <= i < j < |recs| ==> recs[i].lba != recs[j].lba)
    && forall i: nat :: i < |recs| ==> DirectoryOk(fs, recs, i)
  }

  /** The path table of the device holds exactly these records, and they describe its directories. */
  ghost predicate VolumeOk(fs: Filesystem, recs: seq<PathRecord>) {
    TableOf(TableSector(fs.dev), recs) && TreeOk(fs, recs)
  }

  /** The directory that holds directory `i`. */
  function ParentMini(fs: Filesystem, recs: seq<PathRecord>, i: nat): Mini
    requires i < |recs| && (i > 0 ==> 1 <= recs[i].parent <= |recs|)
  {
    if i == 0 then fs.mountpoint else Mini(recs[recs[i].parent - 1].lba, fs.id, IsoRecreate)
  }

  /** `node` is directory `i` of the volume. */
  ghost predicate Names(fs: Filesystem, recs: seq<PathRecord>, node: Node, i: nat) {
    i < |recs| && node.inode == recs[i].lba && node.impl == fs.id && node.recreate == IsoRecreate
  }

  /** `node` also knows the right parent. */
  ghost predicate Located(fs: Filesystem, recs: seq<PathRecord>, node: Node, i: nat) {
    Names(fs, recs, node, i) && DirectoryOk(fs, recs, i) && node.parent == ParentMini(fs, recs, i)
  }

  /** Recreating a directory of the volume from its location gives that directory, with its parent. */
  lemma RecreateDirectory(fs: Filesystem, recs: seq<PathRecord>, i: nat)
    requires TreeOk(fs, recs) && i < |recs|
    ensures var r := Recreated(fs, recs + [END], recs[i].lba); r.Some? && Located(fs, recs, r.value, i)
    ensures NameEnds(fs.dev(recs[i].lba), IDENTIFIER)
  {
    assert DirectoryOk(fs, recs, i);
    ParentAmongRecords(fs, recs, recs[i].lba);
    assert FirstWith(recs, recs[i].lba) == Some(i);
  }

  /** finddir, then recreating the child's parent, returns to the directory. */
  lemma DownAndUp(fs: Filesystem, recs: seq<PathRecord>, dir: Node, i: nat, name: seq<byte>)
    requires VolumeOk(fs, recs) && Names(fs, recs, dir, i) && DirectoryOk(fs, recs, i)
    ensures var child := Lookup(fs, dir, name);
            child.Some? ==>
              var r := Recreated(fs, recs + [END], child.value.parent.inode);
              child.value.parent.recreate == IsoRecreate && child.value.parent.impl == fs.id
              && r.Some? && r.value.inode == dir.inode && Located(fs, recs, r.value, i)
  {
    RecreateDirectory(fs, recs, i);
  }

  /** The same of the code that the shell runs for `cd name` and then `cd ..`. */
  method CdAndBack(fs: Filesystem, dir: Node, name: seq<byte>, ghost recs: seq<PathRecord>, ghost i: nat)
    returns (child: Option<Node>, back: Option<Node>)
    requires VolumeOk(fs, recs) && Names(fs, recs, dir, i) && DirectoryOk(fs, recs, i) && 0 !in name
    ensures child == Lookup(fs, dir, name)
    ensures child.Some? ==> back.Some? && back.value.inode == dir.inode && Located(fs, recs, back.value, i)
    ensures child.Some? ==> back.value.isDirectory == (fs.dev(dir.inode)[25] / 2 % 2 == 1)
  {
    back := None;
    child := IsoFinddir(fs, dir, name);
    if child.Some? {
      DownAndUp(fs, recs, dir, i, name);
      RecreateDirectory(fs, recs, i);
      back := Recreate(fs, child.value.parent, recs, IDENTIFIER);
    }
  }

  // ---------------------------------------------------------------- paths

  /** finddir opens the subdirectory `child` of `dir`. */
  ghost predicate Opened(fs: Filesystem, dir: Node, name: seq<byte>, child: Node) {
    WellFormed(fs.dev(dir.inode), 0) && Lookup(fs, dir, name) == Some(child) && child.isDirectory
  }

  /** Each node is the subdirectory of the one before with the next name. */
  ghost predicate Path(fs: Filesystem, nodes: seq<Node>, names: seq<seq<byte>>) {
    |nodes| == |names| + 1
    && forall k: nat :: k < |names| ==> Opened(fs, nodes[k], names[k], nodes[k + 1])
  }

  /** Recreating the parent `n` times, as long as it belongs to this volume. */
  function Ascend(fs: Filesystem, t: seq<PathRecord>, node: Node, n: nat): Option<Node>
    requires t != []
    decreases n
  {
    if n == 0 then Some(node)
    else if node.parent.recreate != IsoRecreate || node.parent.impl != fs.id then None
    else match Recreated(fs, t, node.parent.inode)
      case None => None
      case Some(parent) => Ascend(fs, t, parent, n - 1)
  }

  /** Directory `m` and its child `j` follow one another on the path. */
  ghost predicate Follow(fs: Filesystem, recs: seq<PathRecord>, upper: Node, m: nat, lower: Node, j: nat) {
    Names(fs, recs, upper, m) && Located(fs, recs, lower, j) && j > 0 && recs[j].parent == m + 1
  }

  /** A subdirectory that finddir opens is a directory of the volume and knows its parent. */
  lemma OpenedFollows(fs: Filesystem, recs: seq<PathRecord>, dir: Node, i: nat, name: seq<byte>, child: Node)
    returns (j: nat)
    requires TreeOk(fs, recs) && Names(fs, recs, dir, i) && Opened(fs, dir, name, child)
    ensures Follow(fs, recs, dir, i, child, j)
  {
    assert DirectoryOk(fs, recs, i);
    var s := fs.dev(dir.inode);
    var o := Finddir(s, name).value;
    assert IsDirectory(s, o);
    assert HasChild(recs, i, U32(s, o + LBA));
    j :| IsChild(recs, i, j, U32(s, o + LBA));
    assert DirectoryOk(fs, recs, j);
  }

  lemma {:induction false} PathFollows(fs: Filesystem, recs: seq<PathRecord>, nodes: seq<Node>,
                                       names: seq<seq<byte>>, i: nat, k: nat)
    returns (m: nat, j: nat)
    requires TreeOk(fs, recs) && Path(fs, nodes, names) && Names(fs, recs, nodes[0], i) && k < |names|
    ensures Follow(fs, recs, nodes[k], m, nodes[k + 1], j) && (k > 0 ==> Located(fs, recs, nodes[k], m))
  {
    m := i;
    if k > 0 {
      var above;
      above, m := PathFollows(fs, recs, nodes, names, i, k - 1);
    }
    assert Opened(fs, nodes[k], names[k], nodes[k + 1]);
    j := OpenedFollows(fs, recs, nodes[k], m, names[k], nodes[k + 1]);
  }

  /** One step up, from a node with the same parent as directory `k` of the path. */
  lemma StepUp(fs: Filesystem, recs: seq<PathRecord>, nodes: seq<Node>, names: seq<seq<byte>>, i: nat,
               k: nat, copy: Node, n: nat)
    returns (parent: Node)
    requires TreeOk(fs, recs) && Path(fs, nodes, names) && Names(fs, recs, nodes[0], i)
    requires 0 < k <= |names| && copy.parent == nodes[k].parent && n > 0
    ensures parent.inode == nodes[k - 1].inode && (k > 1 ==> parent.parent == nodes[k - 1].parent)
    ensures Ascend(fs, recs + [END], copy, n) == Ascend(fs, recs + [END], parent, n - 1)
  {
    var m, j := PathFollows(fs, recs, nodes, names, i, k - 1);
    RecreateDirectory(fs, recs, m);
    parent := Recreated(fs, recs + [END], recs[m].lba).value;
  }

  /** From a copy of a directory on a path, the way back passes the directories before it. */
  lemma {:induction false} Retrace(fs: Filesystem, recs: seq<PathRecord>, nodes: seq<Node>,
                                   names: seq<seq<byte>>, i: nat, k: nat, copy: Node, n: nat)
    requires TreeOk(fs, recs) && Path(fs, nodes, names) && Names(fs, recs, nodes[0], i)
    requires n <= k <= |names| && copy.inode == nodes[k].inode && (k > 0 ==> copy.parent == nodes[k].parent)
    ensures var up := Ascend(fs, recs + [END], copy, n); up.Some? && up.value.inode == nodes[k - n].inode
    decreases n
  {
    if n > 0 {
      var parent := StepUp(fs, recs, nodes, names, i, k, copy, n);
      Retrace(fs, recs, nodes, names, i, k - 1, parent, n - 1);
    }
  }

  /** After opening directories one below the other, recreating parents leads back through the same
      directories, one by one, up to the one it started from. */
  lemma DownAndBack(fs: Filesystem, recs: seq<PathRecord>, nodes: seq<Node>, names: seq<seq<byte>>, i: nat, n: nat)
    requires VolumeOk(fs, recs) && Path(fs, nodes, names) && Names(fs, recs, nodes[0], i) && n <= |names|
    ensures var up := Ascend(fs, recs + [END], nodes[|names|], n);
            up.Some? && up.value.inode == nodes[|names| - n].inode
  {
    Retrace(fs, recs, nodes, names, i, |names|, nodes[|names|], n);
  }
}
