/** Reading a file block by block and printing it: iso9660_read and the loop of the shell's `cat`
    (kernel/kernel/fs/iso9660.c:281-297, kernel/kernel/shell.c:101-121). */
module FileRead {
  import opened Common
  import opened IsoFormat
  import opened IsoDirectories
  import opened IsoCode

  /** The logical block `b` blocks after `lba`, in 32 bits. */
  function BlockAfter(lba: nat, b: nat): nat {
    (lba + b) % TWO32
  }

  /** The first `n` bytes of the consecutive blocks from `lba` on. */
  function FileBytes(dev: Device, lba: nat, n: nat): (r: seq<byte>)
    ensures |r| == n
  {
    seq(n, k requires 0 <= k < n => dev(BlockAfter(lba, k / SECTOR))[k % SECTOR])
  }

  /** Byte `k` is byte `k % 2048` of the block `k / 2048` blocks further, with 32-bit block numbers. */
  ghost predicate IsFile(dev: Device, lba: nat, bytes: seq<byte>) {
    forall k :: 0 <= k < |bytes| ==> bytes[k] == dev((lba + k / 2048) % TWO32)[k % 2048]
  }

  lemma FileBytesAre(dev: Device, lba: nat, n: nat)
    ensures IsFile(dev, lba, FileBytes(dev, lba, n))
  {
    var bytes := FileBytes(dev, lba, n);
    forall k: nat | k < |bytes|
      ensures bytes[k] == dev((lba + k / 2048) % TWO32)[k % 2048]
    {
      assert bytes[k] == dev(BlockAfter(lba, k / SECTOR))[k % SECTOR];
    }
  }

  /** Whole blocks and a part of the next one. */
  lemma NextBlock(dev: Device, lba: nat, b: nat, n: nat)
    requires n <= SECTOR
    ensures FileBytes(dev, lba, SECTOR * b + n)
         == FileBytes(dev, lba, SECTOR * b) + dev(BlockAfter(lba, b))[..n]
  {
    var all := FileBytes(dev, lba, SECTOR * b + n);
    forall k: nat | k < n
      ensures all[SECTOR * b + k] == dev(BlockAfter(lba, b))[k]
    {
      assert (SECTOR * b + k) / SECTOR == b && (SECTOR * b + k) % SECTOR == k;
    }
  }

  /** iso9660_read. What it does not read from the device stays whatever kalloc's memory held. */
  method IsoRead(dev: Device, node: Node, offset: nat, size: nat, buffer: array<byte>)
    requires 0 < size <= buffer.Length && 0 < node.length && size <= TWO32 - SECTOR
    modifies buffer
    ensures var n := if size > node.length then node.length else size;
            && (forall k :: 0 <= k < n && k < SECTOR ==> buffer[k] == dev(BlockAfter(node.inode, offset))[k])
            && forall k :: n <= k < buffer.Length ==> buffer[k] == old(buffer[k])
    ensures forall k :: 0 <= k < size && k < node.length && k < 2048 ==>
              buffer[k] == dev((node.inode + offset) % TWO32)[k]
  {
    var readSize := size;
    if readSize > node.length {
      readSize := node.length;
    }
    var blockSize := readSize;
    while blockSize % SECTOR != 0
      invariant readSize <= blockSize <= TWO32 - SECTOR
      decreases TWO32 - blockSize
    {
      blockSize := blockSize + 1;
    }
    var block := new byte[blockSize];
    ReadBlock(dev, block, BlockAfter(node.inode, offset));
    assert forall k :: 0 <= k < SECTOR ==> block[k] == block[..SECTOR][k];
    for i := 0 to readSize
      modifies buffer
      invariant forall k :: 0 <= k < i ==> buffer[k] == block[k]
      invariant forall k :: i <= k < buffer.Length ==> buffer[k] == old(buffer[k])
    {
      buffer[i] := block[i];
    }
  }

  // ---------------------------------------------------------------- printing

  /** What is printed of a file: of each block the bytes before the first zero. */
  function Printed(bytes: seq<byte>): seq<byte>
    decreases |bytes|
  {
    if |bytes| <= SECTOR then CString(bytes)
    else CString(bytes[..SECTOR]) + Printed(bytes[SECTOR..])
  }

  lemma {:induction false} PrintedAppend(x: seq<byte>, b: nat, y: seq<byte>)
    requires |x| == SECTOR * b && |y| <= SECTOR
    ensures Printed(x + y) == Printed(x) + CString(y)
    decreases b
  {
    if b == 0 {
      assert x + y == y;
    } else if y == [] {
      assert x + y == x;
    } else {
      assert (x + y)[..SECTOR] == x[..SECTOR];
      assert (x + y)[SECTOR..] == x[SECTOR..] + y;
      PrintedAppend(x[SECTOR..], b - 1, y);
      if b == 1 {
        assert x == x[..SECTOR] && x[SECTOR..] == [];
      }
    }
  }

  lemma {:induction false} PrintedLength(bytes: seq<byte>)
    ensures |Printed(bytes)| <= |bytes|
    ensures |Printed(bytes)| == |bytes| <==> Printed(bytes) == bytes
    ensures |Printed(bytes)| == |bytes| <==> 0 !in bytes
    decreases |bytes|
  {
    if |bytes| <= SECTOR {
      CStringWhole(bytes);
    } else {
      CStringWhole(bytes[..SECTOR]);
      PrintedLength(bytes[SECTOR..]);
      assert bytes == bytes[..SECTOR] + bytes[SECTOR..];
    }
  }

  lemma CStringWhole(s: seq<byte>)
    ensures |CString(s)| == |s| <==> CString(s) == s
    ensures |CString(s)| == |s| <==> 0 !in s
  {
    if 0 !in s {
      CStringIs(s, s);
    }
  }

  /** `cat` prints a file faithfully exactly when no byte of it is zero. */
  lemma PrintsAll(bytes: seq<byte>)
    ensures Printed(bytes) == bytes <==> 0 !in bytes
  {
    PrintedLength(bytes);
  }

  const NEWLINE: byte := 10

  /** printf("%s"): the bytes before the zero at `n`. */
  method PrintString(buffer: array<byte>, n: nat, out: seq<byte>) returns (r: seq<byte>)
    requires n < buffer.Length && buffer[n] == 0
    ensures r == out + CString(buffer[..n])
  {
    var text := CopyString(buffer, 0, n);
    assert buffer[0..] == buffer[..] && buffer[..][0..] == buffer[..] && buffer[..][0..0 + n] == buffer[..n];
    CutString(buffer[..], 0, n);
    r := out + text;
  }

  /** The loop of `cat`: `read` collects the chunks, `out` what is printed. */
  method Cat(dev: Device, node: Node) returns (read: seq<byte>, out: seq<byte>)
    requires 1 <= node.length < 0x8000_0000
    ensures read == FileBytes(dev, node.inode, node.length)
    ensures |read| == node.length && IsFile(dev, node.inode, read)
    ensures out == Printed(read) + [10]
  {
    var buffer := new byte[SECTOR + 1];
    var fileLeft, offset := node.length, 0;
    ghost var b := 0;
    read, out := [], [];
    while true
      invariant offset == SECTOR * b && offset + fileLeft == node.length && fileLeft > 0
      invariant read == FileBytes(dev, node.inode, offset) && out == Printed(read)
      decreases fileLeft
    {
      var toRead := if fileLeft >= SECTOR then SECTOR else fileLeft;
      IsoRead(dev, node, offset / SECTOR, toRead, buffer);
      buffer[toRead] := 0;
      ghost var chunk := dev(BlockAfter(node.inode, b))[..toRead];
      assert buffer[..toRead] == chunk;
      NextBlock(dev, node.inode, b, toRead);
      PrintedAppend(read, b, chunk);
      read := read + buffer[..toRead];
      out := PrintString(buffer, toRead, out);
      fileLeft, offset := fileLeft - toRead, offset + toRead;
      if fileLeft <= 0 {
        break;
      }
      b := b + 1;
    }
    out := out + [NEWLINE];
    FileBytesAre(dev, node.inode, node.length);
  }
}
