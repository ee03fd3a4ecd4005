/** Fields of ISO 9660 records as the kernel reads them: little-endian numbers and zero-terminated
    names (kernel/include/kernel/fs/iso9660.h). */
module IsoFormat {
  import opened Common

  const SECTOR: nat := 2048

  function Zeros(n: nat): (z: seq<byte>)
    ensures |z| == n && forall i :: 0 <= i < n ==> z[i] == 0
  {
    if n == 0 then [] else Zeros(n - 1) + [0]
  }

  type Sector = s: seq<byte> | |s| == SECTOR witness Zeros(SECTOR)

  function U16(s: seq<byte>, off: nat): nat
    requires off + 2 <= |s|
  {
    var lo: nat, hi: nat := s[off], s[off + 1];
    lo + 256 * hi
  }

  function U32(s: seq<byte>, off: nat): nat
    requires off + 4 <= |s|
  {
    U16(s, off) + 65536 * U16(s, off + 2)
  }

  /** Byte by byte, the least significant one first. */
  lemma U32Bytes(s: seq<byte>, off: nat)
    requires off + 4 <= |s|
    ensures var a: nat, b: nat, c: nat, d: nat := s[off], s[off + 1], s[off + 2], s[off + 3];
            U16(s, off) == a + 0x100 * b && U32(s, off) == a + 0x100 * b + 0x1_0000 * c + 0x100_0000 * d
  {}

  function Le16(x: nat): seq<byte>
    requires x < 65536
  {
    [x % 256, x / 256]
  }

  function Le32(x: nat): (s: seq<byte>)
    requires x < TWO32
    ensures |s| == 4
  {
    Le16(x % 65536) + Le16(x / 65536)
  }

  lemma Le32RoundTrip(x: nat)
    requires x < TWO32
    ensures U32(Le32(x), 0) == x
  {
    var lo, hi := x % 65536, x / 65536;
    assert U16(Le32(x), 0) == lo && U16(Le32(x), 2) == hi;
  }

  /** The bytes before the first zero. */
  function CString(s: seq<byte>): (r: seq<byte>)
    ensures r <= s && 0 !in r
    ensures |r| < |s| ==> s[|r|] == 0
  {
    if s == [] || s[0] == 0 then []
    else
      var r := CString(s[1..]);
      assert forall b :: b in [s[0]] + r ==> b == s[0] || b in r;
      [s[0]] + r
  }

  /** A zero-free prefix that is followed by a zero byte, or by nothing, is the string. */
  lemma {:induction false} CStringIs(s: seq<byte>, r: seq<byte>)
    requires r <= s && 0 !in r && (|r| < |s| ==> s[|r|] == 0)
    ensures CString(s) == r
  {
    if r != [] {
      assert s[0] == r[0] && r[0] in r;
      CStringIs(s[1..], r[1..]);
    }
  }
}
