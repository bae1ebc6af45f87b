/**
  The frame format of src/prot.h and src/prot.c: a header of twelve bytes (flags, version, padding,
  frame size, checksum; little-endian) and then the payload.
*/
module Prot {
  type byte = b: int | 0 <= b < 256

  lemma ByteBack(b: byte)
    ensures (b as bv8) as int == b
  {
    if b < 128 {
      if b < 64 {
      } else {
      }
    } else {
      if b < 192 {
      } else {
      }
    }
  }

  lemma SliceOfSlice<T>(s: seq<T>, a: nat, b: nat, c: nat, d: nat)
    requires a <= b <= |s| && c <= d <= b - a
    ensures s[a..b][c..d] == s[a + c..a + d]
  {
    forall k | 0 <= k < d - c ensures s[a..b][c..d][k] == s[a + c..a + d][k] {
    }
  }

  const HEADER_SIZE := 12
  const FLAGS_EMPTY := 0x0000
  const FLAGS_READY := 0xbeef
  const FLAGS_EOS := 0xaaaa
  const WORD := 0x1_0000_0000

  function Le16(n: nat): (s: seq<byte>)
    requires n < 0x1_0000
    ensures |s| == 2
  {
    [n % 256, n / 256]
  }

  function Le32(n: nat): (s: seq<byte>)
    requires n < WORD
    ensures |s| == 4
  {
    [n % 256, n / 256 % 256, n / 0x1_0000 % 256, n / 0x100_0000]
  }

  function U16(s: seq<byte>, at: nat): (n: nat)
    requires at + 2 <= |s|
    ensures n < 0x1_0000
  {
    s[at] as int + 256 * (s[at + 1] as int)
  }

  function U32(s: seq<byte>, at: nat): (n: nat)
    requires at + 4 <= |s|
    ensures n < WORD
  {
    s[at] as int + 256 * (s[at + 1] as int) + 0x1_0000 * (s[at + 2] as int) + 0x100_0000 * (s[at + 3] as int)
  }

  /** What was stored in a 16-bit field is what is read back. */
  lemma Read16(s: seq<byte>, at: nat, n: nat)
    requires n < 0x1_0000 && at + 2 <= |s| && s[at..at + 2] == Le16(n)
    ensures U16(s, at) == n
  {
    assert s[at] == s[at..at + 2][0] && s[at + 1] == s[at..at + 2][1];
  }

  lemma Read32(s: seq<byte>, at: nat, n: nat)
    requires n < WORD && at + 4 <= |s| && s[at..at + 4] == Le32(n)
    ensures U32(s, at) == n
  {
    BytesOf(n);
    hide Le32;
    var w := s[at..at + 4];
    Le32Bytes(n);
    assert s[at] == w[0] && s[at + 1] == w[1] && s[at + 2] == w[2] && s[at + 3] == w[3];
  }

  lemma Le32Bytes(n: nat)
    requires n < WORD
    ensures Le32(n)[0] == n % 256 && Le32(n)[1] == n / 256 % 256
    ensures Le32(n)[2] == n / 0x1_0000 % 256 && Le32(n)[3] == n / 0x100_0000
  {
  }

  lemma BytesOf(n: nat)
    requires n < WORD
    ensures n % 256 + 256 * (n / 256 % 256) + 0x1_0000 * (n / 0x1_0000 % 256) + 0x100_0000 * (n / 0x100_0000) == n
  {
    var q := n / 256;
    var r := q / 256;
    assert n / 0x1_0000 == r && n / 0x100_0000 == r / 256;
    assert n == 256 * q + n % 256 && q == 256 * r + q % 256 && r == 256 * (r / 256) + r % 256;
  }

  function Flags(s: seq<byte>, at: nat): nat
    requires at + HEADER_SIZE <= |s|
  {
    U16(s, at)
  }

  function FrameSize(s: seq<byte>, at: nat): nat
    requires at + HEADER_SIZE <= |s|
  {
    U32(s, at + 4)
  }

  predicate IsHeader(s: seq<byte>, at: nat)
    requires at + HEADER_SIZE <= |s|
  {
    Flags(s, at) == FLAGS_READY || Flags(s, at) == FLAGS_EOS
  }

  function Header(flags: nat, size: nat, crc: nat): (s: seq<byte>)
    requires flags < 0x1_0000 && size < WORD && crc < WORD
    ensures |s| == HEADER_SIZE
  {
    Le16(flags) + [0, 0] + Le32(size) + Le32(crc)
  }

  /** A header reads back as it was written. */
  lemma HeaderReads(s: seq<byte>, at: nat, flags: nat, size: nat, crc: nat)
    requires flags < 0x1_0000 && size < WORD && crc < WORD
    requires at + HEADER_SIZE <= |s| && s[at..at + HEADER_SIZE] == Header(flags, size, crc)
    ensures Flags(s, at) == flags && FrameSize(s, at) == size
  {
    var h := s[at..at + HEADER_SIZE];
    assert h[0..2] == Le16(flags) && h[4..8] == Le32(size);
    SliceOfSlice(s, at, at + HEADER_SIZE, 0, 2);
    SliceOfSlice(s, at, at + HEADER_SIZE, 4, 8);
    Read16(s, at, flags);
    Read32(s, at + 4, size);
  }
}
