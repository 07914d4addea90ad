/**
 * Bytes and the 32-bit little-endian integers of the comment header
 * (the `htole32` / `le32toh` conversions of src/opus.cc).
 */
module LittleEndian {
  import Slices

  type Byte = b: int | 0 <= b < 256

  const TwoTo32: nat := 0x1_0000_0000

  type Uint32 = n: int | 0 <= n < 0x1_0000_0000

  /** The four bytes of `n`, least significant first. */
  function EncodeLE32(n: Uint32): (r: seq<Byte>)
    ensures |r| == 4
  {
    [n % 256, (n / 256) % 256, (n / 65536) % 256, n / 16777216]
  }

  /** The number whose little-endian representation is `s`. */
  function DecodeLE32(s: seq<Byte>): (n: Uint32)
    requires |s| == 4
  {
    var b0: int, b1: int, b2: int, b3: int := s[0], s[1], s[2], s[3];
    b0 + 256 * b1 + 65536 * b2 + 16777216 * b3
  }

  /** The 32-bit value stored at `pos` in `b`, as `le32toh(*(uint32_t*)(b + pos))` reads it. */
  function ReadLE32(b: seq<Byte>, pos: nat): Uint32
    requires pos + 4 <= |b|
  {
    DecodeLE32(b[pos..pos + 4])
  }

  /** A `size_t` converted to `uint32_t`: the value modulo 2^32. */
  function Truncate32(n: nat): (r: Uint32)
    ensures r <= n
    ensures n < TwoTo32 ==> r == n
  {
    n % 0x1_0000_0000
  }

  /**
   * The four bytes `htole32` stores for a `size_t` length: the length is
   * converted to `uint32_t`, so it wraps modulo 2^32.
   */
  function WriteLE32(length: nat): (r: seq<Byte>)
    ensures |r| == 4
  {
    EncodeLE32(Truncate32(length))
  }

  lemma DecodeEncode(n: Uint32)
    ensures DecodeLE32(EncodeLE32(n)) == n
  {
    var b0: int := n % 256;
    var m: int := n / 256;
    var b1: int := m % 256;
    var k: int := m / 256;
    var b2: int := k % 256;
    var j: int := k / 256;
    assert n == 256 * m + b0 && m == 256 * k + b1 && k == 256 * j + b2;
    assert n / 65536 == k by {
      assert n == 65536 * k + (256 * b1 + b0);
    }
    assert n / 16777216 == j by {
      assert n == 16777216 * j + (65536 * b2 + 256 * b1 + b0);
    }
    assert EncodeLE32(n) == [b0, b1, b2, j];
  }

  lemma EncodeDecode(s: seq<Byte>)
    requires |s| == 4
    ensures EncodeLE32(DecodeLE32(s)) == s
  {
    var n: int := DecodeLE32(s);
    var b0: int, b1: int, b2: int, b3: int := s[0], s[1], s[2], s[3];
    assert n == b0 + 256 * (b1 + 256 * (b2 + 256 * b3));
    assert n % 256 == b0 && n / 256 == b1 + 256 * (b2 + 256 * b3);
    var m := n / 256;
    assert m % 256 == b1 && m / 256 == b2 + 256 * b3;
    var k := m / 256;
    assert k % 256 == b2 && k / 256 == b3;
    assert n / 65536 == k by {
      assert n == 65536 * k + (256 * b1 + b0);
    }
    assert n / 16777216 == b3 by {
      assert n == 16777216 * b3 + (65536 * b2 + 256 * b1 + b0);
    }
  }

  /** A length below 2^32 is read back exactly; a longer one comes back wrapped. */
  lemma ReadWritten(pre: seq<Byte>, length: nat, post: seq<Byte>)
    ensures ReadLE32(pre + WriteLE32(length) + post, |pre|) == Truncate32(length)
  {
    Slices.Middle(pre, WriteLE32(length), post);
    DecodeEncode(Truncate32(length));
  }

  /** Four bytes that `htole32` wrote, wherever they stand, are read back as the truncated length. */
  lemma ReadAt(b: seq<Byte>, pos: nat, length: nat)
    requires pos + 4 <= |b|
    requires b[pos..pos + 4] == WriteLE32(length)
    ensures ReadLE32(b, pos) == Truncate32(length)
  {
    DecodeEncode(Truncate32(length));
  }

  /** Writing back a value that was read reproduces the four bytes it was read from. */
  lemma WriteRead(b: seq<Byte>, pos: nat)
    requires pos + 4 <= |b|
    ensures WriteLE32(ReadLE32(b, pos)) == b[pos..pos + 4]
  {
    EncodeDecode(b[pos..pos + 4]);
  }
}
