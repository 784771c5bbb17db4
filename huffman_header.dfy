/**
 * The header `huffman_compress` writes and `huffman_decompress` reads: the
 * 256 byte counts as 4-byte `unsigned` values, then the input length as an
 * 8-byte `size_t`. The source copies host-order integers; this model fixes
 * the widths at 4 and 8 bytes and the byte order at little-endian.
 */
module HuffmanHeader {
  import opened Bytes
  import opened HuffmanTree

  /** `256 * sizeof(unsigned)` */
  const TABLE_SIZE: nat := 1024
  /** `256 * sizeof(unsigned) + sizeof(size_t)`, the offset of the bitstream */
  const HEADER_SIZE: nat := 1032

  /** The first `k` counts as 4-byte little-endian values. */
  function TableBytes(f: seq<nat>, k: nat): (r: seq<byte>)
    requires k <= |f|
    ensures |r| == 4 * k
  {
    if k == 0 then [] else TableBytes(f, k - 1) + LittleEndian(f[k - 1], 4)
  }

  /** `memcpy(frequencies, ptr, 256 * sizeof(unsigned))` */
  function ParseTable(t: seq<byte>): (f: seq<nat>)
    requires |t| == TABLE_SIZE
    ensures |f| == 256
  {
    seq(256, i requires 0 <= i < 256 => FromLittleEndian(t[4 * i..4 * i + 4]))
  }

  /** The complete header for counts `f` and input length `n`. */
  function Header(f: seq<nat>, n: nat): (h: seq<byte>)
    requires |f| == 256
    ensures |h| == HEADER_SIZE
  {
    TableBytes(f, 256) + LittleEndian(n, 8)
  }

  lemma {:induction false} TableBytesSlice(f: seq<nat>, k: nat, i: nat)
    requires i < k <= |f|
    ensures TableBytes(f, k)[4 * i..4 * i + 4] == LittleEndian(f[i], 4)
  {
    var a := TableBytes(f, k - 1);
    if i < k - 1 {
      TableBytesSlice(f, k - 1, i);
      assert TableBytes(f, k)[4 * i..4 * i + 4] == a[4 * i..4 * i + 4];
    } else {
      assert TableBytes(f, k)[4 * i..4 * i + 4] == TableBytes(f, k)[|a|..];
    }
  }

  /**
   * Reading back a header yields the counts and the length that were
   * written, as long as every count fits in an `unsigned` and the length in
   * a `size_t`.
   */
  lemma HeaderRoundTrip(f: seq<nat>, n: nat)
    requires |f| == 256 && forall i :: 0 <= i < 256 ==> f[i] < U32
    requires n < Pow256(8)
    ensures ParseTable(Header(f, n)[..TABLE_SIZE]) == f
    ensures FromLittleEndian(Header(f, n)[TABLE_SIZE..HEADER_SIZE]) == n
  {
    var h := Header(f, n);
    assert h[..TABLE_SIZE] == TableBytes(f, 256);
    assert h[TABLE_SIZE..HEADER_SIZE] == LittleEndian(n, 8);
    assert Pow256(4) == U32;
    forall i | 0 <= i < 256
      ensures ParseTable(h[..TABLE_SIZE])[i] == f[i]
    {
      TableBytesSlice(f, 256, i);
      LittleEndianRoundTrip(f[i], 4);
    }
    LittleEndianRoundTrip(n, 8);
  }
}
