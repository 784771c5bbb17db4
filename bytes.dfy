/**
 * Bytes as the C code sees them: `char` / `unsigned char` values 0..255,
 * little-endian fixed-width integers for the Huffman header, and C strings
 * (byte sequences without the NUL terminator).
 */
module Bytes {

  newtype byte = x: int | 0 <= x < 256

  const NUL: byte := 0
  const NEWLINE: byte := 10

  /** A C string's contents: the bytes before its terminating NUL. */
  predicate IsCString(s: seq<byte>) {
    forall i :: 0 <= i < |s| ==> s[i] != NUL
  }

  function Pow2(n: nat): (r: nat)
    ensures r > 0
  {
    if n == 0 then 1 else 2 * Pow2(n - 1)
  }

  /** Bitwise exclusive or of the low `n` bits of `a` and `b`. */
  function XorBits(a: nat, b: nat, n: nat): (r: nat)
    ensures r < Pow2(n)
  {
    if n == 0 then 0 else (if a % 2 == b % 2 then 0 else 1) + 2 * XorBits(a / 2, b / 2, n - 1)
  }

  /** `a ^ b` on two bytes. */
  function Xor(a: byte, b: byte): byte {
    XorBits(a as nat, b as nat, 8) as byte
  }

  lemma {:induction false} XorBitsInvolutive(a: nat, b: nat, n: nat)
    requires a < Pow2(n)
    ensures XorBits(XorBits(a, b, n), b, n) == a
  {
    if n > 0 {
      XorBitsInvolutive(a / 2, b / 2, n - 1);
      var z := XorBits(a, b, n);
      assert z / 2 == XorBits(a / 2, b / 2, n - 1);
      assert z % 2 == (if a % 2 == b % 2 then 0 else 1);
    }
  }

  /** Exclusive or with the same key byte twice gives the byte back. */
  lemma XorInvolutive(a: byte, k: byte)
    ensures Xor(Xor(a, k), k) == a
  {
    XorBitsInvolutive(a as nat, k as nat, 8);
  }

  /** The `n` little-endian bytes of `v`. */
  function LittleEndian(v: nat, n: nat): (r: seq<byte>)
    ensures |r| == n
  {
    if n == 0 then [] else [(v % 256) as byte] + LittleEndian(v / 256, n - 1)
  }

  /** The value of a little-endian byte string. */
  function FromLittleEndian(s: seq<byte>): (v: nat)
  {
    if s == [] then 0 else s[0] as nat + 256 * FromLittleEndian(s[1..])
  }

  function Pow256(n: nat): (r: nat)
    ensures r > 0
  {
    if n == 0 then 1 else 256 * Pow256(n - 1)
  }

  lemma {:induction false} FromLittleEndianBound(s: seq<byte>)
    ensures FromLittleEndian(s) < Pow256(|s|)
  {
    if s != [] {
      FromLittleEndianBound(s[1..]);
    }
  }

  /** Writing a value that fits and reading it back gives the value. */
  lemma {:induction false} LittleEndianRoundTrip(v: nat, n: nat)
    requires v < Pow256(n)
    ensures FromLittleEndian(LittleEndian(v, n)) == v
  {
    if n > 0 {
      var s := LittleEndian(v, n);
      assert s[1..] == LittleEndian(v / 256, n - 1);
      LittleEndianRoundTrip(v / 256, n - 1);
    }
  }

  /** Reading bytes and writing the value back gives the same bytes. */
  lemma {:induction false} FromLittleEndianRoundTrip(s: seq<byte>)
    ensures LittleEndian(FromLittleEndian(s), |s|) == s
  {
    if s != [] {
      FromLittleEndianRoundTrip(s[1..]);
      var v := FromLittleEndian(s);
      assert v % 256 == s[0] as nat;
      assert v / 256 == FromLittleEndian(s[1..]);
    }
  }
}
