/**
 * The bitstream of src/compress.c: the encoder shifts code bits into an
 * `unsigned char` buffer most significant bit first and flushes it every
 * eighth bit, zero-padding the low bits of the last byte; the decoder reads
 * every byte from bit 7 down to bit 0 with `(byte >> bit) & 1`.
 */
module BitStream {
  import opened Bytes

  /** The value of a bit string read most significant bit first. */
  function BitsValue(g: seq<bool>): (v: nat)
    ensures v < Pow2(|g|)
  {
    if g == [] then 0 else 2 * BitsValue(g[..|g| - 1]) + (if g[|g| - 1] then 1 else 0)
  }

  /** `v >> k` on a non-negative value. */
  function Shr(v: nat, k: nat): nat {
    if k == 0 then v else Shr(v / 2, k - 1)
  }

  /** The low `n` bits of `v`, most significant first. */
  function Bits(v: nat, n: nat): (r: seq<bool>)
    ensures |r| == n
  {
    if n == 0 then [] else Bits(v / 2, n - 1) + [v % 2 == 1]
  }

  function Zeros(n: nat): (r: seq<bool>)
    ensures |r| == n && forall i :: 0 <= i < n ==> !r[i]
  {
    seq(n, _ => false)
  }

  /** `v << k` without a width limit. */
  function Shl(v: nat, k: nat): (r: nat)
  {
    if k == 0 then v else 2 * Shl(v, k - 1)
  }

  lemma {:induction false} ShlBound(v: nat, n: nat, k: nat)
    requires v < Pow2(n)
    ensures Shl(v, k) < Pow2(n + k)
  {
    if k > 0 {
      ShlBound(v, n, k - 1);
    }
  }

  /** The last 1..8 code bits as the byte the encoder flushes: the bits shifted up so the padding zeros fill the low end. */
  function PackByte(g: seq<bool>): byte
    requires 1 <= |g| <= 8
  {
    ShlBound(BitsValue(g), |g|, 8 - |g|);
    assert Pow2(8) == 256;
    Shl(BitsValue(g), 8 - |g|) as byte
  }

  /** The encoded bytes: eight bits per byte, the last byte zero-padded. */
  function Pack(bits: seq<bool>): seq<byte>
    decreases |bits|
  {
    if bits == [] then []
    else if |bits| <= 8 then [PackByte(bits)]
    else [PackByte(bits[..8])] + Pack(bits[8..])
  }

  /** The bits the decoder reads from a byte string, bit 7 of each byte first. */
  function Unpack(s: seq<byte>): (r: seq<bool>)
    ensures |r| == 8 * |s|
  {
    if s == [] then [] else Bits(s[0] as nat, 8) + Unpack(s[1..])
  }

  /** The number of padding bits after `n` code bits. */
  function Padding(n: nat): nat {
    (8 - n % 8) % 8
  }

  lemma {:induction false} BitsOfValue(g: seq<bool>)
    ensures Bits(BitsValue(g), |g|) == g
  {
    if g != [] {
      var g' := g[..|g| - 1];
      BitsOfValue(g');
      var x := if g[|g| - 1] then 1 else 0;
      assert (2 * BitsValue(g') + x) / 2 == BitsValue(g');
      assert g == g' + [g[|g| - 1]];
    }
  }

  lemma {:induction false} BitsShifted(v: nat, n: nat, k: nat)
    ensures Bits(Shl(v, k), n + k) == Bits(v, n) + Zeros(k)
  {
    if k > 0 {
      BitsShifted(v, n, k - 1);
      assert Shl(v, k) / 2 == Shl(v, k - 1);
      assert Zeros(k) == Zeros(k - 1) + [false];
    }
  }

  lemma PackByteBits(g: seq<bool>)
    requires 1 <= |g| <= 8
    ensures Bits(PackByte(g) as nat, 8) == g + Zeros(8 - |g|)
  {
    BitsShifted(BitsValue(g), |g|, 8 - |g|);
    BitsOfValue(g);
  }

  lemma PaddingStep(n: nat)
    requires n > 8
    ensures Padding(n) == Padding(n - 8) && (n + 7) / 8 == (n - 8 + 7) / 8 + 1
  {
  }

  lemma PaddingLast(n: nat)
    requires 1 <= n <= 8
    ensures Padding(n) == 8 - n
  {
    if n < 8 {
      assert n % 8 == n;
    }
  }

  lemma PackUnpackLast(bits: seq<bool>)
    requires 1 <= |bits| <= 8
    ensures |Pack(bits)| == 1
    ensures Unpack(Pack(bits)) == bits + Zeros(Padding(|bits|))
  {
    var p := Pack(bits);
    assert p == [PackByte(bits)];
    calc {
      Unpack(p);
      { assert p[1..] == []; }
      Bits(PackByte(bits) as nat, 8) + [];
      { PackByteBits(bits); }
      bits + Zeros(8 - |bits|) + [];
      { PaddingLast(|bits|); }
      bits + Zeros(Padding(|bits|));
    }
  }

  /** Unpacking the packed bits gives back the bits followed by the padding zeros; one byte per started group of eight. */
  lemma {:induction false} PackUnpack(bits: seq<bool>)
    ensures |Pack(bits)| == (|bits| + 7) / 8
    ensures Unpack(Pack(bits)) == bits + Zeros(Padding(|bits|))
    decreases |bits|
  {
    if bits == [] {
    } else if |bits| <= 8 {
      PackUnpackLast(bits);
    } else {
      var head, rest := bits[..8], bits[8..];
      PackUnpack(rest);
      PackByteBits(head);
      PaddingStep(|bits|);
      var p := Pack(bits);
      assert p == [PackByte(head)] + Pack(rest);
      assert p[1..] == Pack(rest);
      calc {
        Unpack(p);
        Bits(PackByte(head) as nat, 8) + Unpack(Pack(rest));
        head + (rest + Zeros(Padding(|rest|)));
        { assert bits == head + rest; }
        bits + Zeros(Padding(|bits|));
      }
    }
  }

  /** `(v >> k) & 1` is bit `n - 1 - k` of the `n`-bit string, counted from the most significant end. */
  lemma {:induction false} ShrBit(v: nat, n: nat, k: nat)
    requires k < n
    ensures Bits(v, n)[n - 1 - k] == (Shr(v, k) % 2 == 1)
  {
    if k > 0 {
      ShrBit(v / 2, n - 1, k - 1);
    }
  }

  lemma UnpackCons(s: seq<byte>, i: nat)
    requires i < |s|
    ensures Unpack(s[i..]) == Bits(s[i] as nat, 8) + Unpack(s[i + 1..])
  {
    assert s[i..][1..] == s[i + 1..];
  }

  /** The encoder's shift register: `bit_buffer` holds the bits since the last flush, below `2^bit_count`. */
  lemma ShiftIn(g: seq<bool>, b: bool)
    requires |g| < 8
    ensures BitsValue(g + [b]) == 2 * BitsValue(g) + (if b then 1 else 0)
  {
    assert (g + [b])[..|g|] == g;
  }

  lemma FlushValue(g: seq<bool>)
    requires 1 <= |g| <= 8
    ensures Shl(BitsValue(g), 8 - |g|) % 256 == PackByte(g) as int
  {
    var x := Shl(BitsValue(g), 8 - |g|);
    assert x == PackByte(g) as int;
  }
}
