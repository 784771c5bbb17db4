/**
 * `huffman_compress` and `huffman_decompress` of src/compress.c: the
 * functions below state their results, the methods at the end run the C
 * loops and are proved to compute those results.
 */
module HuffmanCodec {
  import opened Bytes
  import opened Wrappers
  import opened HuffmanTree
  import opened MinHeap
  import opened HuffmanBuild
  import opened HuffmanCodes
  import opened BitStream
  import opened HuffmanHeader

  /** The reasons `huffman_compress`/`huffman_decompress` return NULL (allocation failures aside). */
  datatype HuffmanError =
    | InvalidInput        // NULL or empty input
    | NoSymbols           // no byte with a positive count
    | CodeNotFound        // an input byte without a code
    | TruncatedHeader     // input shorter than the header
    | InconsistentHeader  // all counts zero but a positive stored length
    | InvalidPath         // a bit leads to a missing child
    | LengthMismatch      // the bitstream ended before the stored length was reached

  // ---- Encoding ----

  /** The codes of `s`, concatenated; None as soon as a byte has no entry in `codes`. */
  function EncodeBits(codes: seq<CodeEntry>, s: seq<byte>): Option<seq<bool>>
  {
    if s == [] then Some([])
    else match Lookup(codes, s[0])
      case None => None
      case Some(c) =>
        match EncodeBits(codes, s[1..])
        case None => None
        case Some(rest) => Some(c + rest)
  }

  /** `huffman_compress(input, |input|, &len)`; counts are `unsigned`, so the input is shorter than 2^32 bytes. */
  function CompressSpec(input: Option<seq<byte>>): Result<seq<byte>, HuffmanError>
    requires input.Some? ==> |input.value| < U32
  {
    if input.None? || input.value == [] then Err(InvalidInput)
    else
      var f := Frequencies(input.value);
      if NonZero(f, 256) == 0 then Err(NoSymbols)
      else match EncodeBits(CodeTable(HuffmanTreeOf(f)), input.value)
        case None => Err(CodeNotFound)
        case Some(bits) => Ok(Header(f, |input.value|) + Pack(bits))
  }

  // ---- Decoding ----

  /**
   * The decoder loop from node `cur` with `acc` already produced: it stops
   * with success once `n` bytes are out, fails on a missing child, emits a
   * leaf's byte and restarts at the root, and fails when the bits run out
   * first.
   */
  function Decode(root: Tree, cur: Tree, bits: seq<bool>, n: nat, acc: seq<byte>): Result<seq<byte>, HuffmanError>
    decreases |bits|
  {
    if |acc| >= n then Ok(acc)
    else if bits == [] then Err(LengthMismatch)
    else match Child(cur, bits[0])
      case None => Err(InvalidPath)
      case Some(c) =>
        if c.Leaf? then Decode(root, root, bits[1..], n, acc + [c.symbol])
        else Decode(root, c, bits[1..], n, acc)
  }

  /** `huffman_decompress(input, |input|, &len)`. */
  function DecompressSpec(input: Option<seq<byte>>): Result<seq<byte>, HuffmanError>
  {
    if input.None? || input.value == [] then Err(InvalidInput)
    else if |input.value| < HEADER_SIZE then Err(TruncatedHeader)
    else
      var s := input.value;
      var f := ParseTable(s[..TABLE_SIZE]);
      var n := FromLittleEndian(s[TABLE_SIZE..HEADER_SIZE]);
      if NonZero(f, 256) == 0 then (if n == 0 then Ok([]) else Err(InconsistentHeader))
      else
        var root := HuffmanTreeOf(f);
        Decode(root, root, Unpack(s[HEADER_SIZE..]), n, [])
  }

  // ---- Properties ----

  lemma {:induction false} EncodeBitsConcat(codes: seq<CodeEntry>, s: seq<byte>, t: seq<byte>)
    ensures EncodeBits(codes, s + t) ==
              if EncodeBits(codes, s).Some? && EncodeBits(codes, t).Some?
              then Some(EncodeBits(codes, s).value + EncodeBits(codes, t).value) else None
  {
    if s == [] {
      assert s + t == t;
      if EncodeBits(codes, t).Some? {
        assert [] + EncodeBits(codes, t).value == EncodeBits(codes, t).value;
      }
    } else {
      assert (s + t)[0] == s[0] && (s + t)[1..] == s[1..] + t;
      EncodeBitsConcat(codes, s[1..], t);
      if EncodeBits(codes, s).Some? && EncodeBits(codes, t).Some? {
        var c := Lookup(codes, s[0]).value;
        assert c + EncodeBits(codes, s[1..]).value + EncodeBits(codes, t).value ==
               c + (EncodeBits(codes, s[1..]).value + EncodeBits(codes, t).value);
      }
    }
  }

  /** Encoding succeeds when every byte of `s` has an entry. */
  lemma {:induction false} EncodeBitsSucceeds(codes: seq<CodeEntry>, s: seq<byte>)
    requires forall i :: 0 <= i < |s| ==> CountSymbol(codes, s[i]) > 0
    ensures EncodeBits(codes, s).Some?
  {
    if s != [] {
      LookupSucceeds(codes, s[0]);
      EncodeBitsSucceeds(codes, s[1..]);
    }
  }

  /** Every byte of non-empty input is found in the code table; the encoder's "not found" branches are unreachable. */
  lemma EveryByteHasCode(x: seq<byte>)
    requires |x| >= 1
    ensures NonZero(Frequencies(x), 256) > 0
    ensures EncodeBits(CodeTable(HuffmanTreeOf(Frequencies(x))), x).Some?
  {
    var f := Frequencies(x);
    assert f[x[0]] > 0 by { assert x[0] in multiset(x); }
    NonZeroPositive(f, x[0]);
    var root := HuffmanTreeOf(f);
    HuffmanTreeShape(f);
    CodeTableFacts(root);
    forall i | 0 <= i < |x|
      ensures CountSymbol(CodeTable(root), x[i]) > 0
    {
      assert x[i] in multiset(x);
    }
    EncodeBitsSucceeds(CodeTable(root), x);
  }

  lemma {:induction false} NonZeroPositive(f: seq<nat>, b: byte)
    requires |f| == 256 && f[b] > 0
    ensures NonZero(f, 256) > 0
  {
    NonZeroMonotone(f, b as nat + 1, 256);
  }

  /**
   * The compressed layout: the 1024-byte count table holding the byte
   * counts of the input, the 8-byte input length, then ceil(bits / 8) bytes
   * from which the decoder reads back exactly the code bits followed by
   * fewer than eight zero bits.
   */
  lemma CompressLayout(x: seq<byte>)
    requires 1 <= |x| < U32
    ensures CompressSpec(Some(x)).Ok?
    ensures var s := CompressSpec(Some(x)).value;
            var bits := EncodeBits(CodeTable(HuffmanTreeOf(Frequencies(x))), x).value;
            |s| == HEADER_SIZE + (|bits| + 7) / 8 &&
            ParseTable(s[..TABLE_SIZE]) == Frequencies(x) &&
            FromLittleEndian(s[TABLE_SIZE..HEADER_SIZE]) == |x| &&
            Unpack(s[HEADER_SIZE..]) == bits + Zeros(Padding(|bits|)) &&
            Padding(|bits|) < 8
  {
    EveryByteHasCode(x);
    var f := Frequencies(x);
    var bits := EncodeBits(CodeTable(HuffmanTreeOf(f)), x).value;
    var s := CompressSpec(Some(x)).value;
    assert s == Header(f, |x|) + Pack(bits);
    FrequenciesFit(x);
    assert U32 < Pow256(8) by {
      assert Pow256(4) == U32;
      assert Pow256(8) == Pow256(4) * Pow256(4);
    }
    HeaderRoundTrip(f, |x|);
    assert s[..TABLE_SIZE] == Header(f, |x|)[..TABLE_SIZE];
    assert s[TABLE_SIZE..HEADER_SIZE] == Header(f, |x|)[TABLE_SIZE..HEADER_SIZE];
    assert s[HEADER_SIZE..] == Pack(bits);
    PackUnpack(bits);
  }

  lemma FrequenciesFit(x: seq<byte>)
    requires |x| < U32
    ensures forall i :: 0 <= i < 256 ==> Frequencies(x)[i] < U32
  {
    forall i | 0 <= i < 256
      ensures Frequencies(x)[i] < U32
    {
      assert multiset(x)[i as byte] <= |multiset(x)|;
    }
  }

  /** A successful decode produces exactly the stored number of bytes, extending what was already out. */
  lemma {:induction false} DecodeLength(root: Tree, cur: Tree, bits: seq<bool>, n: nat, acc: seq<byte>)
    requires |acc| <= n && Decode(root, cur, bits, n, acc).Ok?
    ensures |Decode(root, cur, bits, n, acc).value| == n
    ensures acc <= Decode(root, cur, bits, n, acc).value
    decreases |bits|
  {
    if |acc| < n {
      var c := Child(cur, bits[0]).value;
      if c.Leaf? {
        DecodeLength(root, root, bits[1..], n, acc + [c.symbol]);
      } else {
        DecodeLength(root, c, bits[1..], n, acc);
      }
    }
  }

  /** A successful decompression yields exactly as many bytes as the header's stored length. */
  lemma DecompressLength(s: seq<byte>)
    requires DecompressSpec(Some(s)).Ok?
    ensures |s| >= HEADER_SIZE
    ensures |DecompressSpec(Some(s)).value| == FromLittleEndian(s[TABLE_SIZE..HEADER_SIZE])
  {
    var f := ParseTable(s[..TABLE_SIZE]);
    if NonZero(f, 256) > 0 {
      var root := HuffmanTreeOf(f);
      DecodeLength(root, root, Unpack(s[HEADER_SIZE..]), FromLittleEndian(s[TABLE_SIZE..HEADER_SIZE]), []);
    }
  }

  /** Walking a leaf's non-empty path from `cur` emits that leaf's byte and returns to the root. */
  lemma {:induction false} WalkPath(root: Tree, cur: Tree, q: seq<bool>, rest: seq<bool>, n: nat, acc: seq<byte>)
    requires |acc| < n && q != []
    requires Follow(cur, q).Some? && Follow(cur, q).value.Leaf?
    ensures Decode(root, cur, q + rest, n, acc) == Decode(root, root, rest, n, acc + [Follow(cur, q).value.symbol])
    decreases |q|
  {
    var c := Child(cur, q[0]).value;
    assert (q + rest)[0] == q[0] && (q + rest)[1..] == q[1..] + rest;
    if |q| == 1 {
      assert q[1..] == [] && q[1..] + rest == rest;
    } else {
      assert c.Node?;
      WalkPath(root, c, q[1..], rest, n, acc);
    }
  }

  /** Decoding the concatenated codes of `y` after `acc` yields `acc + y`, whatever bits follow. */
  lemma {:induction false} DecodeEncoded(root: Tree, y: seq<byte>, z: seq<bool>, acc: seq<byte>)
    requires root.Node?
    requires EncodeBits(CodeTable(root), y).Some?
    ensures Decode(root, root, EncodeBits(CodeTable(root), y).value + z, |acc| + |y|, acc) == Ok(acc + y)
  {
    var codes := CodeTable(root);
    if y == [] {
      assert EncodeBits(codes, y).value + z == z;
      assert acc + y == acc;
    } else {
      var q := Lookup(codes, y[0]).value;
      var tail := EncodeBits(codes, y[1..]).value;
      LookupFound(codes, y[0]);
      CodeTableFacts(root);
      assert q + tail + z == q + (tail + z);
      WalkPath(root, root, q, tail + z, |acc| + |y|, acc);
      DecodeEncoded(root, y[1..], z, acc + [y[0]]);
      assert acc + [y[0]] + y[1..] == acc + y;
    }
  }

  /**
   * Round trip: the decoder rebuilds the encoder's tree from the stored
   * counts (same ascending seeding, same comparator), so decompressing the
   * compressed form of any input with at least two distinct byte values
   * gives the input back.
   */
  lemma RoundTrip(x: seq<byte>)
    requires |x| < U32 && NonZero(Frequencies(x), 256) >= 2
    ensures CompressSpec(Some(x)).Ok?
    ensures DecompressSpec(Some(CompressSpec(Some(x)).value)) == Ok(x)
  {
    FrequenciesNonEmpty(x);
    CompressLayout(x);
    var f := Frequencies(x);
    var bits := EncodeBits(CodeTable(HuffmanTreeOf(f)), x).value;
    DecodeCompressed(CompressSpec(Some(x)).value, f, x, bits);
  }

  lemma DecodeCompressed(s: seq<byte>, f: seq<nat>, x: seq<byte>, bits: seq<bool>)
    requires |s| >= HEADER_SIZE && |f| == 256 && NonZero(f, 256) >= 2
    requires ParseTable(s[..TABLE_SIZE]) == f && FromLittleEndian(s[TABLE_SIZE..HEADER_SIZE]) == |x|
    requires EncodeBits(CodeTable(HuffmanTreeOf(f)), x) == Some(bits)
    requires Unpack(s[HEADER_SIZE..]) == bits + Zeros(Padding(|bits|))
    ensures DecompressSpec(Some(s)) == Ok(x)
  {
    DecodeFromRoot(f, x, bits);
    DecompressHeader(s, f, |x|);
  }

  lemma DecodeFromRoot(f: seq<nat>, x: seq<byte>, bits: seq<bool>)
    requires |f| == 256 && NonZero(f, 256) >= 2
    requires EncodeBits(CodeTable(HuffmanTreeOf(f)), x) == Some(bits)
    ensures Decode(HuffmanTreeOf(f), HuffmanTreeOf(f), bits + Zeros(Padding(|bits|)), |x|, []) == Ok(x)
  {
    var none: seq<byte> := [];
    TwoSymbolsMakeNode(f);
    DecodeEncoded(HuffmanTreeOf(f), x, Zeros(Padding(|bits|)), none);
    assert none + x == x && |none| + |x| == |x|;
  }

  /** With a header holding counts `f` (not all zero) and length `n`, decompression is the decoder loop over the rest. */
  lemma DecompressHeader(s: seq<byte>, f: seq<nat>, n: nat)
    requires |s| >= HEADER_SIZE && |f| == 256 && NonZero(f, 256) > 0
    requires ParseTable(s[..TABLE_SIZE]) == f && FromLittleEndian(s[TABLE_SIZE..HEADER_SIZE]) == n
    ensures DecompressSpec(Some(s)) == Decode(HuffmanTreeOf(f), HuffmanTreeOf(f), Unpack(s[HEADER_SIZE..]), n, [])
  {
  }

  lemma TwoSymbolsMakeNode(f: seq<nat>)
    requires |f| == 256 && NonZero(f, 256) >= 2
    ensures HuffmanTreeOf(f).Node?
  {
    HuffmanTreeShape(f);
  }

  lemma FrequenciesNonEmpty(x: seq<byte>)
    requires NonZero(Frequencies(x), 256) > 0
    ensures |x| >= 1
  {
    if x == [] {
      NonZeroEmpty(Frequencies(x), 256);
    }
  }

  lemma {:induction false} NonZeroEmpty(f: seq<nat>, k: nat)
    requires k <= |f| && forall i :: 0 <= i < k ==> f[i] == 0
    ensures NonZero(f, k) == 0
  {
    if k > 0 {
      NonZeroEmpty(f, k - 1);
    }
  }

  lemma {:induction false} EncodeEmptyCode(codes: seq<CodeEntry>, c: byte, y: seq<byte>)
    requires codes == [CodeEntry(c, [])]
    requires forall i :: 0 <= i < |y| ==> y[i] == c
    ensures EncodeBits(codes, y) == Some([])
  {
    if y != [] {
      assert forall i :: 0 <= i < |y[1..]| ==> y[1..][i] == y[i + 1];
      EncodeEmptyCode(codes, c, y[1..]);
      var e := EncodeBits(codes, y[1..]).value;
      assert Lookup(codes, y[0]) == Some([]);
      assert [] + e == e;
    }
  }

  /**
   * An input made of one distinct byte value compresses to the header
   * alone (its only code is empty), and decompressing that fails the length
   * check.
   */
  lemma SingleSymbolFails(x: seq<byte>)
    requires 1 <= |x| < U32 && NonZero(Frequencies(x), 256) == 1
    ensures CompressSpec(Some(x)) == Ok(Header(Frequencies(x), |x|))
    ensures DecompressSpec(Some(Header(Frequencies(x), |x|))) == Err(LengthMismatch)
  {
    var f := Frequencies(x);
    CompressLayout(x);
    var root := HuffmanTreeOf(f);
    HuffmanTreeShape(f);
    CodeTableFacts(root);
    forall i | 0 <= i < |x|
      ensures x[i] == root.symbol
    {
      assert x[i] in multiset(x);
      assert LeafCount(root, x[i]) == 1;
    }
    EncodeEmptyCode(CodeTable(root), root.symbol, x);
    assert Pack([]) == [];
    assert Header(f, |x|) + [] == Header(f, |x|);
  }

  // ---- The C functions ----

  lemma EncodeBitsSnoc(codes: seq<CodeEntry>, s: seq<byte>, c: byte)
    ensures EncodeBits(codes, s + [c]) ==
              if EncodeBits(codes, s).Some? && Lookup(codes, c).Some?
              then Some(EncodeBits(codes, s).value + Lookup(codes, c).value) else None
  {
    EncodeBitsConcat(codes, s, [c]);
    assert [c][1..] == [];
    if Lookup(codes, c).Some? {
      assert Lookup(codes, c).value + [] == Lookup(codes, c).value;
    }
  }

  /** The encoder's `while(current_code_entry)` walk over the code list. */
  method FindCode(codes: seq<CodeEntry>, c: byte) returns (r: Option<seq<bool>>)
    ensures r == Lookup(codes, c)
  {
    var k := 0;
    while k < |codes|
      invariant 0 <= k <= |codes|
      invariant Lookup(codes[k..], c) == Lookup(codes, c)
    {
      if codes[k].symbol == c {
        return Some(codes[k].code);
      }
      assert codes[k..][1..] == codes[k + 1..];
      k := k + 1;
    }
    return None;
  }

  /**
   * The encoder's output state: the bytes flushed so far are
   * `o[HEADER_SIZE..ptr]`, packed from the bits `flushed`, and the `count`
   * < 8 bits `pending` after them sit in `buf`, most significant first.
   */
  ghost predicate Emitted(o: seq<byte>, ptr: nat, buf: nat, count: nat, flushed: seq<bool>, pending: seq<bool>)
  {
    count == |pending| < 8 && |flushed| % 8 == 0 && buf == BitsValue(pending) &&
    ptr == HEADER_SIZE + |flushed| / 8 && ptr <= |o| && o[HEADER_SIZE..ptr] == Pack(flushed)
  }

  lemma {:induction false} PackAppend(a: seq<bool>, b: seq<bool>)
    requires |a| % 8 == 0
    ensures Pack(a + b) == Pack(a) + Pack(b)
    decreases |a|
  {
    if b == [] {
      assert a + b == a && Pack(b) == [];
      assert Pack(a) + [] == Pack(a);
    } else if a == [] {
      assert a + b == b && Pack(a) == [];
      assert [] + Pack(b) == Pack(b);
    } else {
      var head, rest := [PackByte(a[..8])], a[8..];
      PackAppend(rest, b);
      calc {
        Pack(a + b);
        { assert |a + b| > 8 && (a + b)[..8] == a[..8] && (a + b)[8..] == rest + b; }
        head + Pack(rest + b);
        head + (Pack(rest) + Pack(b));
        (head + Pack(rest)) + Pack(b);
        { PackPrefix(a); }
        Pack(a) + Pack(b);
      }
    }
  }

  /** A non-empty whole number of bytes packs its first byte, then the rest. */
  lemma PackPrefix(a: seq<bool>)
    requires |a| % 8 == 0 && a != []
    ensures Pack(a) == [PackByte(a[..8])] + Pack(a[8..])
  {
    if |a| == 8 {
      assert a[8..] == [] && a[..8] == a;
    }
  }

  lemma {:induction false} Pow2Le(a: nat, b: nat)
    requires a <= b
    ensures Pow2(a) <= Pow2(b)
  {
    if a < b {
      Pow2Le(a, b - 1);
    }
  }

  /** Writing a full buffer of eight bits at `ptr` extends the packed bytes by those bits. */
  lemma FlushFull(o: seq<byte>, ptr: nat, flushed: seq<bool>, g: seq<bool>)
    requires |g| == 8 && |flushed| % 8 == 0 && ptr == HEADER_SIZE + |flushed| / 8 && ptr < |o|
    requires o[HEADER_SIZE..ptr] == Pack(flushed)
    ensures o[ptr := BitsValue(g) as byte][HEADER_SIZE..ptr + 1] == Pack(flushed + g)
  {
    PackAppend(flushed, g);
    assert Pack(g) == [PackByte(g)];
    assert PackByte(g) == BitsValue(g) as byte;
  }

  /** Writing the padded last byte at `ptr` completes the packed bits. */
  lemma FlushLast(o: seq<byte>, ptr: nat, flushed: seq<bool>, g: seq<bool>)
    requires 1 <= |g| < 8 && |flushed| % 8 == 0 && ptr == HEADER_SIZE + |flushed| / 8 && ptr < |o|
    requires o[HEADER_SIZE..ptr] == Pack(flushed)
    ensures o[ptr := PackByte(g)][HEADER_SIZE..ptr + 1] == Pack(flushed + g)
  {
    PackAppend(flushed, g);
    assert Pack(g) == [PackByte(g)];
  }

  lemma ShiftStep(pending: seq<bool>, bit: bool, buf: nat)
    requires |pending| < 8 && buf == BitsValue(pending)
    ensures (buf * 2) % 256 + (if bit then 1 else 0) == BitsValue(pending + [bit])
  {
    ShiftIn(pending, bit);
    Pow2Le(|pending|, 7);
  }

  /** One step of the inner encoder loop: shift `bit` into the buffer and flush it at eight bits. */
  method PushBit(out: array<byte>, ptr: nat, buf: nat, count: nat, bit: bool,
                 ghost flushed: seq<bool>, ghost pending: seq<bool>, ghost total: seq<bool>)
      returns (ptr': nat, buf': nat, count': nat, ghost flushed': seq<bool>, ghost pending': seq<bool>)
    requires Emitted(out[..], ptr, buf, count, flushed, pending)
    requires flushed + pending + [bit] <= total && out.Length == HEADER_SIZE + (|total| + 7) / 8
    modifies out
    ensures Emitted(out[..], ptr', buf', count', flushed', pending')
    ensures flushed' + pending' == flushed + pending + [bit]
    ensures out[..HEADER_SIZE] == old(out[..HEADER_SIZE])
  {
    ShiftStep(pending, bit, buf);
    buf' := (buf * 2) % 256;
    if bit {
      buf' := buf' + 1;
    }
    count' := count + 1;
    ptr', flushed', pending' := ptr, flushed, pending + [bit];
    if count' == 8 {
      assert |flushed| + 8 <= |total|;
      FlushFull(out[..], ptr, flushed, pending + [bit]);
      out[ptr] := buf' as byte;
      ptr' := ptr + 1;
      buf', count', flushed', pending' := 0, 0, flushed + (pending + [bit]), [];
    }
  }

  /** The inner loop over the characters of one code (lines 391-403). */
  method PushCode(out: array<byte>, ptr: nat, buf: nat, count: nat, c: seq<bool>,
                  ghost flushed: seq<bool>, ghost pending: seq<bool>, ghost total: seq<bool>)
      returns (ptr': nat, buf': nat, count': nat, ghost flushed': seq<bool>, ghost pending': seq<bool>)
    requires Emitted(out[..], ptr, buf, count, flushed, pending)
    requires flushed + pending + c <= total && out.Length == HEADER_SIZE + (|total| + 7) / 8
    modifies out
    ensures Emitted(out[..], ptr', buf', count', flushed', pending')
    ensures flushed' + pending' == flushed + pending + c
    ensures out[..HEADER_SIZE] == old(out[..HEADER_SIZE])
  {
    ptr', buf', count', flushed', pending' := ptr, buf, count, flushed, pending;
    for j := 0 to |c|
      invariant Emitted(out[..], ptr', buf', count', flushed', pending')
      invariant out[..HEADER_SIZE] == old(out[..HEADER_SIZE])
      invariant flushed' + pending' == flushed + pending + c[..j]
    {
      assert c[..j + 1] == c[..j] + [c[j]];
      assert flushed + pending + c[..j + 1] <= flushed + pending + c;
      ptr', buf', count', flushed', pending' := PushBit(out, ptr', buf', count', c[j], flushed', pending', total);
    }
    assert c[..|c|] == c;
  }

  /** The padded last byte (lines 421-424). */
  method FlushBuffer(out: array<byte>, ptr: nat, buf: nat, count: nat,
                     ghost flushed: seq<bool>, ghost pending: seq<bool>)
    requires Emitted(out[..], ptr, buf, count, flushed, pending)
    requires out.Length == HEADER_SIZE + (|flushed + pending| + 7) / 8
    modifies out
    ensures out[..HEADER_SIZE] == old(out[..HEADER_SIZE])
    ensures out[HEADER_SIZE..] == Pack(flushed + pending)
  {
    if count > 0 {
      FlushValue(pending);
      FlushLast(out[..], ptr, flushed, pending);
      var last := Shl(buf, 8 - count) % 256;
      out[ptr] := last as byte;
      assert out[HEADER_SIZE..] == out[HEADER_SIZE..ptr + 1];
    } else {
      assert pending == [] && flushed + pending == flushed;
      assert out[HEADER_SIZE..] == out[HEADER_SIZE..ptr];
    }
  }

  /** The size pass (lines 343-361): the total code length, or None when a byte has no code. */
  method CodeBitCount(codes: seq<CodeEntry>, data: seq<byte>) returns (r: Option<nat>)
    ensures r.Some? <==> EncodeBits(codes, data).Some?
    ensures r.Some? ==> r.value == |EncodeBits(codes, data).value|
  {
    var total := 0;
    ghost var bits: seq<bool> := [];
    for i := 0 to |data|
      invariant EncodeBits(codes, data[..i]) == Some(bits) && total == |bits|
    {
      var code := FindCode(codes, data[i]);
      EncodeBitsSnoc(codes, data[..i], data[i]);
      assert data[..i + 1] == data[..i] + [data[i]];
      if code.None? {
        EncodeBitsConcat(codes, data[..i + 1], data[i + 1..]);
        assert data[..i + 1] + data[i + 1..] == data;
        return None;
      }
      bits := bits + code.value;
      total := total + |code.value|;
    }
    assert data[..|data|] == data;
    return Some(total);
  }

  /** The write pass and the padded last byte (lines 385-424): the packed code bits after the header. */
  method WriteBitstream(out: array<byte>, codes: seq<CodeEntry>, data: seq<byte>, ghost bits: seq<bool>)
    requires EncodeBits(codes, data) == Some(bits) && out.Length == HEADER_SIZE + (|bits| + 7) / 8
    modifies out
    ensures out[..HEADER_SIZE] == old(out[..HEADER_SIZE])
    ensures out[HEADER_SIZE..] == Pack(bits)
  {
    var ptr: nat, buf: nat, count: nat := HEADER_SIZE, 0, 0;
    ghost var flushed: seq<bool>, pending: seq<bool> := [], [];
    assert data[..0] == [] && flushed + pending == [];
    for i := 0 to |data|
      invariant Emitted(out[..], ptr, buf, count, flushed, pending)
      invariant out[..HEADER_SIZE] == old(out[..HEADER_SIZE])
      invariant EncodeBits(codes, data[..i]) == Some(flushed + pending) && flushed + pending <= bits
    {
      EncodeBitsSnoc(codes, data[..i], data[i]);
      assert data[..i + 1] == data[..i] + [data[i]];
      EncodeBitsConcat(codes, data[..i + 1], data[i + 1..]);
      assert data[..i + 1] + data[i + 1..] == data;
      var code := FindCode(codes, data[i]);
      ptr, buf, count, flushed, pending := PushCode(out, ptr, buf, count, code.value, flushed, pending, bits);
    }
    assert data[..|data|] == data;
    FlushBuffer(out, ptr, buf, count, flushed, pending);
  }

  /** The three outcomes of `CompressSpec` for non-empty input, in terms of the counts `f`. */
  lemma CompressOutcome(data: seq<byte>, f: seq<nat>)
    requires 1 <= |data| < U32 && f == Frequencies(data)
    ensures NonZero(f, 256) == 0 ==> CompressSpec(Some(data)) == Err(NoSymbols)
    ensures NonZero(f, 256) > 0 && EncodeBits(CodeTable(HuffmanTreeOf(f)), data).None? ==>
              CompressSpec(Some(data)) == Err(CodeNotFound)
    ensures NonZero(f, 256) > 0 && EncodeBits(CodeTable(HuffmanTreeOf(f)), data).Some? ==>
              CompressSpec(Some(data)) == Ok(Header(f, |data|) + Pack(EncodeBits(CodeTable(HuffmanTreeOf(f)), data).value))
  {
  }

  /** Lines 287-325: count the bytes into `freqs`, seed the heap and build the tree; None when no count is positive. */
  method CountAndBuild(data: seq<byte>, freqs: array<nat>) returns (root: Option<Tree>)
    requires freqs.Length == 256 && |data| < U32
    modifies freqs
    ensures freqs[..] == Frequencies(data)
    ensures root.None? <==> NonZero(freqs[..], 256) == 0
    ensures root.Some? ==> root.value == HuffmanTreeOf(freqs[..])
  {
    var heap := BuildAndCreateMinHeap(data, freqs);
    SeedHeapFacts(freqs[..], 256);
    if heap.size == 0 {
      return None;
    }
    var t := BuildHuffmanTree(heap);
    return Some(t);
  }

  /** Lines 339-424: allocate the output, copy the header into it, then write the bitstream. */
  method EmitOutput(freqs: array<nat>, data: seq<byte>, codes: seq<CodeEntry>, totalBits: nat) returns (o: seq<byte>)
    requires freqs.Length == 256
    requires EncodeBits(codes, data).Some? && totalBits == |EncodeBits(codes, data).value|
    ensures o == Header(freqs[..], |data|) + Pack(EncodeBits(codes, data).value)
  {
    ghost var bits := EncodeBits(codes, data).value;
    ghost var f0 := freqs[..];
    var out := new byte[HEADER_SIZE + (totalBits + 7) / 8];
    assert freqs[..] == f0;
    var header := Header(freqs[..], |data|);
    forall k | 0 <= k < HEADER_SIZE {
      out[k] := header[k];
    }
    assert out[..HEADER_SIZE] == header;
    assert freqs[..] == f0;
    WriteBitstream(out, codes, data, bits);
    assert freqs[..] == f0;
    assert out[..] == out[..HEADER_SIZE] + out[HEADER_SIZE..];
    assert out[..] == header + Pack(bits);
    assert header == Header(freqs[..], |data|);
    o := out[..];
  }

  /** `huffman_compress` */
  method HuffmanCompress(input: Option<seq<byte>>) returns (r: Result<seq<byte>, HuffmanError>)
    requires input.Some? ==> |input.value| < U32
    ensures r == CompressSpec(input)
  {
    if input.None? || |input.value| == 0 {
      return Err(InvalidInput);
    }
    var data := input.value;
    var freqs := new nat[256];
    var root := CountAndBuild(data, freqs);
    CompressOutcome(data, freqs[..]);
    if root.None? {
      return Err(NoSymbols);
    }
    var codes := CodeTable(root.value);
    var totalBits := CodeBitCount(codes, data);
    if totalBits.None? {
      return Err(CodeNotFound);
    }
    var output := EmitOutput(freqs, data, codes, totalBits.value);
    return Ok(output);
  }

  /** One bit of the decoder loop. */
  lemma DecodeStep(root: Tree, cur: Tree, rest: seq<bool>, n: nat, acc: seq<byte>)
    requires |acc| < n && rest != []
    ensures Child(cur, rest[0]).None? ==> Decode(root, cur, rest, n, acc) == Err(InvalidPath)
    ensures Child(cur, rest[0]).Some? && Child(cur, rest[0]).value.Leaf? ==>
              Decode(root, cur, rest, n, acc) == Decode(root, root, rest[1..], n, acc + [Child(cur, rest[0]).value.symbol])
    ensures Child(cur, rest[0]).Some? && Child(cur, rest[0]).value.Node? ==>
              Decode(root, cur, rest, n, acc) == Decode(root, Child(cur, rest[0]).value, rest[1..], n, acc)
  {
  }

  lemma BitsTail(v: nat, bit: nat, u: seq<bool>)
    requires bit < 8
    ensures (Bits(v, 8)[7 - bit..] + u)[0] == Bits(v, 8)[7 - bit]
    ensures (Bits(v, 8)[7 - bit..] + u)[1..] == Bits(v, 8)[7 - (bit - 1)..] + u
  {
  }

  /** Lines 535-562: walk the tree bit by bit, most significant first, until `n` bytes are out. */
  method DecodeStream(root: Tree, body: seq<byte>, n: nat) returns (r: Result<seq<byte>, HuffmanError>)
    ensures r == Decode(root, root, Unpack(body), n, [])
  {
    var out := new byte[n];
    var cur := root;
    var count: nat := 0;
    var i := 0;
    ghost var rest := Unpack(body);
    assert out[..0] == [];
    while i < |body| && count < n
      invariant 0 <= i <= |body| && count <= n
      invariant count == n || rest == Unpack(body[i..])
      invariant Decode(root, cur, rest, n, out[..count]) == Decode(root, root, Unpack(body), n, [])
    {
      var octet := body[i];
      UnpackCons(body, i);
      var bit := 7;
      while bit >= 0 && count < n
        invariant -1 <= bit <= 7 && count <= n
        invariant count == n || rest == Bits(octet as nat, 8)[7 - bit..] + Unpack(body[i + 1..])
        invariant Decode(root, cur, rest, n, out[..count]) == Decode(root, root, Unpack(body), n, [])
        decreases bit + 1
      {
        ShrBit(octet as nat, 8, bit);
        ghost var acc := out[..count];
        if count < n {
          BitsTail(octet as nat, bit, Unpack(body[i + 1..]));
          DecodeStep(root, cur, rest, n, acc);
        }
        var next := Child(cur, Shr(octet as nat, bit) % 2 == 1);
        if next.None? {
          return Err(InvalidPath);
        }
        cur := next.value;
        if cur.Leaf? {
          out[count] := cur.symbol;
          assert out[..count + 1] == out[..count] + [cur.symbol];
          count := count + 1;
          cur := root;
        }
        rest := rest[1..];
        bit := bit - 1;
      }
      i := i + 1;
    }
    if count != n {
      return Err(LengthMismatch);
    }
    assert out[..] == out[..count];
    return Ok(out[..]);
  }

  /** Lines 487-516: a heap of capacity `unique`, seeded in ascending byte order, merged into the tree. */
  method RebuildTree(freqs: array<nat>, unique: nat) returns (root: Tree)
    requires freqs.Length == 256 && unique == NonZero(freqs[..], 256) && unique > 0
    ensures root == HuffmanTreeOf(freqs[..])
  {
    var heap := new Heap(unique);
    InsertLeaves(heap, freqs);
    SeedHeapFacts(freqs[..], 256);
    root := BuildHuffmanTree(heap);
  }

  /** `huffman_decompress` */
  method HuffmanDecompress(input: Option<seq<byte>>) returns (r: Result<seq<byte>, HuffmanError>)
    ensures r == DecompressSpec(input)
  {
    if input.None? || |input.value| == 0 {
      return Err(InvalidInput);
    }
    var s := input.value;
    if |s| < HEADER_SIZE {
      return Err(TruncatedHeader);
    }
    var table := s[..TABLE_SIZE];
    var freqs := new nat[256];
    forall i | 0 <= i < 256 {
      freqs[i] := FromLittleEndian(table[4 * i..4 * i + 4]);
    }
    assert freqs[..] == ParseTable(table);
    var n := FromLittleEndian(s[TABLE_SIZE..HEADER_SIZE]);
    var unique := 0;
    for i := 0 to 256
      invariant unique == NonZero(freqs[..], i)
    {
      if freqs[i] > 0 {
        unique := unique + 1;
      }
    }
    if unique == 0 {
      if n == 0 {
        return Ok([]);
      }
      return Err(InconsistentHeader);
    }
    var root := RebuildTree(freqs, unique);
    r := DecodeStream(root, s[HEADER_SIZE..], n);
  }
}
