/**
 * The Huffman coder with its one-symbol case repaired. As written
 * (`SingleSymbolFails`), an input with one distinct byte value gets a tree
 * that is a lone leaf, whose code is empty, so nothing but the header is
 * written and decompression fails its length check. The comments at
 * src/compress.c:304-313 and 510-512 leave this case open. Here both sides
 * hang a lone leaf under an internal node, which gives its byte a one-bit
 * code, and every input of fewer than 2^32 bytes round-trips. On two or
 * more distinct byte values nothing changes.
 */
module HuffmanFixed {
  import opened Bytes
  import opened Wrappers
  import opened HuffmanTree
  import opened HuffmanBuild
  import opened HuffmanCodes
  import opened BitStream
  import opened HuffmanHeader
  import opened HuffmanCodec

  /**
   * A lone leaf becomes the only child on both edges of a new root; an internal node stays.
   * Its byte then has two one-bit codes in the table, "1" first and then "0": the
   * encoder's lookup takes the first, and the decoder accepts either bit.
   */
  function Hang(t: Tree): (r: Tree)
    ensures r.Node?
    ensures t.Node? ==> r == t
    ensures forall b: byte :: LeafCount(r, b) > 0 <==> LeafCount(t, b) > 0
  {
    if t.Leaf? then Node(t.weight, t, t) else t
  }

  /** The tree encoder and decoder both use. */
  function FixedTree(f: seq<nat>): Tree
    requires |f| == 256 && NonZero(f, 256) > 0
  {
    Hang(HuffmanTreeOf(f))
  }

  /** `CompressSpec` over `FixedTree`. */
  function FixedCompress(input: Option<seq<byte>>): Result<seq<byte>, HuffmanError>
    requires input.Some? ==> |input.value| < U32
  {
    if input.None? || input.value == [] then Err(InvalidInput)
    else
      var f := Frequencies(input.value);
      if NonZero(f, 256) == 0 then Err(NoSymbols)
      else match EncodeBits(CodeTable(FixedTree(f)), input.value)
        case None => Err(CodeNotFound)
        case Some(bits) => Ok(Header(f, |input.value|) + Pack(bits))
  }

  /** `DecompressSpec` over `FixedTree`. */
  function FixedDecompress(input: Option<seq<byte>>): Result<seq<byte>, HuffmanError>
  {
    if input.None? || input.value == [] then Err(InvalidInput)
    else if |input.value| < HEADER_SIZE then Err(TruncatedHeader)
    else
      var s := input.value;
      var f := ParseTable(s[..TABLE_SIZE]);
      var n := FromLittleEndian(s[TABLE_SIZE..HEADER_SIZE]);
      if NonZero(f, 256) == 0 then (if n == 0 then Ok([]) else Err(InconsistentHeader))
      else
        var root := FixedTree(f);
        Decode(root, root, Unpack(s[HEADER_SIZE..]), n, [])
  }

  /** With two or more distinct byte values, the repaired compressor writes what the original does. */
  lemma FixedCompressAgrees(x: seq<byte>)
    requires |x| < U32 && NonZero(Frequencies(x), 256) >= 2
    ensures FixedCompress(Some(x)) == CompressSpec(Some(x))
  {
    HuffmanTreeShape(Frequencies(x));
  }

  /** On a header with two or more nonzero counts, the repaired decompressor reads what the original does. */
  lemma FixedDecompressAgrees(s: seq<byte>)
    requires |s| >= HEADER_SIZE && NonZero(ParseTable(s[..TABLE_SIZE]), 256) >= 2
    ensures FixedDecompress(Some(s)) == DecompressSpec(Some(s))
  {
    HuffmanTreeShape(ParseTable(s[..TABLE_SIZE]));
  }

  /** Every byte of a non-empty input has a code in the repaired table. */
  lemma FixedEveryByteHasCode(x: seq<byte>)
    requires |x| >= 1
    ensures NonZero(Frequencies(x), 256) > 0
    ensures EncodeBits(CodeTable(FixedTree(Frequencies(x))), x).Some?
  {
    EveryByteHasCode(x);
    var f := Frequencies(x);
    var root := FixedTree(f);
    HuffmanTreeShape(f);
    CodeTableFacts(root);
    forall i | 0 <= i < |x|
      ensures CountSymbol(CodeTable(root), x[i]) > 0
    {
      assert x[i] in multiset(x);
    }
    EncodeBitsSucceeds(CodeTable(root), x);
  }

  /** The repaired output: the same header, then the packed code bits of the repaired table. */
  lemma FixedLayout(x: seq<byte>)
    requires 1 <= |x| < U32
    ensures FixedCompress(Some(x)).Ok?
    ensures var s := FixedCompress(Some(x)).value;
            var bits := EncodeBits(CodeTable(FixedTree(Frequencies(x))), x).value;
            |s| >= HEADER_SIZE &&
            ParseTable(s[..TABLE_SIZE]) == Frequencies(x) &&
            FromLittleEndian(s[TABLE_SIZE..HEADER_SIZE]) == |x| &&
            Unpack(s[HEADER_SIZE..]) == bits + Zeros(Padding(|bits|))
  {
    FixedEveryByteHasCode(x);
    var f := Frequencies(x);
    var bits := EncodeBits(CodeTable(FixedTree(f)), x).value;
    var s := FixedCompress(Some(x)).value;
    assert s == Header(f, |x|) + Pack(bits);
    FrequenciesFit(x);
    assert U32 < Pow256(8) by {
      assert Pow256(4) == U32;
      assert Pow256(8) == Pow256(4) * Pow256(4);
    }
    HeaderRoundTrip(f, |x|);
    assert s[..TABLE_SIZE] == Header(f, |x|)[..TABLE_SIZE];
    assert s[TABLE_SIZE..HEADER_SIZE] == Header(f, |x|)[TABLE_SIZE..HEADER_SIZE];
    assert s[HEADER_SIZE..] == Pack(bits);
    PackUnpack(bits);
  }

  /** Round trip: every non-empty input shorter than 2^32 bytes, one distinct byte value included, comes back. */
  lemma FixedRoundTrip(x: seq<byte>)
    requires 1 <= |x| < U32
    ensures FixedCompress(Some(x)).Ok?
    ensures FixedDecompress(Some(FixedCompress(Some(x)).value)) == Ok(x)
  {
    FixedLayout(x);
    var f := Frequencies(x);
    var root := FixedTree(f);
    var bits := EncodeBits(CodeTable(root), x).value;
    var none: seq<byte> := [];
    DecodeEncoded(root, x, Zeros(Padding(|bits|)), none);
    assert none + x == x && |none| + |x| == |x|;
  }
}
