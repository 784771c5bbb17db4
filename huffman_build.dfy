/**
 * Frequency counting, heap seeding and the tree builder of src/compress.c
 * (`build_and_create_min_heap`, `build_huffman_tree`).
 *
 * `SeedHeap` and `BuildTree` say exactly which heap and which tree the C
 * loops produce, swap for swap; the encoder and the decoder both reach the
 * tree through them, which is why the decoder rebuilds the encoder's tree.
 */
module HuffmanBuild {
  import opened Bytes
  import opened HuffmanTree
  import opened MinHeap

  // ---- Specification ----

  /** `frequencies[]` after the counting loop: occurrences of each byte value. */
  function Frequencies(data: seq<byte>): (f: seq<nat>)
    ensures |f| == 256
  {
    seq(256, i requires 0 <= i < 256 => multiset(data)[i as byte])
  }

  /** The leaves the seeding loop creates from `f[0..k)`: one per nonzero count, ascending byte order. */
  function SeedLeaves(f: seq<nat>, k: nat): (r: seq<Tree>)
    requires k <= |f| <= 256
  {
    if k == 0 then []
    else if f[k - 1] > 0 then SeedLeaves(f, k - 1) + [Leaf((k - 1) as byte, f[k - 1])]
    else SeedLeaves(f, k - 1)
  }

  /** The heap after `insert_min_heap` of those leaves, in the same order. */
  function SeedHeap(f: seq<nat>, k: nat): (r: seq<Tree>)
    requires k <= |f| <= 256
  {
    if k == 0 then []
    else if f[k - 1] > 0 then HeapInsert(SeedHeap(f, k - 1), Leaf((k - 1) as byte, f[k - 1]))
    else SeedHeap(f, k - 1)
  }

  /** The number of nonzero counts in `f[0..k)`: `unique_chars_count`. */
  function NonZero(f: seq<nat>, k: nat): (n: nat)
    requires k <= |f|
    ensures n <= k
  {
    if k == 0 then 0 else NonZero(f, k - 1) + (if f[k - 1] > 0 then 1 else 0)
  }

  /** One iteration of the `build_huffman_tree` loop: extract two minima, insert their merge. */
  function MergeStep(h: seq<Tree>): (r: seq<Tree>)
    requires |h| >= 2
    ensures |r| == |h| - 1
  {
    var first := HeapExtract(h);
    var second := HeapExtract(first.1);
    HeapInsert(second.1, Merge(first.0, second.0))
  }

  /** `build_huffman_tree`: merge the two minima until one node is left; that node is the root. */
  function BuildTree(h: seq<Tree>): Tree
    requires |h| >= 1
    decreases |h|
  {
    if |h| == 1 then h[0] else BuildTree(MergeStep(h))
  }

  /** The tree both the encoder and the decoder build from a frequency table. */
  function HuffmanTreeOf(f: seq<nat>): Tree
    requires |f| == 256 && NonZero(f, 256) > 0
  {
    SeedHeapFacts(f, 256);
    BuildTree(SeedHeap(f, 256))
  }

  // ---- Sums over a heap ----

  function WeightOf(t: Tree): nat {
    t.weight
  }

  function SumBy(s: seq<Tree>, g: Tree -> nat): nat {
    if s == [] then 0 else g(s[0]) + SumBy(s[1..], g)
  }

  lemma {:induction false} SumByConcat(a: seq<Tree>, b: seq<Tree>, g: Tree -> nat)
    ensures SumBy(a + b, g) == SumBy(a, g) + SumBy(b, g)
  {
    if a == [] {
      assert a + b == b;
    } else {
      assert (a + b)[1..] == a[1..] + b;
      SumByConcat(a[1..], b, g);
    }
  }

  lemma SumByRemove(b: seq<Tree>, k: nat, g: Tree -> nat)
    requires k < |b|
    ensures SumBy(b, g) == g(b[k]) + SumBy(b[..k] + b[k + 1..], g)
  {
    assert b == b[..k] + ([b[k]] + b[k + 1..]);
    SumByConcat(b[..k], [b[k]] + b[k + 1..], g);
    SumByConcat([b[k]], b[k + 1..], g);
    SumByConcat(b[..k], b[k + 1..], g);
    assert SumBy([b[k]], g) == g(b[k]);
  }

  lemma MultisetRemove(b: seq<Tree>, k: nat)
    requires k < |b|
    ensures multiset(b[..k] + b[k + 1..]) == multiset(b) - multiset{b[k]}
  {
    assert b == b[..k] + [b[k]] + b[k + 1..];
  }

  /** A sum over a heap does not depend on the order of its nodes. */
  lemma {:induction false} SumByPermutation(a: seq<Tree>, b: seq<Tree>, g: Tree -> nat)
    requires multiset(a) == multiset(b)
    ensures SumBy(a, g) == SumBy(b, g)
    decreases |a|
  {
    if a == [] {
      assert |b| == |multiset(b)| == 0;
    } else {
      assert a[0] in multiset(b);
      var k :| 0 <= k < |b| && b[k] == a[0];
      RemoveMatching(a, b, k);
      SumByPermutation(a[1..], b[..k] + b[k + 1..], g);
      SumByRemove(b, k, g);
    }
  }

  /** Taking the same node out of two permutations of each other leaves permutations of each other. */
  lemma RemoveMatching(a: seq<Tree>, b: seq<Tree>, k: nat)
    requires a != [] && k < |b| && b[k] == a[0] && multiset(a) == multiset(b)
    ensures multiset(a[1..]) == multiset(b[..k] + b[k + 1..])
  {
    MultisetRemove(a, 0);
    MultisetRemove(b, k);
    assert a[..0] + a[1..] == a[1..];
  }

  lemma HeapInsertSum(h: seq<Tree>, t: Tree, g: Tree -> nat)
    ensures SumBy(HeapInsert(h, t), g) == SumBy(h, g) + g(t)
  {
    SumByPermutation(HeapInsert(h, t), h + [t], g);
    SumByConcat(h, [t], g);
  }

  lemma HeapExtractSum(h: seq<Tree>, g: Tree -> nat)
    requires |h| >= 1
    ensures SumBy(HeapExtract(h).1, g) + g(HeapExtract(h).0) == SumBy(h, g)
  {
    var (m, rest) := HeapExtract(h);
    SumByPermutation(rest + [m], h, g);
    SumByConcat(rest, [m], g);
  }

  // ---- Facts about the seeded heap ----

  lemma SeedHeapFacts(f: seq<nat>, k: nat)
    requires k <= |f| <= 256
    ensures |SeedHeap(f, k)| == |SeedLeaves(f, k)| == NonZero(f, k)
    ensures multiset(SeedHeap(f, k)) == multiset(SeedLeaves(f, k))
    ensures IsHeap(SeedHeap(f, k))
  {
    SeedHeapContents(f, k);
    SeedHeapIsHeap(f, k);
  }

  lemma SeedHeapContents(f: seq<nat>, k: nat)
    requires k <= |f| <= 256
    ensures |SeedHeap(f, k)| == |SeedLeaves(f, k)| == NonZero(f, k)
    ensures multiset(SeedHeap(f, k)) == multiset(SeedLeaves(f, k))
  {
    SeedHeapMultiset(f, k);
    SeedLeavesLength(f, k);
    assert |SeedHeap(f, k)| == |multiset(SeedHeap(f, k))| == |multiset(SeedLeaves(f, k))|;
  }

  lemma {:induction false} SeedLeavesLength(f: seq<nat>, k: nat)
    requires k <= |f| <= 256
    ensures |SeedLeaves(f, k)| == NonZero(f, k)
  {
    if k > 0 {
      SeedLeavesLength(f, k - 1);
    }
  }

  lemma {:induction false} SeedHeapMultiset(f: seq<nat>, k: nat)
    requires k <= |f| <= 256
    ensures multiset(SeedHeap(f, k)) == multiset(SeedLeaves(f, k))
  {
    if k > 0 {
      SeedHeapMultiset(f, k - 1);
      if f[k - 1] > 0 {
        InsertMatchesAppend(SeedHeap(f, k - 1), SeedLeaves(f, k - 1), Leaf((k - 1) as byte, f[k - 1]));
      }
    }
  }

  lemma InsertMatchesAppend(h: seq<Tree>, ls: seq<Tree>, t: Tree)
    requires multiset(h) == multiset(ls)
    ensures multiset(HeapInsert(h, t)) == multiset(ls + [t])
  {
  }

  lemma {:induction false} SeedHeapIsHeap(f: seq<nat>, k: nat)
    requires k <= |f| <= 256
    ensures IsHeap(SeedHeap(f, k))
  {
    if k > 0 {
      SeedHeapIsHeap(f, k - 1);
      if f[k - 1] > 0 {
        HeapInsertKeepsHeap(SeedHeap(f, k - 1), Leaf((k - 1) as byte, f[k - 1]));
      }
    }
  }

  /** The seeded leaves hold byte `b` once if its count is nonzero and not at all otherwise. */
  lemma {:induction false} SeedLeavesCount(f: seq<nat>, k: nat, b: byte)
    requires k <= |f| <= 256
    ensures SumBy(SeedLeaves(f, k), t => LeafCount(t, b)) == if b as int < k && f[b] > 0 then 1 else 0
  {
    if k > 0 {
      SeedLeavesCount(f, k - 1, b);
      if f[k - 1] > 0 {
        var leaf := Leaf((k - 1) as byte, f[k - 1]);
        SumByConcat(SeedLeaves(f, k - 1), [leaf], t => LeafCount(t, b));
        assert SumBy([leaf], t => LeafCount(t, b)) == LeafCount(leaf, b);
      }
    }
  }

  function SumFreq(f: seq<nat>, k: nat): nat
    requires k <= |f|
  {
    if k == 0 then 0 else SumFreq(f, k - 1) + f[k - 1]
  }

  /** The seeded leaves weigh as much as all counts together. */
  lemma {:induction false} SeedLeavesWeight(f: seq<nat>, k: nat)
    requires k <= |f| <= 256
    ensures SumBy(SeedLeaves(f, k), WeightOf) == SumFreq(f, k)
    ensures forall t :: t in SeedLeaves(f, k) ==> WeightsAreSums(t) && Internals(t) == 0
  {
    if k > 0 {
      SeedLeavesWeight(f, k - 1);
      if f[k - 1] > 0 {
        var leaf := Leaf((k - 1) as byte, f[k - 1]);
        SumByConcat(SeedLeaves(f, k - 1), [leaf], WeightOf);
        assert SumBy([leaf], WeightOf) == leaf.weight;
      }
    }
  }

  // ---- Facts about the built tree ----

  /** A measure that adds up over a merge, plus `c` for the new node, grows by `c` in one loop iteration. */
  lemma MergeStepSum(h: seq<Tree>, g: Tree -> nat, c: nat)
    requires |h| >= 2
    requires forall l, r :: g(Merge(l, r)) == g(l) + g(r) + c
    ensures SumBy(MergeStep(h), g) == SumBy(h, g) + c
  {
    var first := HeapExtract(h);
    var second := HeapExtract(first.1);
    HeapExtractSum(h, g);
    HeapExtractSum(first.1, g);
    HeapInsertSum(second.1, Merge(first.0, second.0), g);
  }

  /** ... and by `c` per merge over the whole build. */
  lemma {:induction false} BuildTreeSum(h: seq<Tree>, g: Tree -> nat, c: nat)
    requires |h| >= 1
    requires forall l, r :: g(Merge(l, r)) == g(l) + g(r) + c
    ensures g(BuildTree(h)) == SumBy(h, g) + c * (|h| - 1)
    decreases |h|
  {
    if |h| == 1 {
      assert SumBy(h, g) == g(h[0]) + SumBy(h[1..], g);
    } else {
      MergeStepSum(h, g, c);
      BuildTreeSum(MergeStep(h), g, c);
      assert c * (|h| - 1) == c * (|h| - 2) + c;
    }
  }

  /** Building from two or more nodes always ends in an internal node; from one node, that node is the root. */
  lemma {:induction false} BuildTreeRoot(h: seq<Tree>)
    requires |h| >= 1
    ensures |h| >= 2 ==> BuildTree(h).Node?
    ensures |h| == 1 ==> BuildTree(h) == h[0]
    decreases |h|
  {
    if |h| >= 2 {
      var h3 := MergeStep(h);
      BuildTreeRoot(h3);
      if |h3| == 1 {
        var first := HeapExtract(h);
        var second := HeapExtract(first.1);
        assert second.1 == [];
        assert h3 == SiftUp([] + [Merge(first.0, second.0)], 0) == [Merge(first.0, second.0)];
      }
    }
  }

  /** The built tree's leaves are exactly the nodes' leaves: `LeafCount` adds up. */
  lemma BuildTreeLeafCount(h: seq<Tree>, b: byte)
    requires |h| >= 1
    ensures LeafCount(BuildTree(h), b) == SumBy(h, t => LeafCount(t, b))
  {
    BuildTreeSum(h, t => LeafCount(t, b), 0);
  }

  /** Every merge adds one internal node: `|h| - 1` merges in all. */
  lemma BuildTreeInternals(h: seq<Tree>)
    requires |h| >= 1
    ensures Internals(BuildTree(h)) == SumBy(h, Internals) + |h| - 1
  {
    BuildTreeSum(h, Internals, 1);
  }

  /** Without overflow, every internal node weighs the sum of its children and the root weighs the total. */
  lemma {:induction false} BuildTreeWeights(h: seq<Tree>)
    requires |h| >= 1
    requires forall t :: t in h ==> WeightsAreSums(t)
    requires SumBy(h, WeightOf) < U32
    ensures WeightsAreSums(BuildTree(h))
    ensures BuildTree(h).weight == SumBy(h, WeightOf)
    decreases |h|
  {
    if |h| == 1 {
      assert SumBy(h, WeightOf) == h[0].weight + SumBy(h[1..], WeightOf);
      assert h[0] in h;
    } else {
      MergeStepWeights(h);
      BuildTreeWeights(MergeStep(h));
    }
  }

  /** One merge keeps every node's weights sums and the total weight, while the total fits in 32 bits. */
  lemma MergeStepWeights(h: seq<Tree>)
    requires |h| >= 2
    requires forall t :: t in h ==> WeightsAreSums(t)
    requires SumBy(h, WeightOf) < U32
    ensures forall t :: t in MergeStep(h) ==> WeightsAreSums(t)
    ensures SumBy(MergeStep(h), WeightOf) == SumBy(h, WeightOf)
  {
    var first := HeapExtract(h);
    var second := HeapExtract(first.1);
    var m := Merge(first.0, second.0);
    HeapExtractSum(h, WeightOf);
    HeapExtractSum(first.1, WeightOf);
    HeapInsertSum(second.1, m, WeightOf);
    SumsInSubset(first.1, h);
    SumsInSubset(second.1, first.1);
    assert h[0] in h && first.1[0] in first.1;
    SumsInInsert(second.1, m);
  }

  lemma SumsInSubset(a: seq<Tree>, b: seq<Tree>)
    requires multiset(a) <= multiset(b)
    requires forall t :: t in b ==> WeightsAreSums(t)
    ensures forall t :: t in a ==> WeightsAreSums(t)
  {
    forall t | t in a
      ensures WeightsAreSums(t)
    {
      assert t in multiset(a);
    }
  }

  lemma SumsInInsert(s: seq<Tree>, t: Tree)
    requires forall u :: u in s ==> WeightsAreSums(u)
    requires WeightsAreSums(t)
    ensures forall u :: u in HeapInsert(s, t) ==> WeightsAreSums(u)
  {
    forall u | u in HeapInsert(s, t)
      ensures WeightsAreSums(u)
    {
      assert u in multiset(HeapInsert(s, t));
      assert u == t || u in multiset(s);
    }
  }

  /**
   * The tree built from a frequency table: its leaves are exactly the bytes
   * with a nonzero count, one leaf each; it has one internal node per merge,
   * k - 1 for k leaves; it is an internal node exactly when k >= 2; and when the
   * counts add up to less than 2^32 every internal node weighs the sum of its
   * children and the root weighs the total count.
   */
  lemma HuffmanTreeShape(f: seq<nat>)
    requires |f| == 256 && NonZero(f, 256) > 0
    ensures forall b: byte :: LeafCount(HuffmanTreeOf(f), b) == if f[b] > 0 then 1 else 0
    ensures Internals(HuffmanTreeOf(f)) == NonZero(f, 256) - 1
    ensures HuffmanTreeOf(f).Node? <==> NonZero(f, 256) >= 2
    ensures SumFreq(f, 256) < U32 ==>
              WeightsAreSums(HuffmanTreeOf(f)) && HuffmanTreeOf(f).weight == SumFreq(f, 256)
  {
    var h := SeedHeap(f, 256);
    var leaves := SeedLeaves(f, 256);
    SeedHeapFacts(f, 256);
    forall b: byte
      ensures LeafCount(HuffmanTreeOf(f), b) == if f[b] > 0 then 1 else 0
    {
      BuildTreeLeafCount(h, b);
      SumByPermutation(h, leaves, t => LeafCount(t, b));
      SeedLeavesCount(f, 256, b);
    }
    BuildTreeInternals(h);
    SumByPermutation(h, leaves, Internals);
    SeedLeavesWeight(f, 256);
    SumByZero(leaves, Internals);
    BuildTreeRoot(h);
    if |h| == 1 {
      assert h[0] in multiset(leaves);
    }
    if SumFreq(f, 256) < U32 {
      SumByPermutation(h, leaves, WeightOf);
      forall t | t in h
        ensures WeightsAreSums(t)
      {
        assert t in multiset(leaves);
      }
      BuildTreeWeights(h);
    }
  }

  lemma {:induction false} SumByZero(s: seq<Tree>, g: Tree -> nat)
    requires forall t :: t in s ==> g(t) == 0
    ensures SumBy(s, g) == 0
  {
    if s != [] {
      assert s[0] in s;
      SumByZero(s[1..], g);
    }
  }

  lemma {:induction false} NonZeroMonotone(f: seq<nat>, i: nat, k: nat)
    requires i <= k <= |f|
    ensures NonZero(f, i) <= NonZero(f, k)
    decreases k - i
  {
    if i < k {
      NonZeroMonotone(f, i, k - 1);
    }
  }

  // ---- The C loops ----

  /**
   * `build_and_create_min_heap`: count every byte value of `data` into
   * `freqs`, then seed a heap of capacity 256 (`MAX_TREE_NODES`). The counts
   * are C `unsigned`; inputs shorter than 2^32 bytes keep them from wrapping.
   */
  method BuildAndCreateMinHeap(data: seq<byte>, freqs: array<nat>) returns (heap: Heap)
    requires freqs.Length == 256 && |data| < U32
    modifies freqs
    ensures forall b: byte :: freqs[b] == multiset(data)[b]
    ensures freqs[..] == Frequencies(data)
    ensures fresh(heap) && fresh(heap.data) && heap.Valid() && heap.data.Length == 256
    ensures heap.Contents() == SeedHeap(freqs[..], 256)
  {
    for i := 0 to 256
      invariant forall j :: 0 <= j < i ==> freqs[j] == 0
    {
      freqs[i] := 0;
    }
    for i := 0 to |data|
      invariant forall b: byte :: freqs[b] == multiset(data[..i])[b]
    {
      assert data[..i + 1] == data[..i] + [data[i]];
      freqs[data[i]] := freqs[data[i]] + 1;
    }
    assert data[..|data|] == data;
    heap := new Heap(256);
    NonZeroMonotone(freqs[..], 256, 256);
    InsertLeaves(heap, freqs);
  }

  /** The seeding loop shared by `build_and_create_min_heap` and `huffman_decompress`: one leaf per nonzero count, ascending. */
  method InsertLeaves(heap: Heap, freqs: array<nat>)
    requires heap.Valid() && heap.size == 0 && freqs.Length == 256
    requires NonZero(freqs[..], 256) <= heap.data.Length
    modifies heap, heap.data
    ensures heap.Valid() && heap.data == old(heap.data)
    ensures heap.Contents() == SeedHeap(freqs[..], 256)
  {
    ghost var f := freqs[..];
    for i := 0 to 256
      invariant heap.Valid() && heap.data == old(heap.data)
      invariant heap.Contents() == SeedHeap(f, i)
      invariant heap.size == NonZero(f, i)
    {
      SeedOne(heap, f, i, freqs[i]);
    }
  }

  /** One iteration of the seeding loop: the leaf for byte `i` goes in when its count is nonzero. */
  method SeedOne(heap: Heap, ghost f: seq<nat>, i: nat, count: nat)
    requires |f| == 256 && i < 256 && count == f[i]
    requires heap.Valid() && heap.Contents() == SeedHeap(f, i) && heap.size == NonZero(f, i)
    requires NonZero(f, 256) <= heap.data.Length
    modifies heap, heap.data
    ensures heap.Valid() && heap.data == old(heap.data)
    ensures heap.Contents() == SeedHeap(f, i + 1) && heap.size == NonZero(f, i + 1)
  {
    SeedHeapContents(f, i + 1);
    NonZeroMonotone(f, i + 1, 256);
    if count > 0 {
      heap.Insert(Leaf(i as byte, count));
    }
  }

  /** `build_huffman_tree`: the heap must hold at least one node (both callers check this first). */
  method BuildHuffmanTree(heap: Heap) returns (root: Tree)
    requires heap.Valid() && heap.size >= 1
    modifies heap, heap.data
    ensures heap.Valid() && heap.size == 0 && heap.data == old(heap.data)
    ensures root == BuildTree(old(heap.Contents()))
  {
    while heap.size != 1
      invariant heap.Valid() && heap.size >= 1 && heap.data == old(heap.data)
      invariant BuildTree(heap.Contents()) == BuildTree(old(heap.Contents()))
      decreases heap.size
    {
      ghost var h := heap.Contents();
      var left := heap.ExtractMin();
      var right := heap.ExtractMin();
      heap.Insert(Merge(left, right));
      assert heap.Contents() == MergeStep(h);
    }
    root := heap.ExtractMin();
  }
}
