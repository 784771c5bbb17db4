/**
 * The Huffman tree of src/compress.c (`HuffmanNode`, include/compress.h).
 * A `HuffmanNode` with both child pointers NULL is a leaf; the builder only
 * ever creates internal nodes with two children, so the tree is a datatype
 * with exactly these two shapes.
 */
module HuffmanTree {
  import opened Bytes
  import opened Wrappers

  /** 2^32: the C `unsigned` counts and sums wrap modulo this. */
  const U32: nat := 0x1_0000_0000

  datatype Tree =
    | Leaf(symbol: byte, weight: nat)
    | Node(weight: nat, left: Tree, right: Tree)

  /** `left->frequency + right->frequency` in `unsigned` arithmetic. */
  function MergeWeight(a: nat, b: nat): (w: nat)
    ensures w < U32
    ensures a + b < U32 ==> w == a + b
  {
    (a + b) % U32
  }

  /** The internal node `new_huffman_node('$', ...)` with the two extracted minima as children. */
  function Merge(l: Tree, r: Tree): (t: Tree)
    ensures t.Node? && t.left == l && t.right == r
    ensures l.weight + r.weight < U32 ==> t.weight == l.weight + r.weight
  {
    Node(MergeWeight(l.weight, r.weight), l, r)
  }

  /** Every internal node weighs exactly the sum of its two children. */
  ghost predicate WeightsAreSums(t: Tree) {
    match t
    case Leaf(_, _) => true
    case Node(w, l, r) => w == l.weight + r.weight && WeightsAreSums(l) && WeightsAreSums(r)
  }

  /** The number of leaves of `t` that hold byte `b`. */
  function LeafCount(t: Tree, b: byte): nat {
    match t
    case Leaf(s, _) => if s == b then 1 else 0
    case Node(_, l, r) => LeafCount(l, b) + LeafCount(r, b)
  }

  /** The number of internal nodes of `t`, one per merge. */
  function Internals(t: Tree): nat {
    match t
    case Leaf(_, _) => 0
    case Node(_, l, r) => 1 + Internals(l) + Internals(r)
  }

  /** The sum of the weights of the leaves of `t`. */
  function LeafWeight(t: Tree): nat {
    match t
    case Leaf(_, w) => w
    case Node(_, l, r) => LeafWeight(l) + LeafWeight(r)
  }

  /** The child an edge leads to: `false` (bit 0) is left, `true` (bit 1) is right. */
  function Child(t: Tree, bit: bool): (r: Option<Tree>)
    ensures r.Some? <==> t.Node?
  {
    match t
    case Leaf(_, _) => None
    case Node(_, l, r) => Some(if bit then r else l)
  }

  /** The subtree reached by walking `path` from `t`, if every step has a child. */
  function Follow(t: Tree, path: seq<bool>): Option<Tree>
  {
    if path == [] then Some(t)
    else match Child(t, path[0])
      case None => None
      case Some(c) => Follow(c, path[1..])
  }

  lemma {:induction false} WeightsAreSumsLeafWeight(t: Tree)
    requires WeightsAreSums(t)
    ensures t.weight == LeafWeight(t)
  {
    match t
    case Leaf(_, _) =>
    case Node(_, l, r) =>
      WeightsAreSumsLeafWeight(l);
      WeightsAreSumsLeafWeight(r);
  }
}
