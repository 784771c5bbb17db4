/**
 * Code assignment of src/compress.c (`generate_codes_recursive`,
 * `get_huffman_codes`) and the code-table lookup the encoder performs.
 * A code is a bit string; `false` is the character '0' (left edge) and
 * `true` the character '1' (right edge).
 */
module HuffmanCodes {
  import opened Bytes
  import opened Wrappers
  import opened HuffmanTree

  /** `HuffmanCode`: one entry of the linked code list. */
  datatype CodeEntry = CodeEntry(symbol: byte, code: seq<bool>)

  /**
   * `generate_codes_recursive(t, arr, |path|, &head)` with `arr[0..top)` ==
   * `path`, as the list it puts in front of `head`: the left subtree is walked
   * first and the right subtree's entries are prepended after it, so the
   * right subtree's entries come first. A leaf's entry is the path to it.
   */
  function Codes(t: Tree, path: seq<bool>): seq<CodeEntry>
  {
    match t
    case Leaf(s, _) => [CodeEntry(s, path)]
    case Node(_, l, r) => Codes(r, path + [true]) + Codes(l, path + [false])
  }

  /** `get_huffman_codes(root)`. */
  function CodeTable(root: Tree): seq<CodeEntry> {
    Codes(root, [])
  }

  /** The encoder's list walk: the code of the first entry whose character is `c`. */
  function Lookup(codes: seq<CodeEntry>, c: byte): Option<seq<bool>>
  {
    if codes == [] then None
    else if codes[0].symbol == c then Some(codes[0].code)
    else Lookup(codes[1..], c)
  }

  predicate IsPrefix(a: seq<bool>, b: seq<bool>) {
    |a| <= |b| && b[..|a|] == a
  }

  /** No code in the table is a prefix of another entry's code. */
  ghost predicate PrefixFree(codes: seq<CodeEntry>) {
    forall i, j :: 0 <= i < |codes| && 0 <= j < |codes| && i != j ==> !IsPrefix(codes[i].code, codes[j].code)
  }

  /** The number of entries for byte `b`. */
  function CountSymbol(codes: seq<CodeEntry>, b: byte): nat {
    if codes == [] then 0 else (if codes[0].symbol == b then 1 else 0) + CountSymbol(codes[1..], b)
  }

  lemma {:induction false} CountSymbolConcat(a: seq<CodeEntry>, b: seq<CodeEntry>, s: byte)
    ensures CountSymbol(a + b, s) == CountSymbol(a, s) + CountSymbol(b, s)
  {
    if a == [] {
      assert a + b == b;
    } else {
      assert (a + b)[1..] == a[1..] + b;
      CountSymbolConcat(a[1..], b, s);
    }
  }

  /** Every entry's code extends `path`, and the rest of it leads from `t` to a leaf holding the entry's byte. */
  lemma {:induction false} CodesArePaths(t: Tree, path: seq<bool>)
    ensures forall e :: e in Codes(t, path) ==>
              IsPrefix(path, e.code) && Follow(t, e.code[|path|..]).Some? &&
              Follow(t, e.code[|path|..]).value.Leaf? && Follow(t, e.code[|path|..]).value.symbol == e.symbol
  {
    match t
    case Leaf(s, _) =>
    case Node(_, l, r) =>
      CodesArePaths(r, path + [true]);
      CodesArePaths(l, path + [false]);
      forall e | e in Codes(t, path)
        ensures IsPrefix(path, e.code) && Follow(t, e.code[|path|..]).Some? &&
                Follow(t, e.code[|path|..]).value.Leaf? && Follow(t, e.code[|path|..]).value.symbol == e.symbol
      {
        var bit := e in Codes(r, path + [true]);
        var sub := path + [bit];
        assert IsPrefix(sub, e.code);
        assert e.code[|path|..][1..] == e.code[|sub|..];
        assert e.code[|path|..][0] == bit;
      }
  }

  /** Conversely every path from `t` to a leaf is the code of an entry for that leaf's byte. */
  lemma {:induction false} PathsAreCodes(t: Tree, path: seq<bool>, q: seq<bool>)
    requires Follow(t, q).Some? && Follow(t, q).value.Leaf?
    ensures CodeEntry(Follow(t, q).value.symbol, path + q) in Codes(t, path)
  {
    if q == [] {
      assert path + q == path;
    } else {
      var c := Child(t, q[0]).value;
      PathsAreCodes(c, path + [q[0]], q[1..]);
      assert path + [q[0]] + q[1..] == path + q;
    }
  }

  /** The table holds as many entries for `b` as the tree has leaves holding `b`: one per leaf. */
  lemma {:induction false} CodesCount(t: Tree, path: seq<bool>, b: byte)
    ensures CountSymbol(Codes(t, path), b) == LeafCount(t, b)
  {
    match t
    case Leaf(s, _) =>
      assert Codes(t, path)[1..] == [];
    case Node(_, l, r) =>
      CodesCount(r, path + [true], b);
      CodesCount(l, path + [false], b);
      CountSymbolConcat(Codes(r, path + [true]), Codes(l, path + [false]), b);
  }

  lemma CodeLengths(t: Tree, path: seq<bool>)
    ensures forall e :: e in Codes(t, path) ==> |e.code| >= |path|
    ensures t.Node? ==> forall e :: e in Codes(t, path) ==> |e.code| > |path|
  {
    CodesArePaths(t, path);
  }

  /** Every entry's code extends `path`. */
  lemma {:induction false} CodesExtendPath(t: Tree, path: seq<bool>)
    ensures forall e :: e in Codes(t, path) ==> IsPrefix(path, e.code)
  {
    match t
    case Leaf(_, _) =>
    case Node(_, l, r) =>
      CodesExtendPath(r, path + [true]);
      CodesExtendPath(l, path + [false]);
      forall e | e in Codes(t, path)
        ensures IsPrefix(path, e.code)
      {
        var sub := path + [e in Codes(r, path + [true])];
        assert IsPrefix(sub, e.code);
        assert e.code[..|path|] == e.code[..|sub|][..|path|] == sub[..|path|] == path;
      }
  }

  /** Codes below different edges of a node differ at that edge's bit, so neither is a prefix of the other. */
  lemma CrossBranch(path: seq<bool>, a: seq<bool>, b: seq<bool>)
    requires IsPrefix(path + [true], a) && IsPrefix(path + [false], b)
    ensures !IsPrefix(a, b) && !IsPrefix(b, a)
  {
    assert a[|path|] == (path + [true])[|path|];
    assert b[|path|] == (path + [false])[|path|];
  }

  /** The codes of distinct leaves are prefix-free. */
  lemma {:induction false} CodesPrefixFree(t: Tree, path: seq<bool>)
    ensures PrefixFree(Codes(t, path))
  {
    match t
    case Leaf(_, _) =>
    case Node(_, l, r) =>
      var rs, ls := Codes(r, path + [true]), Codes(l, path + [false]);
      CodesPrefixFree(r, path + [true]);
      CodesPrefixFree(l, path + [false]);
      CodesExtendPath(r, path + [true]);
      CodesExtendPath(l, path + [false]);
      var all := rs + ls;
      forall i, j | 0 <= i < |all| && 0 <= j < |all| && i != j
        ensures !IsPrefix(all[i].code, all[j].code)
      {
        if i < |rs| && j < |rs| {
          assert all[i] == rs[i] && all[j] == rs[j];
        } else if i >= |rs| && j >= |rs| {
          assert all[i] == ls[i - |rs|] && all[j] == ls[j - |rs|];
        } else if i < |rs| {
          assert all[i] == rs[i] && all[j] == ls[j - |rs|];
          assert rs[i] in rs && ls[j - |rs|] in ls;
          CrossBranch(path, all[i].code, all[j].code);
        } else {
          assert all[j] == rs[j] && all[i] == ls[i - |rs|];
          assert rs[j] in rs && ls[i - |rs|] in ls;
          CrossBranch(path, all[j].code, all[i].code);
        }
      }
  }

  /**
   * The code table of a tree: each entry's code is the root-to-leaf path of
   * a leaf holding its byte (left = '0', right = '1') and every such path
   * is an entry; each byte has one entry per leaf holding it; the codes are
   * prefix-free; codes of an internal root are non-empty; and a lone leaf
   * root gets the empty code.
   */
  lemma CodeTableFacts(root: Tree)
    ensures forall e :: e in CodeTable(root) ==>
              Follow(root, e.code).Some? && Follow(root, e.code).value.Leaf? &&
              Follow(root, e.code).value.symbol == e.symbol
    ensures forall q :: Follow(root, q).Some? && Follow(root, q).value.Leaf? ==>
              CodeEntry(Follow(root, q).value.symbol, q) in CodeTable(root)
    ensures forall b: byte :: CountSymbol(CodeTable(root), b) == LeafCount(root, b)
    ensures PrefixFree(CodeTable(root))
    ensures root.Node? ==> forall e :: e in CodeTable(root) ==> e.code != []
    ensures root.Leaf? ==> CodeTable(root) == [CodeEntry(root.symbol, [])]
  {
    CodesArePaths(root, []);
    forall e | e in CodeTable(root)
      ensures e.code[0..] == e.code
    {
    }
    forall q | Follow(root, q).Some? && Follow(root, q).value.Leaf?
      ensures CodeEntry(Follow(root, q).value.symbol, q) in CodeTable(root)
    {
      PathsAreCodes(root, [], q);
      assert [] + q == q;
    }
    forall b: byte
      ensures CountSymbol(CodeTable(root), b) == LeafCount(root, b)
    {
      CodesCount(root, [], b);
    }
    CodesPrefixFree(root, []);
    CodeLengths(root, []);
  }

  /** A lookup that succeeds returns the code of an entry for that byte. */
  lemma {:induction false} LookupFound(codes: seq<CodeEntry>, c: byte)
    requires Lookup(codes, c).Some?
    ensures CodeEntry(c, Lookup(codes, c).value) in codes
  {
    if codes[0].symbol != c {
      LookupFound(codes[1..], c);
    }
  }

  /** A lookup succeeds exactly when the table has an entry for the byte. */
  lemma {:induction false} LookupSucceeds(codes: seq<CodeEntry>, c: byte)
    ensures Lookup(codes, c).Some? <==> CountSymbol(codes, c) > 0
  {
    if codes != [] && codes[0].symbol != c {
      LookupSucceeds(codes[1..], c);
    }
  }
}
