/**
 * The array-backed binary min-heap of src/compress.c (`MinHeap`): nodes are
 * ordered by weight only, compared with strict `<`, so ties keep whatever
 * order the swaps leave them in.
 *
 * The functions below are the heap operations on the sequence
 * `array[0..size)`; the class `Heap` runs them in place on an array.
 */
module MinHeap {
  import opened HuffmanTree

  function Parent(i: nat): nat
    requires i > 0
  {
    (i - 1) / 2
  }

  /** Heap order: no node weighs less than its parent. */
  ghost predicate IsHeap(s: seq<Tree>) {
    forall j :: 0 < j < |s| ==> s[Parent(j)].weight <= s[j].weight
  }

  function Swap(s: seq<Tree>, i: nat, j: nat): (r: seq<Tree>)
    requires i < |s| && j < |s|
    ensures |r| == |s| && multiset(r) == multiset(s)
    ensures r[i] == s[j] && r[j] == s[i]
    ensures forall k :: 0 <= k < |s| && k != i && k != j ==> r[k] == s[k]
  {
    s[i := s[j]][j := s[i]]
  }

  /** The `while` loop of `insert_min_heap`: swap the node at `i` with its parent while it is lighter. */
  function SiftUp(s: seq<Tree>, i: nat): (r: seq<Tree>)
    requires i < |s|
    ensures |r| == |s| && multiset(r) == multiset(s)
    decreases i
  {
    if i > 0 && s[i].weight < s[Parent(i)].weight then SiftUp(Swap(s, i, Parent(i)), Parent(i)) else s
  }

  /** `insert_min_heap` on a heap that is not full: append, then sift up. */
  function HeapInsert(s: seq<Tree>, t: Tree): (r: seq<Tree>)
    ensures |r| == |s| + 1 && multiset(r) == multiset(s) + multiset{t}
  {
    SiftUp(s + [t], |s|)
  }

  /** The index `min_heapify` picks: `i`, or a child of `i` that is strictly lighter than it and than the other child. */
  function Smallest(s: seq<Tree>, i: nat): (m: nat)
    requires i < |s|
    ensures m < |s| && (m == i || m == 2 * i + 1 || m == 2 * i + 2)
  {
    var smallest := if 2 * i + 1 < |s| && s[2 * i + 1].weight < s[i].weight then 2 * i + 1 else i;
    if 2 * i + 2 < |s| && s[2 * i + 2].weight < s[smallest].weight then 2 * i + 2 else smallest
  }

  /** `min_heapify`: swap the node at `i` with its lightest child while that child is lighter. */
  function SiftDown(s: seq<Tree>, i: nat): (r: seq<Tree>)
    requires i < |s|
    ensures |r| == |s| && multiset(r) == multiset(s)
    decreases |s| - i
  {
    var m := Smallest(s, i);
    if m != i then SiftDown(Swap(s, m, i), m) else s
  }

  /** `extract_min`: take the root, move the last node to the root, shrink, sift down. */
  function HeapExtract(s: seq<Tree>): (r: (Tree, seq<Tree>))
    requires |s| >= 1
    ensures r.0 == s[0] && |r.1| == |s| - 1
    ensures multiset(r.1) + multiset{r.0} == multiset(s)
  {
    var rest := s[0 := s[|s| - 1]][..|s| - 1];
    assert multiset(rest) + multiset{s[0]} == multiset(s) by {
      assert s == [s[0]] + s[1..];
      if |s| > 1 {
        assert rest == [s[|s| - 1]] + s[1..|s| - 1];
        assert s[1..] == s[1..|s| - 1] + [s[|s| - 1]];
      }
    }
    (s[0], if |rest| > 0 then SiftDown(rest, 0) else rest)
  }

  // ---- Heap order is kept by both operations ----

  /** Heap order everywhere except between `i` and its parent, and `i`'s parent is no heavier than `i`'s children. */
  ghost predicate HeapExceptUp(s: seq<Tree>, i: nat) {
    && (forall j :: 0 < j < |s| && j != i ==> s[Parent(j)].weight <= s[j].weight)
    && (i > 0 ==> forall j :: 0 < j < |s| && Parent(j) == i ==> s[Parent(i)].weight <= s[j].weight)
  }

  /** Heap order everywhere except between `i` and its children, and `i`'s parent is no heavier than `i`'s children. */
  ghost predicate HeapExceptDown(s: seq<Tree>, i: nat) {
    && (forall j :: 0 < j < |s| && Parent(j) != i ==> s[Parent(j)].weight <= s[j].weight)
    && (i > 0 ==> forall j :: 0 < j < |s| && Parent(j) == i ==> s[Parent(i)].weight <= s[j].weight)
  }

  lemma {:induction false} SiftUpHeap(s: seq<Tree>, i: nat)
    requires i < |s| && HeapExceptUp(s, i)
    ensures IsHeap(SiftUp(s, i))
    decreases i
  {
    if i > 0 && s[i].weight < s[Parent(i)].weight {
      var p := Parent(i);
      var s' := Swap(s, i, p);
      forall j | 0 < j < |s'| && j != p
        ensures s'[Parent(j)].weight <= s'[j].weight
      {
        if j == i {
        } else if Parent(j) == p {
          assert s[p].weight <= s[j].weight;
        } else if Parent(j) == i {
        } else {
          assert s'[Parent(j)] == s[Parent(j)];
        }
      }
      if p > 0 {
        forall j | 0 < j < |s'| && Parent(j) == p
          ensures s'[Parent(p)].weight <= s'[j].weight
        {
          assert s'[Parent(p)] == s[Parent(p)];
          if j != i {
            assert s[p].weight <= s[j].weight;
          }
        }
      }
      SiftUpHeap(s', p);
    }
  }

  /** One swap of `min_heapify` moves the hole in heap order down to the child `m`. */
  lemma SiftDownStep(s: seq<Tree>, i: nat, m: nat)
    requires i < |s| && HeapExceptDown(s, i)
    requires m < |s| && (m == 2 * i + 1 || m == 2 * i + 2) && s[m].weight < s[i].weight
    requires forall c :: c < |s| && (c == 2 * i + 1 || c == 2 * i + 2) ==> s[m].weight <= s[c].weight
    ensures HeapExceptDown(Swap(s, m, i), m)
  {
    var s' := Swap(s, m, i);
    assert Parent(m) == i;
    forall j | 0 < j < |s'| && Parent(j) != m
      ensures s'[Parent(j)].weight <= s'[j].weight
    {
      if Parent(j) == i {
        assert j == 2 * i + 1 || j == 2 * i + 2;
      } else if j == i {
        assert s[Parent(i)].weight <= s[m].weight;
      } else {
        assert s'[Parent(j)] == s[Parent(j)];
      }
    }
    forall j | 0 < j < |s'| && Parent(j) == m
      ensures s'[Parent(m)].weight <= s'[j].weight
    {
      assert s[Parent(j)].weight <= s[j].weight;
    }
  }

  lemma {:induction false} SiftDownHeap(s: seq<Tree>, i: nat)
    requires i < |s| && HeapExceptDown(s, i)
    ensures IsHeap(SiftDown(s, i))
    decreases |s| - i
  {
    var m := Smallest(s, i);
    SmallestIsLightest(s, i);
    if m != i {
      SiftDownStep(s, i, m);
      SiftDownHeap(Swap(s, m, i), m);
    } else {
      SiftDownDone(s, i);
    }
  }

  /** The index `min_heapify` picks is the lightest of `i` and its children. */
  lemma SmallestIsLightest(s: seq<Tree>, i: nat)
    requires i < |s|
    ensures forall c :: c < |s| && (c == 2 * i + 1 || c == 2 * i + 2) ==> s[Smallest(s, i)].weight <= s[c].weight
    ensures Smallest(s, i) != i ==> s[Smallest(s, i)].weight < s[i].weight
  {
  }

  /** When no child of `i` is lighter than it, heap order holds everywhere. */
  lemma SiftDownDone(s: seq<Tree>, i: nat)
    requires i < |s| && HeapExceptDown(s, i) && Smallest(s, i) == i
    ensures IsHeap(s)
  {
    forall j | 0 < j < |s| && Parent(j) == i
      ensures s[Parent(j)].weight <= s[j].weight
    {
      assert j == 2 * i + 1 || j == 2 * i + 2;
    }
  }

  /** Inserting into a heap gives a heap. */
  lemma HeapInsertKeepsHeap(s: seq<Tree>, t: Tree)
    requires IsHeap(s)
    ensures IsHeap(HeapInsert(s, t))
  {
    var s' := s + [t];
    forall j | 0 < j < |s'| && Parent(j) == |s|
      ensures false
    {
    }
    SiftUpHeap(s', |s|);
  }

  /** Extracting from a heap leaves a heap. */
  lemma HeapExtractKeepsHeap(s: seq<Tree>)
    requires |s| >= 1 && IsHeap(s)
    ensures IsHeap(HeapExtract(s).1)
  {
    var rest := s[0 := s[|s| - 1]][..|s| - 1];
    if |rest| > 0 {
      forall j | 0 < j < |rest| && Parent(j) != 0
        ensures rest[Parent(j)].weight <= rest[j].weight
      {
        assert rest[Parent(j)] == s[Parent(j)];
      }
      SiftDownHeap(rest, 0);
    }
  }

  /** The root of a heap weighs no more than any node. */
  lemma {:induction false} HeapRootIsMin(s: seq<Tree>, j: nat)
    requires IsHeap(s) && j < |s|
    ensures s[0].weight <= s[j].weight
    decreases j
  {
    if j > 0 {
      HeapRootIsMin(s, Parent(j));
    }
  }

  /** `extract_min` on a heap returns a node of least weight. */
  lemma HeapExtractIsMin(s: seq<Tree>)
    requires |s| >= 1 && IsHeap(s)
    ensures forall t :: t in s ==> HeapExtract(s).0.weight <= t.weight
  {
    forall t | t in s
      ensures s[0].weight <= t.weight
    {
      var j :| 0 <= j < |s| && s[j] == t;
      HeapRootIsMin(s, j);
    }
  }

  /** `MinHeap`: `array` holds the nodes, `size` how many are in use, `array.Length` is `capacity`. */
  class Heap {
    var data: array<Tree>
    var size: nat

    ghost predicate Valid()
      reads this
    {
      size <= data.Length
    }

    /** The nodes in the heap, `array[0..size)`. */
    ghost function Contents(): seq<Tree>
      reads this, data
      requires Valid()
    {
      data[..size]
    }

    /** `create_min_heap(capacity)`. */
    constructor (capacity: nat)
      ensures Valid() && fresh(data) && data.Length == capacity && Contents() == []
    {
      data := new Tree[capacity](_ => Leaf(0, 0));
      size := 0;
    }

    /** `insert_min_heap`: a full heap reports an error and is left unchanged. */
    method Insert(t: Tree)
      requires Valid()
      modifies this`size, data
      ensures Valid() && data == old(data)
      ensures size == if old(size) < data.Length then old(size) + 1 else old(size)
      ensures Contents() == if old(size) < data.Length then HeapInsert(old(Contents()), t) else old(Contents())
    {
      if size == data.Length {
        return;
      }
      size := size + 1;
      data[size - 1] := t;
      assert Contents() == old(Contents()) + [t];
      SiftUpFrom(size - 1);
    }

    /** The `while` loop of `insert_min_heap`, started at slot `i`. */
    method SiftUpFrom(i: nat)
      requires Valid() && i < size
      modifies data
      ensures Valid() && Contents() == SiftUp(old(Contents()), i)
    {
      var k: nat := i;
      while k > 0 && data[k].weight < data[(k - 1) / 2].weight
        invariant Valid() && k < size
        invariant SiftUp(Contents(), k) == SiftUp(old(Contents()), i)
        decreases k
      {
        k := SwapWithParent(k);
      }
    }

    /** One iteration of the `insert_min_heap` loop: the node at `i` changes places with its heavier parent. */
    method SwapWithParent(i: nat) returns (p: nat)
      requires Valid() && 0 < i < size && data[i].weight < data[Parent(i)].weight
      modifies data
      ensures Valid() && p == Parent(i) && p < i
      ensures Contents() == Swap(old(Contents()), i, p)
      ensures SiftUp(Contents(), p) == SiftUp(old(Contents()), i)
    {
      p := (i - 1) / 2;
      data[i], data[p] := data[p], data[i];
      assert Contents() == Swap(old(Contents()), i, p);
    }

    /** `min_heapify(min_heap, idx)`. */
    method MinHeapify(idx: nat)
      requires Valid() && idx < size
      modifies data
      ensures Valid() && data[..size] == SiftDown(old(data[..size]), idx)
      decreases size - idx
    {
      ghost var s := data[..size];
      var smallest := idx;
      var left := 2 * idx + 1;
      var right := 2 * idx + 2;
      if left < size && data[left].weight < data[smallest].weight {
        smallest := left;
      }
      if right < size && data[right].weight < data[smallest].weight {
        smallest := right;
      }
      assert smallest == Smallest(s, idx);
      if smallest != idx {
        var tmp := data[smallest];
        data[smallest] := data[idx];
        data[idx] := tmp;
        assert data[..size] == Swap(s, smallest, idx);
        MinHeapify(smallest);
      }
    }

    /** `extract_min`; its guard against an empty heap can never fire, so callers must not call it on one. */
    method ExtractMin() returns (t: Tree)
      requires Valid() && size >= 1
      modifies this`size, data
      ensures Valid() && data == old(data)
      ensures (t, Contents()) == HeapExtract(old(Contents()))
      ensures size == old(size) - 1
    {
      t := data[0];
      data[0] := data[size - 1];
      size := size - 1;
      assert Contents() == old(Contents())[0 := old(Contents())[old(size) - 1]][..size];
      if size > 0 {
        MinHeapify(0);
      }
    }
  }
}
