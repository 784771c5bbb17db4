/**
 * The line sorter: `split_into_lines` fills a `LineArray`, `sort_lines`
 * bubble-sorts its slots in place by `strcmp`, and `join_lines` writes every
 * line back followed by '\n'.
 */
module LineSort {
  import opened Wrappers
  import opened Bytes
  import opened Text

  /** `size_t` arithmetic wraps modulo 2^64. */
  const SIZE_T: nat := 0x1_0000_0000_0000_0000

  /** A `LineArray`: `lines` has room for `lines.Length` lines and holds `count`. */
  class LineArray {
    var lines: array<seq<byte>>
    var count: nat

    ghost predicate Valid()
      reads this
    {
      count <= lines.Length
    }

    function Contents(): seq<seq<byte>>
      reads this, lines
      requires Valid()
    {
      lines[..count]
    }

    constructor (capacity: nat)
      ensures Valid() && fresh(lines) && lines.Length == capacity && count == 0
    {
      lines := new seq<byte>[capacity](_ => []);
      count := 0;
    }

    /** `lines->lines[lines->count] = ...; lines->count++` */
    method Append(line: seq<byte>)
      requires Valid() && count < lines.Length
      modifies this, lines
      ensures Valid() && lines == old(lines) && Contents() == old(Contents()) + [line]
    {
      lines[count] := line;
      count := count + 1;
    }
  }

  /** The counting loop of `split_into_lines` (lines 14-21). */
  method CountLines(t: seq<byte>) returns (n: nat)
    ensures n == NewlineCount(t) + 1
  {
    n := 1;
    for i := 0 to |t|
      invariant n == NewlineCount(t[..i]) + 1
    {
      assert t[..i + 1] == t[..i] + [t[i]];
      NewlineCountConcat(t[..i], [t[i]]);
      assert NewlineCount([t[i]]) == if t[i] == NEWLINE then 1 else 0;
      if t[i] == NEWLINE {
        n := n + 1;
      }
    }
    assert t[..|t|] == t;
  }

  /**
   * `split_into_lines`: NULL for NULL text; otherwise an array sized for one
   * line per newline plus one, holding the lines of the text.
   */
  method SplitIntoLines(text: Option<seq<byte>>) returns (r: LineArray?)
    ensures text.None? <==> r == null
    ensures r != null ==> fresh(r) && fresh(r.lines) && r.Valid()
    ensures r != null ==> r.lines.Length == NewlineCount(text.value) + 1 && r.Contents() == Lines(text.value)
  {
    if text.None? {
      return null;
    }
    var t := text.value;
    var lineCount := CountLines(t);
    LinesCount(t);
    r := new LineArray(lineCount);
    FillLines(r, t);
  }

  /** The splitting loop of `split_into_lines` (lines 40-67), into an empty array. */
  method FillLines(la: LineArray, t: seq<byte>)
    requires la.Valid() && la.count == 0 && |Lines(t)| <= la.lines.Length
    modifies la, la.lines
    ensures la.Valid() && la.lines == old(la.lines) && la.Contents() == Lines(t)
  {
    ghost var ls := Lines(t);
    var start := 0;
    var next := IndexOf(t[start..], NEWLINE);
    assert t[0..] == t;
    while next.Some?
      invariant start <= |t| && next == IndexOf(t[start..], NEWLINE)
      invariant la.Valid() && la.lines == old(la.lines) && la.count <= |ls|
      invariant la.Contents() == ls[..la.count] && Lines(t[start..]) == ls[la.count..]
      decreases |t| - start
    {
      start, next := TakeLine(la, t, ls, start, start + next.value);
    }
    AppendLast(la, t, start);
    assert ls[..la.count] + ls[la.count..] == ls;
  }

  /** Lines 43-55: the line ending at the newline at `end` goes into the next slot. */
  method TakeLine(la: LineArray, t: seq<byte>, ghost ls: seq<seq<byte>>, start: nat, end: nat)
      returns (start': nat, next: Option<nat>)
    requires start <= end < |t| && IndexOf(t[start..], NEWLINE) == Some(end - start)
    requires la.Valid() && la.count <= |ls| <= la.lines.Length
    requires la.Contents() == ls[..la.count] && Lines(t[start..]) == ls[la.count..]
    modifies la, la.lines
    ensures start' == end + 1 <= |t| && next == IndexOf(t[start'..], NEWLINE)
    ensures la.Valid() && la.lines == old(la.lines) && la.count == old(la.count) + 1 <= |ls|
    ensures la.Contents() == ls[..la.count] && Lines(t[start'..]) == ls[la.count..]
  {
    start' := end + 1;
    next := IndexOf(t[start'..], NEWLINE);
    LinesAdvance(t, start, end - start);
    assert ls[la.count..][0] == ls[la.count] && ls[la.count..][1..] == ls[la.count + 1..];
    assert ls[..la.count + 1] == ls[..la.count] + [t[start..end]];
    la.Append(t[start..end]);
  }

  /** Lines 59-67: what follows the last '\n' is a line when it is not empty. */
  method AppendLast(la: LineArray, t: seq<byte>, start: nat)
    requires start <= |t| && IndexOf(t[start..], NEWLINE).None?
    requires la.Valid() && la.count + |Lines(t[start..])| <= la.lines.Length
    modifies la, la.lines
    ensures la.Valid() && la.lines == old(la.lines) && la.Contents() == old(la.Contents()) + Lines(t[start..])
  {
    if start < |t| {
      LinesLast(t, start);
      la.Append(t[start..]);
    } else {
      assert t[start..] == [];
      assert la.Contents() + [] == la.Contents();
    }
  }

  lemma LinesLast(t: seq<byte>, start: nat)
    requires start < |t| && IndexOf(t[start..], NEWLINE) == None
    ensures Lines(t[start..]) == [t[start..]]
  {
  }

  lemma LinesAdvance(t: seq<byte>, start: nat, k: nat)
    requires start <= |t| && IndexOf(t[start..], NEWLINE) == Some(k)
    ensures start + k < |t| && Lines(t[start..]) == [t[start..start + k]] + Lines(t[start + k + 1..])
  {
    LinesStep(t[start..], k);
    assert t[start..][..k] == t[start..start + k] && t[start..][k + 1..] == t[start + k + 1..];
  }

  /**
   * The bound of the outer loop of `sort_lines` as written: `count - 1` in
   * `size_t`, which wraps to 2^64 - 1 when there are no lines.
   */
  function OuterBound(count: nat): nat
    requires count < SIZE_T
  {
    (count - 1) % SIZE_T
  }

  /** The bound of the inner loop as written: `count - i - 1` in `size_t`. */
  function InnerBound(count: nat, i: nat): nat
    requires count < SIZE_T && i < SIZE_T
  {
    (count - i - 1) % SIZE_T
  }

  /** For at least one line the bounds as written are the intended ones. */
  lemma BoundsAsIntended(count: nat, i: nat)
    requires 1 <= count < SIZE_T && i < count
    ensures OuterBound(count) == count - 1 && InnerBound(count, i) == count - i - 1
    ensures (i + 1 < count) == (i < OuterBound(count))
  {
  }

  /**
   * With no lines, the loops as written run: the first comparison reads
   * slots 0 and 1 of an array holding none (an empty `--sort` input).
   */
  lemma EmptySortOverruns()
    ensures OuterBound(0) > 0 && InnerBound(0, 0) > 0
    ensures OuterBound(0) == SIZE_T - 1
  {
  }

  /** After the pass over slots 0..m-1, every slot holds at most the last. */
  predicate PassDone(a: seq<seq<byte>>, m: nat)
    requires m <= |a|
  {
    forall x :: 0 <= x < m ==> Le(a[x], a[m - 1])
  }

  /** Slots m..n-1 are sorted, and each is at least every slot before m. */
  predicate TailPlaced(a: seq<seq<byte>>, m: nat, n: nat)
    requires m <= n <= |a|
  {
    (forall x, y :: m <= x < y < n ==> Le(a[x], a[y])) &&
    (forall x, y :: 0 <= x < m <= y < n ==> Le(a[x], a[y]))
  }

  /** The inner loop of `sort_lines` (lines 79-85): one bubble pass over slots 0..m-1. */
  method BubblePass(a: array<seq<byte>>, m: nat, n: nat)
    requires 1 <= m <= n <= a.Length
    requires TailPlaced(a[..], m, n)
    modifies a
    ensures multiset(a[..n]) == old(multiset(a[..n]))
    ensures a[n..] == old(a[n..])
    ensures TailPlaced(a[..], m, n) && PassDone(a[..], m)
  {
    CompareSelf(a[0]);
    for j := 0 to m - 1
      invariant multiset(a[..n]) == old(multiset(a[..n])) && a[n..] == old(a[n..])
      invariant TailPlaced(a[..], m, n)
      invariant forall x :: 0 <= x <= j ==> Le(a[x], a[j])
    {
      CompareAndSwap(a, j, m, n);
    }
  }

  /** Lines 80-84: swap slots j and j + 1 when they are out of order. */
  method CompareAndSwap(a: array<seq<byte>>, j: nat, m: nat, n: nat)
    requires j + 1 < m <= n <= a.Length && TailPlaced(a[..], m, n)
    requires forall x :: 0 <= x <= j ==> Le(a[x], a[j])
    modifies a
    ensures multiset(a[..n]) == old(multiset(a[..n])) && a[n..] == old(a[n..])
    ensures TailPlaced(a[..], m, n)
    ensures forall x :: 0 <= x <= j + 1 ==> Le(a[x], a[j + 1])
  {
    ghost var before := a[..];
    if Compare(a[j], a[j + 1]) > 0 {
      a[j], a[j + 1] := a[j + 1], a[j];
      assert a[..] == before[j := before[j + 1]][j + 1 := before[j]];
      SwapStep(before, j, m, n);
    } else {
      KeepStep(before, j, m, n);
    }
  }

  /** A swap moves the larger of slots j and j + 1 up and keeps the rest in place. */
  lemma SwapStep(b: seq<seq<byte>>, j: nat, m: nat, n: nat)
    requires j + 1 < m <= n <= |b| && TailPlaced(b, m, n)
    requires (forall x :: 0 <= x <= j ==> Le(b[x], b[j])) && Compare(b[j], b[j + 1]) > 0
    ensures var a := b[j := b[j + 1]][j + 1 := b[j]];
      multiset(a[..n]) == multiset(b[..n]) && a[n..] == b[n..] && TailPlaced(a, m, n) &&
      forall x :: 0 <= x <= j + 1 ==> Le(a[x], a[j + 1])
  {
    var a := b[j := b[j + 1]][j + 1 := b[j]];
    assert a[..n] == b[..n][j := b[j + 1]][j + 1 := b[j]];
    CompareFlip(b[j], b[j + 1]);
    CompareSelf(b[j]);
  }

  /** Without a swap slot j + 1 already holds the larger of the two. */
  lemma KeepStep(b: seq<seq<byte>>, j: nat, m: nat, n: nat)
    requires j + 1 < m <= n <= |b|
    requires (forall x :: 0 <= x <= j ==> Le(b[x], b[j])) && Compare(b[j], b[j + 1]) <= 0
    ensures forall x :: 0 <= x <= j + 1 ==> Le(b[x], b[j + 1])
  {
    forall x | 0 <= x <= j
      ensures Le(b[x], b[j + 1])
    {
      LeTransitive(b[x], b[j], b[j + 1]);
    }
    CompareSelf(b[j + 1]);
  }

  /**
   * `sort_lines`: the line slots end sorted by `strcmp` and hold the same
   * lines. The outer loop runs while `i + 1 < count`, which is the loop as
   * written for at least one line without its `size_t` wrap at zero.
   */
  method SortLines(la: LineArray?)
    requires la != null ==> la.Valid()
    requires la != null ==> la.count < SIZE_T  // `count` is a `size_t`
    modifies if la == null then {} else {la.lines}
    ensures la != null ==> Sorted(la.Contents())
    ensures la != null ==> multiset(la.Contents()) == old(multiset(la.Contents()))
    ensures la != null ==> la.lines[la.count..] == old(la.lines[la.count..])
  {
    if la == null {
      return;
    }
    var a, n := la.lines, la.count;
    var i := 0;
    while i + 1 < n
      invariant i <= n && (n >= 1 ==> i < n)
      invariant multiset(a[..n]) == old(multiset(a[..n])) && a[n..] == old(a[n..])
      invariant TailPlaced(a[..], n - i, n)
    {
      // The C's outer test holds here, and its inner loop runs j up to n - i - 1.
      BoundsAsIntended(n, i);
      assert i < OuterBound(n) && InnerBound(n, i) == (n - i) - 1;
      BubblePass(a, n - i, n);
      i := i + 1;
    }
    // On exit with one or more lines, the C's outer test fails as well.
    if n >= 1 {
      BoundsAsIntended(n, i);
      assert !(i < OuterBound(n));
    }
  }

  /** The sizing loop of `join_lines` (lines 95-98): each line and its newline. */
  method JoinedSize(ls: seq<seq<byte>>) returns (total: nat)
    ensures total == |Join(ls)|
  {
    total := 0;
    for i := 0 to |ls|
      invariant total == |Join(ls[..i])|
    {
      assert ls[..i + 1] == ls[..i] + [ls[i]];
      JoinConcat(ls[..i], [ls[i]]);
      JoinOne(ls[i]);
      total := total + |ls[i]| + 1;
    }
    assert ls[..|ls|] == ls;
  }

  /** `strcpy(output + pos, line)` */
  method CopyLine(out: array<byte>, pos: nat, line: seq<byte>) returns (pos': nat)
    requires pos + |line| <= out.Length
    modifies out
    ensures pos' == pos + |line|
    ensures out[..pos'] == old(out[..pos]) + line
  {
    pos' := pos;
    for k := 0 to |line|
      invariant pos' == pos + k
      invariant out[..pos'] == old(out[..pos]) + line[..k]
    {
      out[pos'] := line[k];
      assert line[..k + 1] == line[..k] + [line[k]];
      pos' := pos' + 1;
    }
    assert line[..|line|] == line;
  }

  /** `join_lines`: NULL for no lines; otherwise every line followed by '\n'. */
  method JoinLines(la: LineArray?) returns (r: Option<seq<byte>>)
    requires la != null ==> la.Valid()
    ensures la == null || la.count == 0 ==> r == None
    ensures la != null && la.count > 0 ==> r == Some(Join(la.Contents()))
  {
    if la == null || la.count == 0 {
      return None;
    }
    var ls := la.lines[..la.count];
    var total := JoinedSize(ls);
    var out := new byte[total];
    var pos: nat := 0;
    for i := 0 to |ls|
      invariant pos == |Join(ls[..i])| && pos <= total
      invariant out[..pos] == Join(ls[..i])
    {
      assert ls[..i + 1] == ls[..i] + [ls[i]];
      JoinConcat(ls[..i], [ls[i]]);
      JoinOne(ls[i]);
      JoinPrefixLength(ls, i + 1);
      pos := CopyLine(out, pos, ls[i]);
      out[pos] := NEWLINE;
      assert out[..pos + 1] == out[..pos] + [NEWLINE];
      pos := pos + 1;
    }
    assert ls[..|ls|] == ls;
    assert out[..] == out[..pos];
    return Some(out[..]);
  }

  lemma JoinPrefixLength(ls: seq<seq<byte>>, i: nat)
    requires i <= |ls|
    ensures |Join(ls[..i])| <= |Join(ls)|
  {
    assert ls == ls[..i] + ls[i..];
    JoinConcat(ls[..i], ls[i..]);
  }

  /**
   * Sorting a text's lines: joining the split of a text that ends with '\n'
   * gives the text back, so a sorted result is a reordering of its lines.
   */
  lemma SplitJoinRoundTrip(t: seq<byte>)
    requires EndsWithNewline(t)
    ensures Lines(t) != [] && Join(Lines(t)) == t
  {
    JoinOfLines(t);
  }

  /** The split of an empty text has no lines, so `join_lines` returns NULL. */
  lemma EmptyTextHasNoLines()
    ensures Lines([]) == []
  {
  }
}
