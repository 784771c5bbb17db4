/**
 * Text as the line-oriented tools see it: a C string (a byte sequence without
 * the terminating NUL), split at '\n' by the `strchr` loop that both
 * `split_into_lines` and `search_text` run, searched with `strstr` and
 * ordered by `strcmp`.
 */
module Text {
  import opened Wrappers
  import opened Bytes

  /** `strchr`: the offset of the first `c` in `t`, or None. */
  function IndexOf(t: seq<byte>, c: byte): (r: Option<nat>)
    ensures r.Some? ==> r.value < |t|
  {
    if t == [] then None
    else if t[0] == c then Some(0)
    else match IndexOf(t[1..], c)
      case None => None
      case Some(k) => Some(k + 1)
  }

  /** IndexOf finds the first occurrence, and None means there is none. */
  lemma {:induction false} IndexOfFacts(t: seq<byte>, c: byte)
    ensures IndexOf(t, c).Some? ==> t[IndexOf(t, c).value] == c && c !in t[..IndexOf(t, c).value]
    ensures IndexOf(t, c).None? ==> c !in t
  {
    if t != [] && t[0] != c {
      IndexOfFacts(t[1..], c);
      match IndexOf(t[1..], c)
      case None =>
        assert t == [t[0]] + t[1..];
      case Some(k) =>
        assert t[..k + 1] == [t[0]] + t[1..][..k];
    }
  }

  /**
   * The lines of `t` without their newlines, in order: each '\n' ends one
   * line, and what follows the last '\n' is a line only when it is not empty.
   */
  function Lines(t: seq<byte>): seq<seq<byte>>
    decreases |t|
  {
    match IndexOf(t, NEWLINE)
    case None => if t == [] then [] else [t]
    case Some(k) => [t[..k]] + Lines(t[k + 1..])
  }

  /** Every line followed by '\n', concatenated. */
  function Join(ls: seq<seq<byte>>): seq<byte> {
    if ls == [] then [] else ls[0] + [NEWLINE] + Join(ls[1..])
  }

  function NewlineCount(t: seq<byte>): nat {
    if t == [] then 0 else (if t[0] == NEWLINE then 1 else 0) + NewlineCount(t[1..])
  }

  predicate EndsWithNewline(t: seq<byte>) {
    t != [] && t[|t| - 1] == NEWLINE
  }

  /** `strstr(line, keyword) != NULL`: `keyword` occurs somewhere in `line`. */
  predicate Contains(line: seq<byte>, keyword: seq<byte>) {
    exists i :: 0 <= i <= |line| && keyword <= line[i..]
  }

  /** The sign of `strcmp(a, b)` on bytes: a proper prefix orders first. */
  function Compare(a: seq<byte>, b: seq<byte>): (r: int)
    ensures -1 <= r <= 1
  {
    if a == [] && b == [] then 0
    else if a == [] then -1
    else if b == [] then 1
    else if a[0] < b[0] then -1
    else if a[0] > b[0] then 1
    else Compare(a[1..], b[1..])
  }

  predicate Le(a: seq<byte>, b: seq<byte>) {
    Compare(a, b) <= 0
  }

  predicate Sorted(s: seq<seq<byte>>) {
    forall x, y :: 0 <= x < y < |s| ==> Le(s[x], s[y])
  }

  // ---- Lines and Join ----

  lemma NewlineCountConcat(a: seq<byte>, b: seq<byte>)
    ensures NewlineCount(a + b) == NewlineCount(a) + NewlineCount(b)
  {
    if a != [] {
      assert (a + b)[0] == a[0] && (a + b)[1..] == a[1..] + b;
      NewlineCountConcat(a[1..], b);
    } else {
      assert a + b == b;
    }
  }

  lemma NoNewlineCount(a: seq<byte>)
    requires NEWLINE !in a
    ensures NewlineCount(a) == 0
  {
    if a != [] {
      assert a[0] != NEWLINE;
      NoNewlineCount(a[1..]);
    }
  }

  lemma JoinConcat(a: seq<seq<byte>>, b: seq<seq<byte>>)
    ensures Join(a + b) == Join(a) + Join(b)
  {
    if a != [] {
      assert (a + b)[0] == a[0] && (a + b)[1..] == a[1..] + b;
      JoinConcat(a[1..], b);
    } else {
      assert a + b == b;
    }
  }

  lemma JoinOne(l: seq<byte>)
    ensures Join([l]) == l + [NEWLINE]
  {
    assert [l][1..] == [];
  }

  /** One line splits off at the first '\n'. */
  lemma LinesStep(t: seq<byte>, k: nat)
    requires IndexOf(t, NEWLINE) == Some(k)
    ensures Lines(t) == [t[..k]] + Lines(t[k + 1..])
  {
  }

  /** No line holds a newline. */
  lemma {:induction false} LinesHaveNoNewline(t: seq<byte>)
    ensures forall k :: 0 <= k < |Lines(t)| ==> NEWLINE !in Lines(t)[k]
    decreases |t|
  {
    IndexOfFacts(t, NEWLINE);
    match IndexOf(t, NEWLINE)
    case None =>
    case Some(i) =>
      LinesHaveNoNewline(t[i + 1..]);
      LinesStep(t, i);
      forall k | 0 <= k < |Lines(t)|
        ensures NEWLINE !in Lines(t)[k]
      {
        if k > 0 {
          assert Lines(t)[k] == Lines(t[i + 1..])[k - 1];
        }
      }
  }

  /**
   * One line per '\n', plus one for a non-empty tail after the last '\n':
   * at most NewlineCount(t) + 1, the size `split_into_lines` allocates.
   */
  lemma {:induction false} LinesCount(t: seq<byte>)
    ensures |Lines(t)| == NewlineCount(t) + (if t != [] && !EndsWithNewline(t) then 1 else 0)
    decreases |t|
  {
    IndexOfFacts(t, NEWLINE);
    match IndexOf(t, NEWLINE)
    case None =>
      NoNewlineCount(t);
    case Some(i) =>
      var rest := t[i + 1..];
      LinesCount(rest);
      assert t == t[..i] + [t[i]] + rest;
      NewlineCountConcat(t[..i] + [t[i]], rest);
      NewlineCountConcat(t[..i], [t[i]]);
      NoNewlineCount(t[..i]);
      assert NewlineCount([t[i]]) == 1;
      if rest != [] {
        assert t[|t| - 1] == rest[|rest| - 1];
      }
  }

  /**
   * Joining the lines gives the text back when it is empty or ends with
   * '\n'; otherwise it gains one final '\n'.
   */
  lemma {:induction false} JoinOfLines(t: seq<byte>)
    ensures t == [] || EndsWithNewline(t) ==> Join(Lines(t)) == t
    ensures t != [] && !EndsWithNewline(t) ==> Join(Lines(t)) == t + [NEWLINE]
    decreases |t|, 1
  {
    IndexOfFacts(t, NEWLINE);
    match IndexOf(t, NEWLINE)
    case None =>
      if t != [] {
        JoinOne(t);
      }
    case Some(i) =>
      JoinOfLinesStep(t, i);
  }

  lemma {:induction false} JoinOfLinesStep(t: seq<byte>, i: nat)
    requires IndexOf(t, NEWLINE) == Some(i)
    ensures t == [] || EndsWithNewline(t) ==> Join(Lines(t)) == t
    ensures t != [] && !EndsWithNewline(t) ==> Join(Lines(t)) == t + [NEWLINE]
    decreases |t|, 0
  {
    var rest := t[i + 1..];
    var head := t[..i];
    IndexOfFacts(t, NEWLINE);
    assert Join(Lines(t)) == head + [NEWLINE] + Join(Lines(rest)) by {
      LinesStep(t, i);
      JoinConcat([head], Lines(rest));
      JoinOne(head);
    }
    assert t == head + [NEWLINE] + rest;
    JoinOfLines(rest);
    if rest != [] {
      assert EndsWithNewline(t) == EndsWithNewline(rest) by {
        assert t[|t| - 1] == rest[|rest| - 1];
      }
    }
  }

  lemma IndexOfJoined(l: seq<byte>, rest: seq<byte>)
    requires NEWLINE !in l
    ensures IndexOf(l + [NEWLINE] + rest, NEWLINE) == Some(|l|)
  {
    if l != [] {
      assert (l + [NEWLINE] + rest)[1..] == l[1..] + [NEWLINE] + rest;
      IndexOfJoined(l[1..], rest);
    }
  }

  /** Splitting joined lines gives them back, when none holds a newline. */
  lemma {:induction false} LinesOfJoin(ls: seq<seq<byte>>)
    requires forall k :: 0 <= k < |ls| ==> NEWLINE !in ls[k]
    ensures Lines(Join(ls)) == ls
  {
    if ls != [] {
      var t := Join(ls);
      IndexOfJoined(ls[0], Join(ls[1..]));
      assert t[..|ls[0]|] == ls[0];
      assert t[|ls[0]| + 1..] == Join(ls[1..]);
      LinesOfJoin(ls[1..]);
    }
  }

  lemma {:induction false} JoinNewlineCount(ls: seq<seq<byte>>)
    requires forall k :: 0 <= k < |ls| ==> NEWLINE !in ls[k]
    ensures NewlineCount(Join(ls)) == |ls|
  {
    if ls != [] {
      JoinNewlineCount(ls[1..]);
      NewlineCountConcat(ls[0] + [NEWLINE], Join(ls[1..]));
      NewlineCountConcat(ls[0], [NEWLINE]);
      NoNewlineCount(ls[0]);
      assert NewlineCount([NEWLINE]) == 1;
    }
  }

  /**
   * The line with index `k` (line number k + 1) starts after the first k
   * lines and their newlines, so exactly k newlines precede it.
   */
  lemma LinePosition(t: seq<byte>, k: nat)
    requires k < |Lines(t)|
    ensures var p := |Join(Lines(t)[..k])|;
      p + |Lines(t)[k]| <= |t| && NewlineCount(t[..p]) == k && t[p..p + |Lines(t)[k]|] == Lines(t)[k]
  {
    var ls := Lines(t);
    assert ls[..k] + ls[k..] == ls;
    JoinConcat(ls[..k], ls[k..]);
    assert ls[k..][0] == ls[k];
    JoinOfLines(t);
    SliceOfJoined(t, Join(ls[..k]), ls[k], Join(ls[k..]));
    LinesHaveNoNewline(t);
    JoinNewlineCount(ls[..k]);
  }

  lemma SliceOfJoined(t: seq<byte>, before: seq<byte>, line: seq<byte>, rest: seq<byte>)
    requires line + [NEWLINE] <= rest
    requires var u := before + rest; u == t || u == t + [NEWLINE]
    ensures |before| + |line| <= |t| && t[..|before|] == before
    ensures t[|before|..|before| + |line|] == line
  {
    var u := before + rest;
    assert u[..|t|] == t;
    assert t[..|before|] == u[..|before|];
    assert u[|before|..|before| + |line|] == rest[..|line|] == line;
    assert t[|before|..|before| + |line|] == u[|before|..|before| + |line|];
  }

  // ---- strcmp order ----

  lemma {:induction false} CompareSelf(a: seq<byte>)
    ensures Compare(a, a) == 0
  {
    if a != [] {
      CompareSelf(a[1..]);
    }
  }

  lemma {:induction false} CompareFlip(a: seq<byte>, b: seq<byte>)
    ensures Compare(b, a) == -Compare(a, b)
  {
    if a != [] && b != [] && a[0] == b[0] {
      CompareFlip(a[1..], b[1..]);
    }
  }

  lemma {:induction false} CompareZero(a: seq<byte>, b: seq<byte>)
    ensures Compare(a, b) == 0 <==> a == b
  {
    if a == b {
      CompareSelf(a);
    } else if a != [] && b != [] && a[0] == b[0] {
      CompareZero(a[1..], b[1..]);
      assert a == [a[0]] + a[1..] && b == [b[0]] + b[1..];
    }
  }

  /** `strcmp` is a total order: total, antisymmetric and transitive. */
  lemma LeTotal(a: seq<byte>, b: seq<byte>)
    ensures Le(a, b) || Le(b, a)
  {
    CompareFlip(a, b);
  }

  lemma LeAntisymmetric(a: seq<byte>, b: seq<byte>)
    requires Le(a, b) && Le(b, a)
    ensures a == b
  {
    CompareFlip(a, b);
    CompareZero(a, b);
  }

  lemma {:induction false} LeTransitive(a: seq<byte>, b: seq<byte>, c: seq<byte>)
    requires Le(a, b) && Le(b, c)
    ensures Le(a, c)
  {
    if a != [] && b != [] && c != [] && a[0] == b[0] == c[0] {
      LeTransitive(a[1..], b[1..], c[1..]);
    }
  }
}
