/**
 * `search_text`: the lines of a text that contain a keyword, each with its
 * 1-based line number, in the order of the text.
 */
module Search {
  import opened Wrappers
  import opened Bytes
  import opened Text

  /** A `SearchResult` node: the line number and the line without its newline. */
  datatype Match = Match(lineNumber: int, line: seq<byte>)

  /** The match of one line: the line at `first` when it holds the keyword. */
  function MatchOf(line: seq<byte>, keyword: seq<byte>, first: int): seq<Match> {
    if Contains(line, keyword) then [Match(first, line)] else []
  }

  /** The matches among `ls`, numbering the first of them `first`. */
  function Matches(ls: seq<seq<byte>>, keyword: seq<byte>, first: int): seq<Match> {
    if ls == [] then []
    else MatchOf(ls[0], keyword, first) + Matches(ls[1..], keyword, first + 1)
  }

  /** What `search_text` returns for a text and a keyword that are not NULL. */
  function SearchSpec(text: seq<byte>, keyword: seq<byte>): seq<Match> {
    Matches(Lines(text), keyword, 1)
  }

  lemma {:induction false} MatchesConcat(a: seq<seq<byte>>, b: seq<seq<byte>>, keyword: seq<byte>, first: int)
    ensures Matches(a + b, keyword, first) == Matches(a, keyword, first) + Matches(b, keyword, first + |a|)
  {
    if a == [] {
      assert a + b == b;
    } else {
      var h := MatchOf(a[0], keyword, first);
      assert Matches(a + b, keyword, first) == h + Matches(a[1..] + b, keyword, first + 1) by {
        assert (a + b)[0] == a[0] && (a + b)[1..] == a[1..] + b;
      }
      MatchesConcat(a[1..], b, keyword, first + 1);
      var m1, m2 := Matches(a[1..], keyword, first + 1), Matches(b, keyword, first + |a|);
      assert h + (m1 + m2) == (h + m1) + m2;
    }
  }

  /** Soundness: each match is a line of `ls`, at its number, holding the keyword. */
  lemma {:induction false} MatchesSound(ls: seq<seq<byte>>, keyword: seq<byte>, first: int)
    ensures forall m :: m in Matches(ls, keyword, first) ==>
      first <= m.lineNumber < first + |ls| && m.line == ls[m.lineNumber - first] && Contains(m.line, keyword)
  {
    if ls != [] {
      MatchesSound(ls[1..], keyword, first + 1);
    }
  }

  /** Completeness: every line holding the keyword is matched at its number. */
  lemma {:induction false} MatchesComplete(ls: seq<seq<byte>>, keyword: seq<byte>, first: int)
    ensures forall k :: 0 <= k < |ls| && Contains(ls[k], keyword) ==> Match(first + k, ls[k]) in Matches(ls, keyword, first)
  {
    if ls != [] {
      MatchesComplete(ls[1..], keyword, first + 1);
      forall k | 0 <= k < |ls| && Contains(ls[k], keyword)
        ensures Match(first + k, ls[k]) in Matches(ls, keyword, first)
      {
        if k > 0 {
          assert ls[1..][k - 1] == ls[k];
        }
      }
    }
  }

  /** Line numbers strictly increase along `r`. */
  predicate Increasing(r: seq<Match>) {
    forall x, y :: 0 <= x < y < |r| ==> r[x].lineNumber < r[y].lineNumber
  }

  /** The matches come in strictly increasing order of line number. */
  lemma {:induction false} MatchesIncreasing(ls: seq<seq<byte>>, keyword: seq<byte>, first: int)
    ensures Increasing(Matches(ls, keyword, first))
  {
    if ls != [] {
      MatchesIncreasing(ls[1..], keyword, first + 1);
      MatchesSound(ls[1..], keyword, first + 1);
      var h, rest := MatchOf(ls[0], keyword, first), Matches(ls[1..], keyword, first + 1);
      var r := h + rest;
      forall x, y | 0 <= x < y < |r|
        ensures r[x].lineNumber < r[y].lineNumber
      {
        assert r[y] == rest[y - |h|] && rest[y - |h|] in rest;
        if x >= |h| {
          assert r[x] == rest[x - |h|];
        } else {
          assert r[x] == h[x] && h[x].lineNumber == first;
        }
      }
    }
  }

  /** An empty keyword occurs in every line, so every line is matched. */
  lemma {:induction false} EmptyKeywordMatchesAll(ls: seq<seq<byte>>, first: int)
    ensures |Matches(ls, [], first)| == |ls|
  {
    if ls != [] {
      assert [] <= ls[0][0..];
      EmptyKeywordMatchesAll(ls[1..], first + 1);
    }
  }

  /** Each match of a search is the line at its number and holds the keyword. */
  lemma SearchSound(text: seq<byte>, keyword: seq<byte>)
    ensures forall m :: m in SearchSpec(text, keyword) ==>
      1 <= m.lineNumber <= |Lines(text)| && m.line == Lines(text)[m.lineNumber - 1] && Contains(m.line, keyword)
  {
    MatchesSound(Lines(text), keyword, 1);
  }

  /** Every line holding the keyword is reported, at its 1-based number. */
  lemma SearchComplete(text: seq<byte>, keyword: seq<byte>)
    ensures forall k :: 0 <= k < |Lines(text)| && Contains(Lines(text)[k], keyword) ==>
      Match(k + 1, Lines(text)[k]) in SearchSpec(text, keyword)
  {
    MatchesComplete(Lines(text), keyword, 1);
  }

  /** Results come in strictly increasing order of line number. */
  lemma SearchOrdered(text: seq<byte>, keyword: seq<byte>)
    ensures Increasing(SearchSpec(text, keyword))
  {
    MatchesIncreasing(Lines(text), keyword, 1);
  }

  /** An empty keyword reports every examined line; an empty text reports none. */
  lemma SearchEdgeCases(text: seq<byte>, keyword: seq<byte>)
    ensures keyword == [] ==> |SearchSpec(text, keyword)| == |Lines(text)|
    ensures text == [] ==> SearchSpec(text, keyword) == []
  {
    if keyword == [] {
      EmptyKeywordMatchesAll(Lines(text), 1);
    }
  }

  /** A match's number is one more than the newlines before its line. */
  lemma MatchLineNumber(text: seq<byte>, keyword: seq<byte>, m: Match)
    requires m in SearchSpec(text, keyword)
    ensures 1 <= m.lineNumber <= |Lines(text)|
    ensures var k := m.lineNumber - 1; var p := |Join(Lines(text)[..k])|;
      p + |m.line| <= |text| && NewlineCount(text[..p]) == k && text[p..p + |m.line|] == m.line
  {
    SearchSound(text, keyword);
    LinePosition(text, m.lineNumber - 1);
  }

  /** One line of the loop (lines 19-57, 60-89): a match is appended when it holds the keyword. */
  method CheckLine(results: seq<Match>, line: seq<byte>, keyword: seq<byte>, lineNumber: int)
      returns (results': seq<Match>)
    ensures results' == results + Matches([line], keyword, lineNumber)
  {
    assert [line][1..] == [];
    if Contains(line, keyword) {
      results' := results + [Match(lineNumber, line)];
    } else {
      results' := results;
    }
  }

  /** `search_text`: NULL text or keyword is an error (None); otherwise the matches. */
  method SearchText(text: Option<seq<byte>>, keyword: Option<seq<byte>>) returns (r: Option<seq<Match>>)
    ensures text.None? || keyword.None? ==> r == None
    ensures text.Some? && keyword.Some? ==> r == Some(SearchSpec(text.value, keyword.value))
  {
    if text.None? || keyword.None? {
      return None;
    }
    var t, kw := text.value, keyword.value;
    ghost var ls := Lines(t);
    var results: seq<Match> := [];
    var lineNumber := 1;
    var start := 0;
    var next := IndexOf(t[start..], NEWLINE);
    assert t[0..] == t && ls[..0] == [];
    while next.Some?
      invariant start <= |t| && next == IndexOf(t[start..], NEWLINE)
      invariant 1 <= lineNumber <= |ls| + 1
      invariant Lines(t[start..]) == ls[lineNumber - 1..]
      invariant results == Matches(ls[..lineNumber - 1], kw, 1)
      decreases |t| - start
    {
      start, next, results := NextLine(t, kw, ls, start, start + next.value, results, lineNumber);
      lineNumber := lineNumber + 1;
    }
    results := LastLine(t, kw, ls, start, results, lineNumber);
    return Some(results);
  }

  /** Lines 20-56: the line ending at the newline at `end`, then the scan moves past it. */
  method NextLine(t: seq<byte>, kw: seq<byte>, ghost ls: seq<seq<byte>>, start: nat, end: nat,
                  results: seq<Match>, lineNumber: int)
      returns (start': nat, next: Option<nat>, results': seq<Match>)
    requires start <= end < |t| && IndexOf(t[start..], NEWLINE) == Some(end - start)
    requires 1 <= lineNumber <= |ls| + 1 && Lines(t[start..]) == ls[lineNumber - 1..]
    requires results == Matches(ls[..lineNumber - 1], kw, 1)
    ensures start' == end + 1 <= |t| && next == IndexOf(t[start'..], NEWLINE)
    ensures lineNumber <= |ls| && Lines(t[start'..]) == ls[lineNumber..]
    ensures results' == Matches(ls[..lineNumber], kw, 1)
  {
    LinesStep(t[start..], end - start);
    assert t[start..][..end - start] == t[start..end] && t[start..][end - start + 1..] == t[end + 1..];
    assert ls[lineNumber - 1..][0] == ls[lineNumber - 1] && ls[lineNumber - 1..][1..] == ls[lineNumber..];
    results' := CheckLine(results, t[start..end], kw, lineNumber);
    assert ls[..lineNumber] == ls[..lineNumber - 1] + [t[start..end]];
    MatchesConcat(ls[..lineNumber - 1], [t[start..end]], kw, 1);
    start' := end + 1;
    next := IndexOf(t[start'..], NEWLINE);
  }

  /** Lines 59-89: the text after the last newline is examined when it is not empty. */
  method LastLine(t: seq<byte>, kw: seq<byte>, ghost ls: seq<seq<byte>>, start: nat,
                  results: seq<Match>, lineNumber: int)
      returns (results': seq<Match>)
    requires start <= |t| && IndexOf(t[start..], NEWLINE).None?
    requires 1 <= lineNumber <= |ls| + 1 && Lines(t[start..]) == ls[lineNumber - 1..]
    requires results == Matches(ls[..lineNumber - 1], kw, 1)
    ensures results' == Matches(ls, kw, 1)
  {
    assert ls[..lineNumber - 1] + ls[lineNumber - 1..] == ls;
    MatchesConcat(ls[..lineNumber - 1], ls[lineNumber - 1..], kw, 1);
    if start < |t| {
      assert Lines(t[start..]) == [t[start..]];
      results' := CheckLine(results, t[start..], kw, lineNumber);
    } else {
      assert t[start..] == [];
      results' := results;
    }
  }
}
