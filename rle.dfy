/**
 * The run-length codec of compress.c: `rle_compress`/`rle_decompress` on
 * byte strings and the run list of `create_rle_list`/`rle_list_to_string`.
 * A run is written as its byte, followed by the digit byte '0' + count when
 * the count exceeds one.
 */
module Rle {
  import opened Bytes
  import opened Wrappers

  /** `RLE_Node` without its `next` link: the list is a sequence. */
  datatype Run = Run(ch: byte, count: nat)

  const ZERO: byte := 48  // '0'
  const TWO: byte := 50   // '2'
  const NINE: byte := 57  // '9'
  /** `create_rle_list` counts in a C `int`. */
  const INT_MAX: nat := 0x7FFF_FFFF

  function Repeat(c: byte, k: nat): (r: seq<byte>)
    ensures |r| == k && forall i :: 0 <= i < k ==> r[i] == c
  {
    seq(k, _ => c)
  }

  /** The bytes a run list stands for. */
  function Expand(runs: seq<Run>): seq<byte> {
    if runs == [] then [] else Repeat(runs[0].ch, runs[0].count) + Expand(runs[1..])
  }

  /** The bytes written for one run; the count byte is `'0' + count` truncated to a `char`. */
  function RenderRun(r: Run): seq<byte> {
    [r.ch] + (if r.count > 1 then [((ZERO as int + r.count) % 256) as byte] else [])
  }

  /** The bytes written for a run list, in order. */
  function Render(runs: seq<Run>): seq<byte> {
    if runs == [] then [] else RenderRun(runs[0]) + Render(runs[1..])
  }

  /**
   * The runs of `s` as the scanning loops of `rle_compress` (`capped`: a
   * run ends at 9) and `create_rle_list` (not capped) collect them: each
   * byte lengthens the last run or starts a new one.
   */
  function Runs(s: seq<byte>, capped: bool): (r: seq<Run>)
    ensures |s| > 0 <==> |r| > 0
  {
    if s == [] then []
    else
      var prev := Runs(s[..|s| - 1], capped);
      var c := s[|s| - 1];
      if prev != [] && prev[|prev| - 1].ch == c && (!capped || prev[|prev| - 1].count < 9)
      then prev[..|prev| - 1] + [Run(c, prev[|prev| - 1].count + 1)]
      else prev + [Run(c, 1)]
  }

  predicate IsCountDigit(b: byte) {
    TWO <= b <= NINE
  }

  /** `rle_decompress`: a byte followed by '2'..'9' stands for that many copies, any other byte for itself. */
  function RleDecode(s: seq<byte>): seq<byte>
  {
    if s == [] then []
    else if |s| >= 2 && IsCountDigit(s[1]) then Repeat(s[0], (s[1] - ZERO) as nat) + RleDecode(s[2..])
    else [s[0]] + RleDecode(s[1..])
  }

  /** The size `rle_list_to_string` computes first: two bytes for a counted run, one otherwise. */
  function RenderedSize(runs: seq<Run>): nat {
    if runs == [] then 0 else (if runs[0].count > 1 then 2 else 1) + RenderedSize(runs[1..])
  }

  // ---- Properties ----

  /** Every run has a positive count, at most 9 when capped; neighbours differ in byte unless the first is full. */
  ghost predicate WellFormed(runs: seq<Run>, capped: bool) {
    (forall i :: 0 <= i < |runs| ==> runs[i].count >= 1 && (capped ==> runs[i].count <= 9)) &&
    (forall i :: 0 <= i < |runs| - 1 ==> runs[i].ch != runs[i + 1].ch || (capped && runs[i].count == 9))
  }

  lemma {:induction false} ExpandConcat(a: seq<Run>, b: seq<Run>)
    ensures Expand(a + b) == Expand(a) + Expand(b)
  {
    if a == [] {
      assert a + b == b;
    } else {
      assert (a + b)[1..] == a[1..] + b;
      ExpandConcat(a[1..], b);
    }
  }

  lemma {:induction false} RenderConcat(a: seq<Run>, b: seq<Run>)
    ensures Render(a + b) == Render(a) + Render(b)
  {
    if a == [] {
      assert a + b == b;
    } else {
      assert (a + b)[1..] == a[1..] + b;
      RenderConcat(a[1..], b);
    }
  }

  lemma ExpandOne(r: Run)
    ensures Expand([r]) == Repeat(r.ch, r.count)
  {
    assert [r][1..] == [];
  }

  lemma RenderOne(r: Run)
    ensures Render([r]) == RenderRun(r)
  {
    assert [r][1..] == [];
  }

  /** Lengthening the last run by one byte appends that byte to the expansion. */
  lemma ExpandGrow(init: seq<Run>, last: Run)
    ensures Expand(init + [Run(last.ch, last.count + 1)]) == Expand(init + [last]) + [last.ch]
  {
    ExpandConcat(init, [last]);
    ExpandConcat(init, [Run(last.ch, last.count + 1)]);
    ExpandOne(last);
    ExpandOne(Run(last.ch, last.count + 1));
    assert Repeat(last.ch, last.count + 1) == Repeat(last.ch, last.count) + [last.ch];
  }

  lemma {:induction false} RunsExpand(s: seq<byte>, capped: bool)
    ensures Expand(Runs(s, capped)) == s
  {
    if s != [] {
      var s' := s[..|s| - 1];
      var prev := Runs(s', capped);
      var c := s[|s| - 1];
      RunsExpand(s', capped);
      assert s == s' + [c];
      if prev != [] && prev[|prev| - 1].ch == c && (!capped || prev[|prev| - 1].count < 9) {
        assert prev == prev[..|prev| - 1] + [prev[|prev| - 1]];
        ExpandGrow(prev[..|prev| - 1], prev[|prev| - 1]);
      } else {
        ExpandConcat(prev, [Run(c, 1)]);
        ExpandOne(Run(c, 1));
      }
    }
  }

  lemma WellFormedGrow(prev: seq<Run>, capped: bool)
    requires WellFormed(prev, capped) && prev != []
    requires !capped || prev[|prev| - 1].count < 9
    ensures WellFormed(prev[..|prev| - 1] + [Run(prev[|prev| - 1].ch, prev[|prev| - 1].count + 1)], capped)
  {
    var last := prev[|prev| - 1];
    var r := prev[..|prev| - 1] + [Run(last.ch, last.count + 1)];
    assert forall i :: 0 <= i < |r| - 1 ==> r[i] == prev[i];
    assert forall i :: 0 <= i < |r| - 1 ==> r[i].count == prev[i].count;
    assert forall i :: 0 <= i < |r| ==> r[i].ch == prev[i].ch;
  }

  lemma WellFormedPush(prev: seq<Run>, c: byte, capped: bool)
    requires WellFormed(prev, capped)
    requires prev != [] && prev[|prev| - 1].ch == c ==> capped && prev[|prev| - 1].count >= 9
    ensures WellFormed(prev + [Run(c, 1)], capped)
  {
    var r := prev + [Run(c, 1)];
    assert forall i :: 0 <= i < |prev| ==> r[i] == prev[i];
  }

  lemma {:induction false} RunsWellFormed(s: seq<byte>, capped: bool)
    ensures WellFormed(Runs(s, capped), capped)
  {
    if s != [] {
      var prev := Runs(s[..|s| - 1], capped);
      var c := s[|s| - 1];
      RunsWellFormed(s[..|s| - 1], capped);
      if prev != [] && prev[|prev| - 1].ch == c && (!capped || prev[|prev| - 1].count < 9) {
        WellFormedGrow(prev, capped);
        assert Runs(s, capped) == prev[..|prev| - 1] + [Run(prev[|prev| - 1].ch, prev[|prev| - 1].count + 1)];
      } else {
        WellFormedPush(prev, c, capped);
        assert Runs(s, capped) == prev + [Run(c, 1)];
      }
    }
  }

  /**
   * The runs of `s` spell out `s` exactly and are well formed: counts are
   * at least 1 (at most 9 when capped), and two neighbours with the same
   * byte only occur after a full capped run. Without the cap the runs are
   * maximal.
   */
  lemma RunsFacts(s: seq<byte>, capped: bool)
    ensures Expand(Runs(s, capped)) == s
    ensures WellFormed(Runs(s, capped), capped)
  {
    RunsExpand(s, capped);
    RunsWellFormed(s, capped);
  }

  /** The output is at most twice as long as the input it encodes. */
  lemma {:induction false} RenderBound(runs: seq<Run>)
    requires forall i :: 0 <= i < |runs| ==> runs[i].count >= 1
    ensures |Render(runs)| <= 2 * |Expand(runs)|
  {
    if runs != [] {
      RenderBound(runs[1..]);
    }
  }

  /** `rle_list_to_string`'s size pass counts exactly the bytes it writes. */
  lemma {:induction false} RenderedSizeIsLength(runs: seq<Run>)
    ensures |Render(runs)| == RenderedSize(runs)
  {
    if runs != [] {
      RenderedSizeIsLength(runs[1..]);
    }
  }

  /** Runs whose bytes are not count digits decode back to what they stand for. */
  lemma {:induction false} DecodeRender(runs: seq<Run>)
    requires forall i :: 0 <= i < |runs| ==> 1 <= runs[i].count <= 9 && !IsCountDigit(runs[i].ch)
    ensures RleDecode(Render(runs)) == Expand(runs)
  {
    if runs != [] {
      var r := runs[0];
      var rest := Render(runs[1..]);
      DecodeRender(runs[1..]);
      var out := RenderRun(r) + rest;
      if r.count > 1 {
        assert out[0] == r.ch && out[1] == (ZERO as int + r.count) as byte && out[2..] == rest;
      } else {
        assert out[0] == r.ch && out[1..] == rest;
        if |out| >= 2 {
          assert out[1] == runs[1].ch;
        }
        assert Repeat(r.ch, 1) == [r.ch];
      }
    }
  }

  /** Round trip: `rle_decompress(rle_compress(s)) == s` when `s` holds no byte '2'..'9'. */
  lemma RleRoundTrip(s: seq<byte>)
    requires forall i :: 0 <= i < |s| ==> !IsCountDigit(s[i])
    ensures RleDecode(Render(Runs(s, true))) == s
  {
    var runs := Runs(s, true);
    RunsFacts(s, true);
    forall i | 0 <= i < |runs|
      ensures !IsCountDigit(runs[i].ch)
    {
      RunByteOccurs(runs, i);
    }
    DecodeRender(runs);
  }

  /** Every run's byte occurs in the bytes the runs stand for. */
  lemma {:induction false} RunByteOccurs(runs: seq<Run>, i: nat)
    requires i < |runs| && runs[i].count >= 1
    ensures runs[i].ch in Expand(runs)
  {
    if i == 0 {
      assert Expand(runs)[0] == runs[0].ch;
    } else {
      RunByteOccurs(runs[1..], i - 1);
    }
  }

  /** The compressed length is at most twice the input length. */
  lemma RleCompressBound(s: seq<byte>)
    ensures |Render(Runs(s, true))| <= 2 * |s|
  {
    RunsFacts(s, true);
    RenderBound(Runs(s, true));
  }

  // ---- The C functions ----

  /** Write one run at `pos`: its byte, then its count digit when the count exceeds one. */
  method WriteRun(out: array<byte>, pos: nat, r: Run) returns (pos': nat)
    requires pos + |RenderRun(r)| <= out.Length
    modifies out
    ensures pos' == pos + |RenderRun(r)|
    ensures out[..pos'] == old(out[..pos]) + RenderRun(r)
  {
    out[pos] := r.ch;
    pos' := pos + 1;
    if r.count > 1 {
      out[pos'] := ((ZERO as int + r.count) % 256) as byte;
      pos' := pos' + 1;
    }
  }

  lemma RunsStep(s: seq<byte>, i: nat, capped: bool)
    requires 0 < i < |s|
    ensures s[..i + 1][..i] == s[..i] && s[..i + 1][i] == s[i]
    ensures Runs(s[..i + 1], capped) ==
              var prev := Runs(s[..i], capped);
              if prev != [] && prev[|prev| - 1].ch == s[i] && (!capped || prev[|prev| - 1].count < 9)
              then prev[..|prev| - 1] + [Run(s[i], prev[|prev| - 1].count + 1)]
              else prev + [Run(s[i], 1)]
  {
    assert s[..i + 1][..i] == s[..i];
  }

  lemma RunsFirst(s: seq<byte>, capped: bool)
    requires |s| >= 1
    ensures Runs(s[..1], capped) == [Run(s[0], 1)]
  {
    assert s[..1][..0] == [];
  }

  /** `rle_compress`: the capped runs of the input, rendered; output_len is the length written. */
  method RleCompress(input: Option<seq<byte>>) returns (r: Option<seq<byte>>)
    ensures input.None? || input.value == [] ==> r == None
    ensures input.Some? && input.value != [] ==> r == Some(Render(Runs(input.value, true)))
  {
    if input.None? || |input.value| == 0 {
      return None;
    }
    var s := input.value;
    var out := new byte[|s| * 2 + 1];
    var pos: nat := 0;
    var cur := s[0];
    var count := 1;
    ghost var done: seq<Run> := [];
    RunsFirst(s, true);
    for i := 1 to |s|
      invariant Runs(s[..i], true) == done + [Run(cur, count)]
      invariant 1 <= count <= 9 && pos + 2 * count <= 2 * i
      invariant out[..pos] == Render(done)
    {
      pos, cur, count, done := CompressStep(out, s, i, pos, cur, count, done);
    }
    assert s[..|s|] == s;
    pos := WriteRun(out, pos, Run(cur, count));
    RenderOne(Run(cur, count));
    RenderConcat(done, [Run(cur, count)]);
    return Some(out[..pos]);
  }

  /** One iteration of the `rle_compress` loop (lines 31-46): extend the current run, or write it and start a new one. */
  method CompressStep(out: array<byte>, s: seq<byte>, i: nat, pos: nat, cur: byte, count: nat, ghost done: seq<Run>)
      returns (pos': nat, cur': byte, count': nat, ghost done': seq<Run>)
    requires 0 < i < |s| && out.Length == |s| * 2 + 1
    requires Runs(s[..i], true) == done + [Run(cur, count)]
    requires 1 <= count <= 9 && pos + 2 * count <= 2 * i
    requires out[..pos] == Render(done)
    modifies out
    ensures Runs(s[..i + 1], true) == done' + [Run(cur', count')]
    ensures 1 <= count' <= 9 && pos' + 2 * count' <= 2 * (i + 1)
    ensures out[..pos'] == Render(done')
  {
    RunsStep(s, i, true);
    assert (done + [Run(cur, count)])[..|done|] == done;
    if s[i] == cur && count < 9 {
      pos', cur', count', done' := pos, cur, count + 1, done;
    } else {
      pos' := WriteRun(out, pos, Run(cur, count));
      RenderOne(Run(cur, count));
      RenderConcat(done, [Run(cur, count)]);
      done' := done + [Run(cur, count)];
      cur', count' := s[i], 1;
    }
  }

  lemma DecodeStep(s: seq<byte>, i: nat)
    requires i < |s|
    ensures i + 1 < |s| && IsCountDigit(s[i + 1]) ==>
              RleDecode(s[i..]) == Repeat(s[i], (s[i + 1] - ZERO) as nat) + RleDecode(s[i + 2..])
    ensures !(i + 1 < |s| && IsCountDigit(s[i + 1])) ==> RleDecode(s[i..]) == [s[i]] + RleDecode(s[i + 1..])
  {
    assert s[i..][1..] == s[i + 1..];
    if i + 1 < |s| {
      assert s[i..][2..] == s[i + 2..];
    }
  }

  /** The first loop of `rle_decompress` (lines 65-73): the output size. */
  method DecodedSize(s: seq<byte>) returns (size: nat)
    ensures size == |RleDecode(s)|
  {
    size := 0;
    var i := 0;
    while i < |s|
      invariant 0 <= i <= |s|
      invariant size + |RleDecode(s[i..])| == |RleDecode(s)|
    {
      DecodeStep(s, i);
      if i + 1 < |s| && IsCountDigit(s[i + 1]) {
        size := size + (s[i + 1] - ZERO) as nat;
        i := i + 1;
      } else {
        size := size + 1;
      }
      i := i + 1;
    }
  }

  /** The inner loop of `rle_decompress` (lines 85-87): `count` copies of `c` at `pos`. */
  method WriteRepeat(out: array<byte>, pos: nat, c: byte, count: nat) returns (pos': nat)
    requires pos + count <= out.Length
    modifies out
    ensures pos' == pos + count
    ensures out[..pos'] == old(out[..pos]) + Repeat(c, count)
  {
    pos' := pos;
    for j := 0 to count
      invariant pos' == pos + j
      invariant out[..pos'] == old(out[..pos]) + Repeat(c, j)
    {
      out[pos'] := c;
      assert Repeat(c, j + 1) == Repeat(c, j) + [c];
      pos' := pos' + 1;
    }
  }

  /** One iteration of the second `rle_decompress` loop (lines 79-89): expand one character and its count. */
  method DecompressStep(out: array<byte>, s: seq<byte>, i: nat, pos: nat) returns (i': nat, pos': nat)
    requires i < |s| && pos + |RleDecode(s[i..])| == out.Length
    requires out[..pos] + RleDecode(s[i..]) == RleDecode(s)
    modifies out
    ensures i < i' <= |s| && pos' + |RleDecode(s[i'..])| == out.Length
    ensures out[..pos'] + RleDecode(s[i'..]) == RleDecode(s)
  {
    DecodeStep(s, i);
    var c := s[i];
    var count := 1;
    i' := i;
    if i + 1 < |s| && IsCountDigit(s[i + 1]) {
      count := (s[i + 1] - ZERO) as nat;
      i' := i + 1;
    }
    ghost var before := out[..pos];
    pos' := WriteRepeat(out, pos, c, count);
    i' := i' + 1;
    assert out[..pos'] == before + Repeat(c, count);
    assert RleDecode(s[i..]) == Repeat(c, count) + RleDecode(s[i'..]);
    assert (before + Repeat(c, count)) + RleDecode(s[i'..]) == before + (Repeat(c, count) + RleDecode(s[i'..]));
  }

  /** `rle_decompress` */
  method RleDecompress(input: Option<seq<byte>>) returns (r: Option<seq<byte>>)
    ensures input.None? || input.value == [] ==> r == None
    ensures input.Some? && input.value != [] ==> r == Some(RleDecode(input.value))
  {
    if input.None? || |input.value| == 0 {
      return None;
    }
    var s := input.value;
    var size := DecodedSize(s);
    var out := new byte[size];
    var pos: nat := 0;
    var i := 0;
    while i < |s|
      invariant 0 <= i <= |s|
      invariant pos + |RleDecode(s[i..])| == size
      invariant out[..pos] + RleDecode(s[i..]) == RleDecode(s)
    {
      i, pos := DecompressStep(out, s, i, pos);
    }
    assert s[|s|..] == [];
    assert out[..pos] + [] == RleDecode(s);
    assert out[..] == out[..pos];
    assert out[..] == RleDecode(s);
    assert s == input.value;
    r := Some(out[..]);
  }

  /** `create_rle_list`: the uncapped runs, appended at the tail; the counts are C `int`s. */
  method CreateRleList(input: Option<seq<byte>>) returns (r: Option<seq<Run>>)
    requires input.Some? ==> |input.value| <= INT_MAX
    ensures input.None? || input.value == [] ==> r == None
    ensures input.Some? && input.value != [] ==> r == Some(Runs(input.value, false))
  {
    if input.None? || |input.value| == 0 {
      return None;
    }
    var s := input.value;
    var list: seq<Run> := [];
    var prev := s[0];
    var count := 1;
    RunsFirst(s, false);
    for i := 1 to |s|
      invariant Runs(s[..i], false) == list + [Run(prev, count)]
      invariant 1 <= count <= i
    {
      RunsStep(s, i, false);
      assert (list + [Run(prev, count)])[..|list|] == list;
      if s[i] == prev {
        count := count + 1;
      } else {
        list := list + [Run(prev, count)];
        prev := s[i];
        count := 1;
      }
    }
    assert s[..|s|] == s;
    list := list + [Run(prev, count)];
    return Some(list);
  }

  /** The first loop of `rle_list_to_string` (lines 176-181): the output size. */
  method RenderSize(runs: seq<Run>) returns (size: nat)
    ensures size == |Render(runs)|
  {
    size := 0;
    for k := 0 to |runs|
      invariant size + RenderedSize(runs[k..]) == RenderedSize(runs)
    {
      assert runs[k..][1..] == runs[k + 1..];
      size := size + if runs[k].count > 1 then 2 else 1;
    }
    RenderedSizeIsLength(runs);
  }

  /** `rle_list_to_string`: None for an empty list (a NULL head). */
  method RleListToString(runs: seq<Run>) returns (r: Option<seq<byte>>)
    ensures runs == [] ==> r == None
    ensures runs != [] ==> r == Some(Render(runs))
  {
    if runs == [] {
      return None;
    }
    var size := RenderSize(runs);
    var out := new byte[size];
    var pos: nat := 0;
    for k := 0 to |runs|
      invariant pos + |Render(runs[k..])| == size
      invariant out[..pos] == Render(runs[..k])
    {
      assert runs[..k + 1] == runs[..k] + [runs[k]];
      assert runs[k..] == [runs[k]] + runs[k + 1..];
      RenderConcat([runs[k]], runs[k + 1..]);
      RenderConcat(runs[..k], [runs[k]]);
      RenderOne(runs[k]);
      pos := WriteRun(out, pos, runs[k]);
    }
    assert runs[..|runs|] == runs;
    assert out[..] == out[..pos];
    return Some(out[..]);
  }
}
