// Redaction spans: sort, greedy selection, rebuild.
module Spans {
  import opened Ascii
  import Utf8

  datatype Span = Span(start: nat, end: nat, mark: string)

  // ---- Sorting ----

  /** Earlier start first; on equal start the longer span first. */
  predicate Before(a: Span, b: Span) {
    a.start < b.start || (a.start == b.start && a.end >= b.end)
  }

  function Insert(x: Span, s: seq<Span>): seq<Span> {
    if s == [] || Before(x, s[0]) then [x] + s else [s[0]] + Insert(x, s[1..])
  }

  /** The stable sort by `Before`. */
  function Sort(s: seq<Span>): seq<Span> {
    if s == [] then [] else Insert(s[0], Sort(s[1..]))
  }

  ghost predicate Sorted(s: seq<Span>) {
    forall i, j :: 0 <= i < j < |s| ==> Before(s[i], s[j])
  }

  lemma {:induction false} InsertSorted(x: Span, s: seq<Span>)
    requires Sorted(s)
    ensures Sorted(Insert(x, s)) && multiset(Insert(x, s)) == multiset(s) + multiset{x}
  {
    if s != [] && !Before(x, s[0]) {
      InsertSorted(x, s[1..]);
      var rest := Insert(x, s[1..]);
      assert s == [s[0]] + s[1..];
      forall i | 0 <= i < |rest|
        ensures Before(s[0], rest[i])
      {
        assert rest[i] in multiset(rest);
        assert rest[i] == x || rest[i] in multiset(s[1..]);
      }
    } else {
      assert Insert(x, s) == [x] + s;
    }
  }

  lemma {:induction false} SortSorts(s: seq<Span>)
    ensures Sorted(Sort(s)) && multiset(Sort(s)) == multiset(s)
  {
    if s != [] {
      SortSorts(s[1..]);
      InsertSorted(s[0], Sort(s[1..]));
      assert s == [s[0]] + s[1..];
    }
  }

  // ---- Greedy selection and rebuild ----

  /** A span that selects something within a text of `n` bytes. */
  predicate InRange(s: Span, n: nat) { s.start < s.end <= n }

  /** The spans that are applied, in order, starting from `cursor`. */
  function Applied(sorted: seq<Span>, cursor: nat, n: nat): seq<Span> {
    if sorted == [] then []
    else if sorted[0].start < cursor || !InRange(sorted[0], n) then Applied(sorted[1..], cursor, n)
    else [sorted[0]] + Applied(sorted[1..], sorted[0].end, n)
  }

  /** Disjoint, in order, each within the text and none before `cursor`. */
  ghost predicate Chain(spans: seq<Span>, cursor: nat, n: nat) {
    && cursor <= n
    && (spans != [] ==> cursor <= spans[0].start && InRange(spans[0], n) && Chain(spans[1..], spans[0].end, n))
  }

  /** The text from `cursor` on with each span replaced by its label. */
  function Rebuild(text: string, spans: seq<Span>, cursor: nat): string
    requires Chain(spans, cursor, |text|)
  {
    if spans == [] then text[cursor..]
    else text[cursor..spans[0].start] + spans[0].mark + Rebuild(text, spans[1..], spans[0].end)
  }

  lemma {:induction false} AppliedIsChain(sorted: seq<Span>, cursor: nat, n: nat)
    requires cursor <= n
    ensures Chain(Applied(sorted, cursor, n), cursor, n)
    ensures forall s :: s in Applied(sorted, cursor, n) ==> s in sorted && InRange(s, n)
    decreases |sorted|
  {
    if sorted != [] {
      if sorted[0].start < cursor || !InRange(sorted[0], n) {
        AppliedIsChain(sorted[1..], cursor, n);
      } else {
        AppliedIsChain(sorted[1..], sorted[0].end, n);
        var rest := Applied(sorted[1..], sorted[0].end, n);
        assert Applied(sorted, cursor, n) == [sorted[0]] + rest && ([sorted[0]] + rest)[1..] == rest;
      }
    }
  }

  /** The spans applied to a text, whatever order the detectors pushed them in. */
  function Chosen(text: string, spans: seq<Span>): (chosen: seq<Span>)
    ensures Chain(chosen, 0, |text|)
  {
    AppliedIsChain(Sort(spans), 0, |text|);
    Applied(Sort(spans), 0, |text|)
  }

  function Redacted(text: string, spans: seq<Span>): string {
    Rebuild(text, Chosen(text, spans), 0)
  }

  /** Each in-range span begins and ends at a character boundary. */
  ghost predicate OnBoundaries(text: string, spans: seq<Span>) {
    forall s :: s in spans && InRange(s, |text|) ==> Utf8.Boundary(text, s.start) && Utf8.Boundary(text, s.end)
  }

  /** What the rebuilding loop has left to do: the sorted spans `rest`, from `cursor` on. */
  ghost predicate Remaining(text: string, spans: seq<Span>, rest: seq<Span>, cursor: nat, out: string, count: nat) {
    var todo := Applied(rest, cursor, |text|);
    && cursor <= |text| && Utf8.Boundary(text, cursor) && Chain(todo, cursor, |text|)
    && out + Rebuild(text, todo, cursor) == Redacted(text, spans)
    && count + |todo| == |Chosen(text, spans)|
  }

  /** `apply_spans`: every slice it takes is legal when the spans lie on character boundaries. */
  method ApplySpans(text: string, spans: seq<Span>) returns (out: string, count: nat)
    requires OnBoundaries(text, spans)
    ensures out == Redacted(text, spans) && count == |Chosen(text, spans)|
  {
    hide Sort, Utf8.Boundary, Remaining, Redacted, Chosen;
    if spans == [] {
      NoSpans(text);
      return text, 0;
    }
    var sorted := Sort(spans);
    SortSorts(spans);
    var cursor: nat := 0;
    out, count := "", 0;
    Start(text, spans);
    assert sorted[0..] == sorted;
    for i := 0 to |sorted|
      invariant Remaining(text, spans, sorted[i..], cursor, out, count)
    {
      var s := sorted[i];
      assert sorted[i..][0] == s && sorted[i..][1..] == sorted[i + 1..];
      if s.start < cursor {
        SkipFirst(text, spans, sorted[i..], cursor, out, count);
        continue;
      }
      if s.start > |text| || s.end > |text| || s.start >= s.end {
        SkipFirst(text, spans, sorted[i..], cursor, out, count);
        continue;
      }
      assert s in multiset(sorted) && s in spans;
      TakeFirst(text, spans, sorted[i..], cursor, out, count);
      out := out + Utf8.Slice(text, cursor, s.start);
      out := out + s.mark;
      cursor := s.end;
      count := count + 1;
    }
    assert sorted[|sorted|..] == [];
    Finish(text, spans, cursor, out, count);
    out := out + Utf8.Slice(text, cursor, |text|);
  }

  lemma NoSpans(text: string)
    ensures Redacted(text, []) == text && Chosen(text, []) == []
  {
    assert text[0..] == text;
  }

  lemma Start(text: string, spans: seq<Span>)
    ensures Remaining(text, spans, Sort(spans), 0, "", 0)
  {
    hide Sort, Applied;
    AppliedIsChain(Sort(spans), 0, |text|);
  }

  lemma SkipFirst(text: string, spans: seq<Span>, rest: seq<Span>, cursor: nat, out: string, count: nat)
    requires rest != [] && Remaining(text, spans, rest, cursor, out, count)
    requires rest[0].start < cursor || !InRange(rest[0], |text|)
    ensures Remaining(text, spans, rest[1..], cursor, out, count)
  {
    hide Utf8.Boundary, Rebuild, Chain, Redacted, Chosen;
  }

  lemma TakeFirst(text: string, spans: seq<Span>, rest: seq<Span>, cursor: nat, out: string, count: nat)
    requires rest != [] && Remaining(text, spans, rest, cursor, out, count) && OnBoundaries(text, spans) && rest[0] in spans
    requires cursor <= rest[0].start && InRange(rest[0], |text|)
    ensures var s := rest[0];
      && Utf8.Boundary(text, cursor) && Utf8.Boundary(text, s.start)
      && Remaining(text, spans, rest[1..], s.end, out + text[cursor..s.start] + s.mark, count + 1)
  {
    hide Utf8.Boundary, Redacted, Chosen, Rebuild, Chain, Applied;
    Advance(text, rest, cursor, out);
  }

  lemma Finish(text: string, spans: seq<Span>, cursor: nat, out: string, count: nat)
    requires Remaining(text, spans, [], cursor, out, count)
    ensures cursor <= |text| && Utf8.Boundary(text, cursor) && Utf8.Boundary(text, |text|)
    ensures out + text[cursor..|text|] == Redacted(text, spans) && count == |Chosen(text, spans)|
  {
    assert text[cursor..|text|] == text[cursor..];
  }

  lemma NothingLeft(text: string)
    ensures forall cursor: nat :: cursor <= |text| ==> Rebuild(text, [], cursor) == text[cursor..]
    ensures Utf8.Boundary(text, 0) && Utf8.Boundary(text, |text|)
  {}

  lemma Advance(text: string, sorted: seq<Span>, cursor: nat, out: string)
    requires cursor <= |text| && sorted != [] && cursor <= sorted[0].start && InRange(sorted[0], |text|)
    ensures var s, rest, all := sorted[0], Applied(sorted[1..], sorted[0].end, |text|), Applied(sorted, cursor, |text|);
      && |all| == 1 + |rest|
      && Chain(rest, s.end, |text|) && Chain(all, cursor, |text|)
      && out + Rebuild(text, all, cursor) == out + text[cursor..s.start] + s.mark + Rebuild(text, rest, s.end)
  {
    var s, rest := sorted[0], Applied(sorted[1..], sorted[0].end, |text|);
    AppliedIsChain(sorted[1..], s.end, |text|);
    AppliedIsChain(sorted, cursor, |text|);
    var all := Applied(sorted, cursor, |text|);
    assert all == [s] + rest && all[1..] == rest;
    RebuildHead(text, all, cursor, out);
  }

  lemma RebuildHead(text: string, all: seq<Span>, cursor: nat, out: string)
    requires all != [] && Chain(all, cursor, |text|)
    ensures out + Rebuild(text, all, cursor) == out + text[cursor..all[0].start] + all[0].mark + Rebuild(text, all[1..], all[0].end)
  {
    var tail := Rebuild(text, all[1..], all[0].end);
    assert Rebuild(text, all, cursor) == text[cursor..all[0].start] + all[0].mark + tail;
    Associate(out, text[cursor..all[0].start], all[0].mark, tail);
  }

  lemma Associate(a: string, b: string, c: string, d: string)
    ensures a + (b + c + d) == a + b + c + d
  {}

  // ---- What the rebuild guarantees ----

  ghost predicate Covers(spans: seq<Span>, i: nat) {
    exists s :: s in spans && s.start <= i < s.end
  }

  /** The first byte of every in-range span is covered by an applied one. */
  lemma {:induction false} FirstByteCovered(sorted: seq<Span>, cursor: nat, n: nat, s: Span)
    requires Sorted(sorted) && s in sorted && InRange(s, n)
    ensures s.start < cursor || Covers(Applied(sorted, cursor, n), s.start)
    decreases |sorted|
  {
    var head, tail := sorted[0], sorted[1..];
    if head.start < cursor || !InRange(head, n) {
      if s != head { FirstByteCovered(tail, cursor, n, s); }
    } else {
      var rest := Applied(tail, head.end, n);
      if s.start < head.end {
        assert Before(head, s) || s == head;
        assert head in [head] + rest;
      } else {
        FirstByteCovered(tail, head.end, n, s);
        var c :| c in rest && c.start <= s.start < c.end;
        assert c in [head] + rest;
      }
    }
  }

  /** No detected span escapes: each in-range one begins inside an applied one, so the choice is maximal. */
  lemma DetectedSpansAreHit(text: string, spans: seq<Span>, s: Span)
    requires s in spans && InRange(s, |text|)
    ensures Covers(Chosen(text, spans), s.start)
    ensures forall c :: c in Chosen(text, spans) ==> c in spans && InRange(c, |text|)
  {
    SortSorts(spans);
    assert s in multiset(Sort(spans));
    FirstByteCovered(Sort(spans), 0, |text|, s);
    AppliedIsChain(Sort(spans), 0, |text|);
    forall c | c in Chosen(text, spans)
      ensures c in spans
    {
      assert c in multiset(Sort(spans));
    }
  }

  /** By how much the rebuild moves the byte at `i`. */
  function Displacement(spans: seq<Span>, i: nat): int {
    if spans == [] || i < spans[0].end then 0
    else |spans[0].mark| - (spans[0].end - spans[0].start) + Displacement(spans[1..], i)
  }

  /** Every byte outside the applied spans survives, displaced by the labels before it. */
  lemma {:induction false} KeptByte(text: string, spans: seq<Span>, cursor: nat, i: nat)
    requires Chain(spans, cursor, |text|) && cursor <= i < |text| && !Covers(spans, i)
    ensures var at := i - cursor + Displacement(spans, i);
      0 <= at < |Rebuild(text, spans, cursor)| && Rebuild(text, spans, cursor)[at] == text[i]
    decreases |spans|
  {
    if spans != [] {
      var head, tail := spans[0], spans[1..];
      assert head in spans;
      if i >= head.end {
        assert forall c :: c in tail ==> c in spans;
        KeptByte(text, tail, head.end, i);
        AfterCut(text[cursor..head.start] + head.mark, Rebuild(text, tail, head.end), i - head.end + Displacement(tail, i));
      }
    }
  }

  lemma AfterCut(front: string, rest: string, at: int)
    requires 0 <= at < |rest|
    ensures (front + rest)[|front| + at] == rest[at]
  {}

  /** At the place of each applied span stands its label. */
  lemma {:induction false} LabelStands(text: string, spans: seq<Span>, cursor: nat, k: nat)
    requires Chain(spans, cursor, |text|) && k < |spans|
    ensures var (out, s) := (Rebuild(text, spans, cursor), spans[k]);
      var at := s.start - cursor + Displacement(spans, s.start);
      0 <= at && at + |s.mark| <= |out| && out[at..at + |s.mark|] == s.mark
    decreases |spans|
  {
    hide Displacement;
    var head, tail := spans[0], spans[1..];
    var front, rest := text[cursor..head.start] + head.mark, Rebuild(text, tail, head.end);
    assert Rebuild(text, spans, cursor) == front + rest;
    if k == 0 {
      DisplacementAt(spans, head.start);
      assert (front + rest)[|front| - |head.mark|..|front|] == head.mark;
    } else {
      var s := tail[k - 1];
      assert s == spans[k];
      LabelStands(text, tail, head.end, k - 1);
      StartsAfter(tail, head.end, |text|, k - 1);
      DisplacementAt(spans, s.start);
      var at := s.start - head.end + Displacement(tail, s.start);
      assert (front + rest)[|front| + at..|front| + at + |s.mark|] == rest[at..at + |s.mark|];
    }
  }

  lemma DisplacementAt(spans: seq<Span>, i: nat)
    requires spans != []
    ensures Displacement(spans, i) ==
      if i < spans[0].end then 0 else |spans[0].mark| - (spans[0].end - spans[0].start) + Displacement(spans[1..], i)
  {}

  lemma {:induction false} StartsAfter(spans: seq<Span>, cursor: nat, n: nat, k: nat)
    requires Chain(spans, cursor, n) && k < |spans|
    ensures cursor <= spans[k].start
    decreases |spans|
  {
    if k > 0 { StartsAfter(spans[1..], spans[0].end, n, k - 1); }
  }

  /** Later bytes stay later. */
  lemma {:induction false} KeptOrder(spans: seq<Span>, cursor: nat, n: nat, i: nat, j: nat)
    requires Chain(spans, cursor, n) && cursor <= i < j < n && !Covers(spans, i) && !Covers(spans, j)
    ensures i + Displacement(spans, i) < j + Displacement(spans, j)
    decreases |spans|
  {
    if spans != [] {
      var head, tail := spans[0], spans[1..];
      assert head in spans;
      assert forall c :: c in tail ==> c in spans;
      if i >= head.end {
        KeptOrder(tail, head.end, n, i, j);
      } else if j >= head.end {
        NeverBeforeCursor(tail, head.end, n, j);
      }
    }
  }

  lemma {:induction false} NeverBeforeCursor(spans: seq<Span>, cursor: nat, n: nat, j: nat)
    requires Chain(spans, cursor, n) && cursor <= j < n && !Covers(spans, j)
    ensures cursor <= j + Displacement(spans, j)
    decreases |spans|
  {
    if spans != [] {
      var head, tail := spans[0], spans[1..];
      assert head in spans;
      assert forall c :: c in tail ==> c in spans;
      if j >= head.end { NeverBeforeCursor(tail, head.end, n, j); }
    }
  }

  function LabelBytes(spans: seq<Span>): nat {
    if spans == [] then 0 else |spans[0].mark| + LabelBytes(spans[1..])
  }

  function CoveredBytes(spans: seq<Span>): int {
    if spans == [] then 0 else spans[0].end - spans[0].start + CoveredBytes(spans[1..])
  }

  /** The output's length accounts exactly for what was cut and what was inserted. */
  lemma {:induction false} RebuiltLength(text: string, spans: seq<Span>, cursor: nat)
    requires Chain(spans, cursor, |text|)
    ensures |Rebuild(text, spans, cursor)| == |text| - cursor - CoveredBytes(spans) + LabelBytes(spans)
    decreases |spans|
  {
    if spans != [] { RebuiltLength(text, spans[1..], spans[0].end); }
  }

  ghost predicate AsciiLabels(spans: seq<Span>) {
    forall s, i :: s in spans && 0 <= i < |s.mark| ==> IsAscii(s.mark[i])
  }

  /** Redacting valid UTF-8 leaves valid UTF-8. */
  lemma {:induction false} RebuildValid(text: string, spans: seq<Span>, cursor: nat)
    requires Utf8.Valid(text) && Chain(spans, cursor, |text|) && Utf8.Boundary(text, cursor)
    requires OnBoundaries(text, spans) && AsciiLabels(spans)
    ensures Utf8.Valid(Rebuild(text, spans, cursor))
    decreases |spans|
  {
    hide Utf8.Valid, Utf8.Boundary, Utf8.LeadsSequence;
    if spans == [] {
      Utf8.SuffixValid(text, cursor);
    } else {
      var head, tail := spans[0], spans[1..];
      assert head in spans && InRange(head, |text|);
      assert forall s :: s in tail ==> s in spans;
      Utf8.SliceValid(text, cursor, head.start);
      Utf8.AsciiValid(head.mark);
      RebuildValid(text, tail, head.end);
      Utf8.ConcatValid(text[cursor..head.start], head.mark);
      Utf8.ConcatValid(text[cursor..head.start] + head.mark, Rebuild(text, tail, head.end));
    }
  }

  lemma RedactedValid(text: string, spans: seq<Span>)
    requires Utf8.Valid(text) && OnBoundaries(text, spans) && AsciiLabels(spans)
    ensures Utf8.Valid(Redacted(text, spans))
  {
    SortSorts(spans);
    AppliedIsChain(Sort(spans), 0, |text|);
    forall s | s in Chosen(text, spans)
      ensures s in spans
    {
      assert s in multiset(Sort(spans));
    }
    RebuildValid(text, Chosen(text, spans), 0);
  }
}
