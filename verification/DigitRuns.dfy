// The long-digit-run detector, and why one redaction pass with it is enough.
module DigitRuns {
  import opened Ascii
  import opened FileNames
  import opened Spans
  import Utf8

  const CARD_LABEL := "[REDACTED-PAN]"

  /** The filename and path exemptions of the run `start..end`. */
  predicate Exempt(text: string, start: nat, end: nat)
    requires start <= end <= |text|
  {
    || AfterSeparator(text, start)
    || (end < |text| && HasExtension(text[end..]))
    || LeadsToExtension(text[end..])
    || (start > 0 && (IsAlpha(text[start - 1]) || text[start - 1] == '_' || text[start - 1] == '-') && LeadsToExtension(text[end..]))
  }

  /** `start..end` is a run of digits that cannot be extended. */
  predicate MaximalRun(text: string, start: nat, end: nat) {
    && start < end <= |text|
    && (forall i :: start <= i < end ==> IsDigit(text[i]))
    && (start > 0 ==> !IsDigit(text[start - 1]))
    && (end < |text| ==> !IsDigit(text[end]))
  }

  /** The spans pushed for the runs from position `i` on. */
  function RunSpans(text: string, min: nat, i: nat): seq<Span>
    requires i <= |text|
    decreases |text| - i
  {
    if i == |text| then []
    else if !IsDigit(text[i]) then RunSpans(text, min, i + 1)
    else
      var end := RunEnd(text, i, IsDigit);
      var rest := RunSpans(text, min, end);
      if end - i >= min && !Exempt(text, i, end) then [Span(i, end, CARD_LABEL)] + rest else rest
  }

  /** `detect_long_digit_runs`. */
  method DetectLongDigitRuns(text: string, min: nat, out0: seq<Span>) returns (out: seq<Span>)
    ensures out == out0 + RunSpans(text, min, 0)
  {
    hide Exempt;
    out := out0;
    var i := 0;
    while i < |text|
      invariant 0 <= i <= |text|
      invariant out + RunSpans(text, min, i) == out0 + RunSpans(text, min, 0)
    {
      if !IsDigit(text[i]) {
        i := i + 1;
        continue;
      }
      var start := i;
      i := SkipWhile(text, i, IsDigit);
      if i - start < min {
        continue;
      }
      var exempt := IsExempt(text, start, i);
      if exempt {
        continue;
      }
      out := out + [Span(start, i, CARD_LABEL)];
    }
  }

  method IsExempt(text: string, start: nat, end: nat) returns (b: bool)
    requires start <= end <= |text|
    ensures b == Exempt(text, start, end)
  {
    if AfterSeparator(text, start) {
      return true;
    }
    b := IsFollowedByExtension(text, end);
    if !b {
      b := IsInsideFilename(text, end);
    }
    if !b {
      b := IsAfterIdentifier(text, start, end);
    }
  }

  /** Three of the four exemptions are one: the name the run ends in leads to an extension. */
  lemma ExemptSimplified(text: string, start: nat, end: nat)
    requires start <= end <= |text|
    ensures Exempt(text, start, end) <==> AfterSeparator(text, start) || LeadsToExtension(text[end..])
  {
    if end < |text| && HasExtension(text[end..]) {
      assert RunEnd(text[end..], 0, IsNameChar) == 0;
      assert text[end..][0..] == text[end..];
    }
  }

  /** The detector reports exactly the maximal runs that are long enough and not exempt. */
  lemma {:induction false} RunSpansIff(text: string, min: nat, i: nat, start: nat, end: nat)
    requires i <= |text| && (i > 0 && i < |text| ==> !(IsDigit(text[i - 1]) && IsDigit(text[i])))
    ensures Span(start, end, CARD_LABEL) in RunSpans(text, min, i) <==>
      i <= start && MaximalRun(text, start, end) && end - start >= min && !Exempt(text, start, end)
    decreases |text| - i
  {
    hide Exempt;
    if i < |text| {
      if !IsDigit(text[i]) {
        RunSpansIff(text, min, i + 1, start, end);
      } else {
        var stop := RunEnd(text, i, IsDigit);
        RunSpansIff(text, min, stop, start, end);
        if start == i && MaximalRun(text, start, end) {
          RunEndUnique(text, i, IsDigit, end);
        }
      }
    }
  }

  /** What the detector reports lies between character boundaries. */
  lemma {:induction false} RunSpansLegal(text: string, min: nat, i: nat, s: Span)
    requires Utf8.Valid(text) && i <= |text| && s in RunSpans(text, min, i)
    ensures s.mark == CARD_LABEL && InRange(s, |text|) && Utf8.Boundary(text, s.start) && Utf8.Boundary(text, s.end)
    decreases |text| - i
  {
    hide Exempt, Utf8.Valid, Utf8.Boundary;
    if !IsDigit(text[i]) {
      RunSpansLegal(text, min, i + 1, s);
    } else {
      var end := RunEnd(text, i, IsDigit);
      if s in RunSpans(text, min, end) {
        RunSpansLegal(text, min, end, s);
      } else {
        Utf8.AsciiEnds(text, i);
        Utf8.AsciiEnds(text, end - 1);
      }
    }
  }

  // ---- One pass is enough ----

  /** The text after redaction, as a function of the rest of the input and whether a separator precedes it. */
  function Masked(afterSep: bool, s: string, min: nat): string
    decreases |s|
  {
    if s == "" then ""
    else if !IsDigit(s[0]) then [s[0]] + Masked(IsSeparator(s[0]), s[1..], min)
    else
      var r := RunEnd(s, 0, IsDigit);
      (if r < min || afterSep || LeadsToExtension(s[r..]) then s[..r] else CARD_LABEL) + Masked(false, s[r..], min)
  }

  /** How many runs are redacted. */
  function Redactions(afterSep: bool, s: string, min: nat): nat
    decreases |s|
  {
    if s == "" then 0
    else if !IsDigit(s[0]) then Redactions(IsSeparator(s[0]), s[1..], min)
    else
      var r := RunEnd(s, 0, IsDigit);
      (if r < min || afterSep || LeadsToExtension(s[r..]) then 0 else 1) + Redactions(false, s[r..], min)
  }

  lemma SuffixStep(text: string, i: nat)
    requires i < |text|
    ensures text[i..][0] == text[i] && text[i..][1..] == text[i + 1..]
    ensures IsDigit(text[i]) ==> RunEnd(text[i..], 0, IsDigit) == RunEnd(text, i, IsDigit) - i > 0
    ensures var end := RunEnd(text, i, IsDigit);
      text[i..][end - i..] == text[end..] && text[i..][..end - i] == text[i..end]
  {
    RunEndOfSuffix(text, i, IsDigit);
  }

  lemma {:induction false} CountsAgree(text: string, min: nat, i: nat)
    requires i <= |text|
    ensures |RunSpans(text, min, i)| == Redactions(AfterSeparator(text, i), text[i..], min)
    decreases |text| - i
  {
    hide Exempt, LeadsToExtension;
    if i < |text| {
      SuffixStep(text, i);
      if !IsDigit(text[i]) {
        CountsAgree(text, min, i + 1);
      } else {
        var end := RunEnd(text, i, IsDigit);
        ExemptSimplified(text, i, end);
        CountsAgree(text, min, end);
        assert IsDigit(text[end - 1]);
      }
    }
  }

  lemma {:induction false} SpansFollow(text: string, min: nat, i: nat)
    requires i <= |text|
    ensures Chain(RunSpans(text, min, i), i, |text|)
    ensures forall s :: s in RunSpans(text, min, i) ==> i <= s.start
    ensures Sorted(RunSpans(text, min, i))
    decreases |text| - i
  {
    hide Exempt;
    if i < |text| {
      if !IsDigit(text[i]) {
        SpansFollow(text, min, i + 1);
        ChainEarlier(RunSpans(text, min, i + 1), i + 1, i, |text|);
      } else {
        var end := RunEnd(text, i, IsDigit);
        SpansFollow(text, min, end);
        ChainEarlier(RunSpans(text, min, end), end, i, |text|);
      }
    }
  }

  lemma ChainEarlier(spans: seq<Span>, cursor: nat, earlier: nat, n: nat)
    requires Chain(spans, cursor, n) && earlier <= cursor
    ensures Chain(spans, earlier, n)
  {}

  lemma {:induction false} SortOfSorted(s: seq<Span>)
    requires Sorted(s)
    ensures Sort(s) == s
  {
    if s != [] {
      SortOfSorted(s[1..]);
      assert s == [s[0]] + s[1..];
    }
  }

  lemma {:induction false} AppliedOfChain(spans: seq<Span>, cursor: nat, n: nat)
    requires Chain(spans, cursor, n)
    ensures Applied(spans, cursor, n) == spans
    decreases |spans|
  {
    if spans != [] {
      AppliedOfChain(spans[1..], spans[0].end, n);
      assert spans == [spans[0]] + spans[1..];
    }
  }

  lemma RebuildFromEarlier(text: string, spans: seq<Span>, earlier: nat, cursor: nat)
    requires Chain(spans, cursor, |text|) && earlier <= cursor
    ensures Chain(spans, earlier, |text|)
    ensures Rebuild(text, spans, earlier) == text[earlier..cursor] + Rebuild(text, spans, cursor)
  {
    ChainEarlier(spans, cursor, earlier, |text|);
    if spans == [] {
      assert text[earlier..] == text[earlier..cursor] + text[cursor..];
    } else {
      var h := spans[0];
      assert text[earlier..h.start] == text[earlier..cursor] + text[cursor..h.start];
    }
  }

  lemma RebuildFirst(text: string, first: Span, rest: seq<Span>)
    requires InRange(first, |text|) && Chain(rest, first.end, |text|)
    ensures Chain([first] + rest, first.start, |text|)
    ensures Rebuild(text, [first] + rest, first.start) == first.mark + Rebuild(text, rest, first.end)
  {
    var all := [first] + rest;
    assert all[0] == first && all[1..] == rest;
    assert text[first.start..first.start] + first.mark == first.mark;
  }

  /** Rebuilding from `i` on gives what `Masked` says. */
  ghost predicate RebuildsTo(text: string, spans: seq<Span>, i: nat, out: string) {
    i <= |text| && Chain(spans, i, |text|) && Rebuild(text, spans, i) == out
  }

  lemma RunRebuilt(text: string, min: nat, i: nat)
    requires i < |text| && IsDigit(text[i])
    requires var end := RunEnd(text, i, IsDigit);
      RebuildsTo(text, RunSpans(text, min, end), end, Masked(false, text[end..], min))
    ensures RebuildsTo(text, RunSpans(text, min, i), i, Masked(AfterSeparator(text, i), text[i..], min))
  {
    hide Exempt, LeadsToExtension, Rebuild, Chain;
    SuffixStep(text, i);
    var end := RunEnd(text, i, IsDigit);
    var rest := RunSpans(text, min, end);
    ExemptSimplified(text, i, end);
    if end - i >= min && !Exempt(text, i, end) {
      RebuildFirst(text, Span(i, end, CARD_LABEL), rest);
    } else {
      RebuildFromEarlier(text, rest, i, end);
    }
  }

  lemma NothingRebuilt(text: string, min: nat)
    ensures RebuildsTo(text, RunSpans(text, min, |text|), |text|, Masked(AfterSeparator(text, |text|), text[|text|..], min))
  {
    Spans.NothingLeft(text);
  }

  lemma NonDigitRebuilt(text: string, min: nat, i: nat)
    requires i < |text| && !IsDigit(text[i])
    requires RebuildsTo(text, RunSpans(text, min, i + 1), i + 1, Masked(AfterSeparator(text, i + 1), text[i + 1..], min))
    ensures RebuildsTo(text, RunSpans(text, min, i), i, Masked(AfterSeparator(text, i), text[i..], min))
  {
    hide Rebuild, Chain;
    RebuildFromEarlier(text, RunSpans(text, min, i + 1), i, i + 1);
    assert text[i..][0] == text[i] && text[i..][1..] == text[i + 1..];
  }

  lemma {:induction false} RebuildIsMasked(text: string, min: nat, i: nat)
    requires i <= |text|
    ensures RebuildsTo(text, RunSpans(text, min, i), i, Masked(AfterSeparator(text, i), text[i..], min))
    decreases |text| - i
  {
    hide Exempt, LeadsToExtension, RebuildsTo;
    if i == |text| {
      NothingRebuilt(text, min);
    } else if !IsDigit(text[i]) {
      RebuildIsMasked(text, min, i + 1);
      NonDigitRebuilt(text, min, i);
    } else {
      var end := RunEnd(text, i, IsDigit);
      RebuildIsMasked(text, min, end);
      assert !AfterSeparator(text, end) by { assert IsDigit(text[end - 1]); }
      RunRebuilt(text, min, i);
    }
  }

  /** Redacting with this detector alone is `Masked`, and applies `Redactions` spans. */
  lemma RedactedIsMasked(text: string, min: nat)
    ensures Redacted(text, RunSpans(text, min, 0)) == Masked(false, text, min)
    ensures |Chosen(text, RunSpans(text, min, 0))| == |RunSpans(text, min, 0)| == Redactions(false, text, min)
  {
    hide Masked, Redactions;
    assert text[0..] == text;
    SpansFollow(text, min, 0);
    SortOfSorted(RunSpans(text, min, 0));
    AppliedOfChain(RunSpans(text, min, 0), 0, |text|);
    RebuildIsMasked(text, min, 0);
    CountsAgree(text, min, 0);
  }

  /** A name prefix neither makes nor breaks an extension after it. */
  lemma NamePrefix(p: string, s: string)
    requires forall i :: 0 <= i < |p| ==> IsNameChar(p[i])
    ensures LeadsToExtension(p + s) <==> LeadsToExtension(s)
  {
    hide HasExtension;
    var k := RunEnd(s, 0, IsNameChar);
    RunEndUnique(p + s, 0, IsNameChar, |p| + k);
    assert (p + s)[|p| + k..] == s[k..];
  }

  lemma MaskedHead(afterSep: bool, s: string, min: nat)
    requires s == "" || !IsDigit(s[0])
    ensures |Masked(afterSep, s, min)| > 0 <==> s != ""
    ensures s != "" ==> Masked(afterSep, s, min)[0] == s[0]
  {}

  /** Short digit groups inside an extension are kept. */
  lemma {:induction false} ExtensionKept(ext: string, tail: string, min: nat)
    requires min >= 2 && NoAdjacentDigits(ext) && (tail == "" || !IsDigit(tail[0]))
    requires forall i :: 0 <= i < |ext| ==> IsAlnum(ext[i])
    ensures Masked(false, ext + tail, min) == ext + Masked(false, tail, min)
    decreases |ext|
  {
    hide Masked;
    if ext == "" {
      assert ext + tail == tail;
    } else {
      var rest := ext[1..];
      assert forall i :: 0 <= i < |rest| ==> rest[i] == ext[i + 1];
      ExtensionKept(rest, tail, min);
      assert |ext| > 1 ==> !(IsDigit(ext[0]) && IsDigit(ext[1]));
      assert rest + tail != "" && IsDigit(ext[0]) ==> !IsDigit((rest + tail)[0]);
      OneKept(ext[0], rest + tail, min);
      Regroup(ext, tail);
      Regroup(ext, Masked(false, tail, min));
    }
  }

  lemma Regroup(a: string, b: string)
    requires a != ""
    ensures a + b == [a[0]] + (a[1..] + b)
  {}

  /** A lone digit, or any other character but a separator, is kept. */
  lemma OneKept(c: char, s: string, min: nat)
    requires min >= 2 && !IsSeparator(c) && (IsDigit(c) ==> s == "" || !IsDigit(s[0]))
    ensures Masked(false, [c] + s, min) == [c] + Masked(false, s, min)
  {
    hide LeadsToExtension;
    assert ([c] + s)[1..] == s && ([c] + s)[..1] == [c];
    if IsDigit(c) { RunEndUnique([c] + s, 0, IsDigit, 1); }
  }

  /** An extension right here survives redaction of what follows. */
  lemma ExtensionSurvives(afterSep: bool, s: string, min: nat)
    requires min >= 2 && HasExtension(s)
    ensures HasExtension(Masked(afterSep, s, min))
  {
    hide Known, LeadsToExtension;
    var n := ExtensionLength(s[1..]);
    var ext, tail := s[1..][..n], s[1..][n..];
    KnownShaped(ext);
    assert s[1..] == ext + tail;
    assert tail == "" || !IsAlnum(tail[0]);
    ExtensionKept(ext, tail, min);
    MaskedHead(false, tail, min);
    var m := Masked(afterSep, s, min);
    assert m == ['.'] + (ext + Masked(false, tail, min));
    assert m[1..] == ext + Masked(false, tail, min);
    RunEndUnique(m[1..], 0, IsAlnum, n);
    assert m[1..][..n] == ext;
  }

  /** What leads to an extension still does after redaction. */
  lemma {:induction false} LeadSurvives(afterSep: bool, s: string, min: nat)
    requires min >= 2 && LeadsToExtension(s)
    ensures LeadsToExtension(Masked(afterSep, s, min))
    decreases |s|
  {
    hide HasExtension;
    NothingHasNoExtension();
    if IsDigit(s[0]) {
      var r := RunEnd(s, 0, IsDigit);
      assert s == s[..r] + s[r..];
      NamePrefix(s[..r], s[r..]);
      LeadSurvives(false, s[r..], min);
      NamePrefix(s[..r], Masked(false, s[r..], min));
    } else if IsNameChar(s[0]) {
      assert s == [s[0]] + s[1..];
      NamePrefix([s[0]], s[1..]);
      LeadSurvives(IsSeparator(s[0]), s[1..], min);
      NamePrefix([s[0]], Masked(IsSeparator(s[0]), s[1..], min));
    } else {
      assert s[0..] == s;
      ExtensionSurvives(afterSep, s, min);
      var m := Masked(afterSep, s, min);
      assert m[0] == s[0] && m[0..] == m;
    }
  }

  lemma NothingHasNoExtension()
    ensures !LeadsToExtension("")
  {}

  lemma {:induction false} NonDigitsSkipped(afterSep: bool, p: string, s: string, min: nat)
    requires p != "" && forall i :: 0 <= i < |p| ==> !IsDigit(p[i])
    ensures Redactions(afterSep, p + s, min) == Redactions(IsSeparator(p[|p| - 1]), s, min)
    decreases |p|
  {
    assert (p + s)[1..] == p[1..] + s;
    if |p| == 1 {
      assert p[1..] + s == s;
    } else {
      NonDigitsSkipped(IsSeparator(p[0]), p[1..], s, min);
    }
  }

  /** Nothing is left to redact in a redacted text. */
  lemma {:induction false} NothingLeft(afterSep: bool, s: string, min: nat)
    requires min >= 2
    ensures Redactions(afterSep, Masked(afterSep, s, min), min) == 0
    decreases |s|
  {
    hide LeadsToExtension;
    if s != "" {
      if !IsDigit(s[0]) {
        NothingLeft(IsSeparator(s[0]), s[1..], min);
        NonDigitsSkipped(afterSep, [s[0]], Masked(IsSeparator(s[0]), s[1..], min), min);
      } else {
        var r := RunEnd(s, 0, IsDigit);
        var tail := Masked(false, s[r..], min);
        NothingLeft(false, s[r..], min);
        MaskedHead(false, s[r..], min);
        if r < min || afterSep || LeadsToExtension(s[r..]) {
          if LeadsToExtension(s[r..]) { LeadSurvives(false, s[r..], min); }
          var out := s[..r] + tail;
          RunEndUnique(out, 0, IsDigit, r);
          assert out[r..] == tail;
        } else {
          NonDigitsSkipped(afterSep, CARD_LABEL, tail, min);
        }
      }
    }
  }

  /** With this detector alone and `min >= 2`, redacting a redacted text finds nothing. */
  lemma OnePassIsEnough(text: string, min: nat)
    requires min >= 2
    ensures RunSpans(Redacted(text, RunSpans(text, min, 0)), min, 0) == []
  {
    hide Masked, Redactions;
    RedactedIsMasked(text, min);
    NothingLeft(false, text, min);
    RedactedIsMasked(Masked(false, text, min), min);
  }

  /** With `min < 2`, redacting a digit inside an extension takes away another run's exemption. */
  lemma SmallMinimumNeedsMore(min: nat)
    requires min < 2
    ensures RunSpans(Redacted("1.7z", RunSpans("1.7z", min, 0)), min, 0) != []
  {
    RedactedIsMasked("1.7z", min);
    ArchiveName(min);
    var out := "1." + CARD_LABEL + "z";
    RedactedIsMasked(out, min);
    NoLongerExempt();
    RunEndUnique(out, 0, IsDigit, 1);
  }

  lemma ArchiveName(min: nat)
    requires min < 2
    ensures Masked(false, "1.7z", min) == "1." + CARD_LABEL + "z"
  {
    hide Known;
    var s := "1.7z";
    assert "7z" in ARCHIVES;
    SevenZipKnown();
    RunEndUnique("7z", 0, IsAlnum, 2);
    assert ".7z"[1..] == "7z" && "7z"[..2] == "7z";
    RunEndUnique(".7z", 0, IsNameChar, 0);
    assert ".7z"[0..] == ".7z" && LeadsToExtension(".7z");
    RunEndUnique(s, 0, IsDigit, 1);
    assert s[1..] == ".7z" && s[..1] == "1";
    RunEndUnique("7z", 0, IsDigit, 1);
    assert "7z"[1..] == "z" && "z"[1..] == "";
    RunEndUnique("z", 0, IsNameChar, 1);
    assert Masked(false, "z", min) == "z";
    assert Masked(false, "7z", min) == CARD_LABEL + "z";
    assert Masked(false, ".7z", min) == "." + (CARD_LABEL + "z");
  }

  lemma SevenZipKnown()
    ensures Known("7z")
  {
    assert Lower("7z") == "7z";
    assert "7z" in ARCHIVES;
  }

  lemma NoLongerExempt()
    ensures !LeadsToExtension(("1." + CARD_LABEL + "z")[1..])
  {
    hide Known;
    var s := ("1." + CARD_LABEL + "z")[1..];
    RunEndUnique(s, 0, IsNameChar, 0);
    assert s[0..] == s && s[1] == '[';
    RunEndUnique(s[1..], 0, IsAlnum, 0);
    EmptyUnknown();
    assert s[1..][..0] == "";
  }

  /** One pass suffices for every text exactly when the minimum is at least 2. */
  lemma OnePassIff(min: nat)
    ensures (forall text :: RunSpans(Redacted(text, RunSpans(text, min, 0)), min, 0) == []) <==> min >= 2
  {
    hide RunSpans, Redacted;
    if min >= 2 {
      forall text ensures RunSpans(Redacted(text, RunSpans(text, min, 0)), min, 0) == [] {
        OnePassIsEnough(text, min);
      }
    } else {
      SmallMinimumNeedsMore(min);
    }
  }
}
