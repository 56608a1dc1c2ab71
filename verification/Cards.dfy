// The payment-card detector: digits with single spaces or hyphens between them, checked by Luhn.
module Cards {
  import opened Ascii
  import opened FileNames
  import opened Spans
  import Luhn
  import Utf8
  import DigitRuns

  predicate IsGap(c: char) { c == ' ' || c == '-' }

  /** A digit no earlier group reaches. */
  predicate GroupStart(t: string, p: nat) {
    && p < |t| && IsDigit(t[p])
    && (p > 0 ==> !IsDigit(t[p - 1]))
    && (p > 1 && IsGap(t[p - 1]) ==> !IsDigit(t[p - 2]))
  }

  predicate GapBeforeDigit(t: string, p: nat) {
    p + 1 < |t| && IsGap(t[p]) && IsDigit(t[p + 1])
  }

  /** Where the group that covers `j` ends. */
  function GroupEnd(t: string, j: nat): (end: nat)
    requires j <= |t|
    ensures j <= end <= |t|
    decreases |t| - j
  {
    if j < |t| && (IsDigit(t[j]) || GapBeforeDigit(t, j)) then GroupEnd(t, j + 1) else j
  }

  /** The digit values in `start..j`. */
  function GroupDigits(t: string, start: nat, j: nat): seq<Luhn.digit>
    requires start <= j <= |t|
    decreases j
  {
    if j == start then []
    else GroupDigits(t, start, j - 1) + if IsDigit(t[j - 1]) then [t[j - 1] as int - '0' as int] else []
  }

  /** A card number stands at `start..end`. */
  predicate CardAt(t: string, start: nat, end: nat) {
    && GroupStart(t, start) && end == GroupEnd(t, start)
    && Luhn.Valid(GroupDigits(t, start, end))
    && !(end < |t| && HasExtension(t[end..]))
    && !AfterSeparator(t, start)
  }

  /** A digit, or a separator right after a digit. */
  predicate InGroup(t: string, start: nat, p: nat)
    requires start <= p < |t|
  {
    IsDigit(t[p]) || (p > start && IsGap(t[p]) && IsDigit(t[p - 1]))
  }

  lemma {:induction false} GroupShape(t: string, j: nat)
    requires j < |t| && IsDigit(t[j])
    ensures j < GroupEnd(t, j) && IsDigit(t[GroupEnd(t, j) - 1])
    ensures GroupEnd(t, j) < |t| ==> !IsDigit(t[GroupEnd(t, j)]) && !GapBeforeDigit(t, GroupEnd(t, j))
    ensures forall p :: j <= p < GroupEnd(t, j) ==> InGroup(t, j, p)
    decreases |t| - j
  {
    var end := GroupEnd(t, j);
    if j + 1 < |t| && IsDigit(t[j + 1]) {
      GroupShape(t, j + 1);
      forall p | j <= p < end ensures InGroup(t, j, p) {
        if p > j { assert InGroup(t, j + 1, p); }
      }
    } else if j + 1 < |t| && GapBeforeDigit(t, j + 1) {
      assert end == GroupEnd(t, j + 2);
      GroupShape(t, j + 2);
      forall p | j <= p < end ensures InGroup(t, j, p) {
        if p > j + 1 { assert InGroup(t, j + 2, p); }
      }
    } else {
      assert end == j + 1;
    }
  }

  /** Scanning has not stopped inside a group. */
  ghost predicate Clean(t: string, i: nat) {
    && i <= |t|
    && (i < |t| && IsDigit(t[i]) ==> GroupStart(t, i))
    && (0 < i && IsDigit(t[i - 1]) ==> !GapBeforeDigit(t, i))
  }

  lemma CleanAfterGroup(t: string, start: nat)
    requires start < |t| && IsDigit(t[start])
    ensures Clean(t, GroupEnd(t, start))
    ensures forall p :: start < p < GroupEnd(t, start) ==> !GroupStart(t, p)
  {
    GroupShape(t, start);
    var end := GroupEnd(t, start);
    forall p | start < p < end
      ensures !GroupStart(t, p)
    {
      assert InGroup(t, start, p - 1) && InGroup(t, start, p);
    }
  }

  /** The loop that drops trailing separators. */
  method TrimGaps(t: string, start: nat, j: nat) returns (end: nat)
    requires start <= j <= |t|
    ensures start <= end <= j
    ensures end == start || !IsGap(t[end - 1])
    ensures j > start && !IsGap(t[j - 1]) ==> end == j
  {
    end := j;
    while end > start && IsGap(t[end - 1])
      invariant start <= end <= j
      invariant j > start && !IsGap(t[j - 1]) ==> end == j
    {
      end := end - 1;
    }
  }

  /** `detect_cards`: exactly the card groups of the text are reported. */
  method DetectCards(t: string, out0: seq<Span>) returns (out: seq<Span>)
    ensures out0 <= out
    ensures forall s :: s in out[|out0|..] <==> s.mark == DigitRuns.CARD_LABEL && CardAt(t, s.start, s.end)
  {
    hide Luhn.Valid, HasExtension, GroupDigits;
    out := out0;
    var i: nat := 0;
    while i < |t|
      invariant Clean(t, i)
      invariant out0 <= out
      invariant forall s :: s in out[|out0|..] <==> s.start < i && s.mark == DigitRuns.CARD_LABEL && CardAt(t, s.start, s.end)
      decreases |t| - i
    {
      if !IsDigit(t[i]) {
        i := i + 1;
        continue;
      }
      var j, digits := CollectGroup(t, i);
      GroupShape(t, i);
      CleanAfterGroup(t, i);
      var end := TrimGaps(t, i, j);
      var valid := Luhn.Check(digits);
      var named := IsFollowedByExtension(t, end);
      ghost var before := out[|out0|..];
      assert end == j && GroupStart(t, i);
      assert CardAt(t, i, j) <==> valid && !named && !AfterSeparator(t, i);
      assert forall s: Span :: i <= s.start < j && CardAt(t, s.start, s.end) ==> s.start == i && s.end == j;
      if valid && !named && !AfterSeparator(t, i) {
        out := out + [Span(i, end, DigitRuns.CARD_LABEL)];
        assert out[|out0|..] == before + [Span(i, j, DigitRuns.CARD_LABEL)];
      }
      i := j;
    }
  }

  /** The loop over one group of digits and single separators. */
  method CollectGroup(t: string, start: nat) returns (j: nat, digits: seq<Luhn.digit>)
    requires start < |t| && IsDigit(t[start])
    ensures j == GroupEnd(t, start) && digits == GroupDigits(t, start, j)
  {
    j, digits := start, [];
    while j < |t|
      invariant start <= j <= |t| && GroupEnd(t, j) == GroupEnd(t, start)
      invariant digits == GroupDigits(t, start, j)
      decreases |t| - j
    {
      var b := t[j];
      if IsDigit(b) {
        digits := digits + [b as int - '0' as int];
        j := j + 1;
      } else if (b == ' ' || b == '-') && j + 1 < |t| && IsDigit(t[j + 1]) {
        j := j + 1;
      } else {
        break;
      }
    }
  }

  /** A card group begins and ends at character boundaries. */
  lemma CardOnBoundaries(t: string, start: nat, end: nat)
    requires Utf8.Valid(t) && CardAt(t, start, end)
    ensures start < end <= |t| && Utf8.Boundary(t, start) && Utf8.Boundary(t, end)
  {
    hide Luhn.Valid, HasExtension;
    GroupShape(t, start);
    Utf8.AsciiEnds(t, start);
    Utf8.AsciiEnds(t, end - 1);
  }

  // ---- Which digits a group holds ----

  /** How many digits stand in `from..end`. */
  function DigitCount(t: string, from: nat, end: nat): nat
    requires from <= end <= |t|
    decreases end - from
  {
    if from == end then 0 else (if IsDigit(t[from]) then 1 else 0) + DigitCount(t, from + 1, end)
  }

  lemma {:induction false} DigitCountMore(t: string, from: nat, end: nat)
    requires from <= end < |t|
    ensures DigitCount(t, from, end + 1) == DigitCount(t, from, end) + (if IsDigit(t[end]) then 1 else 0)
    decreases end - from
  {
    if from < end { DigitCountMore(t, from + 1, end); }
  }

  lemma {:induction false} DigitCountGrows(t: string, from: nat, mid: nat, end: nat)
    requires from <= mid <= end <= |t|
    ensures DigitCount(t, from, end) == DigitCount(t, from, mid) + DigitCount(t, mid, end)
    decreases mid - from
  {
    if from < mid { DigitCountGrows(t, from + 1, mid, end); }
  }

  /** The digit values are those of the digits in the text, in order, and no others. */
  lemma {:induction false} GroupDigitsAre(t: string, start: nat, j: nat)
    requires start <= j <= |t|
    ensures |GroupDigits(t, start, j)| == DigitCount(t, start, j)
    ensures forall p: nat :: start <= p < j && IsDigit(t[p]) ==>
      DigitCount(t, start, p) < DigitCount(t, start, j)
      && GroupDigits(t, start, j)[DigitCount(t, start, p)] as int == t[p] as int - '0' as int
    decreases j
  {
    if j > start {
      GroupDigitsAre(t, start, j - 1);
      DigitCountMore(t, start, j - 1);
      forall p: nat | start <= p < j && IsDigit(t[p])
        ensures DigitCount(t, start, p) < DigitCount(t, start, j)
        ensures GroupDigits(t, start, j)[DigitCount(t, start, p)] as int == t[p] as int - '0' as int
      {
        if p < j - 1 { DigitCountGrows(t, start, p, j - 1); }
      }
    }
  }
}
