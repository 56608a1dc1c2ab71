// ASCII character classes. A byte of UTF-8 text is a character below 256.
module Ascii {

  predicate IsAscii(c: char) { c < 128 as char }

  predicate IsDigit(c: char) { '0' <= c <= '9' }

  predicate IsUpper(c: char) { 'A' <= c <= 'Z' }

  predicate IsLower(c: char) { 'a' <= c <= 'z' }

  predicate IsAlpha(c: char) { IsUpper(c) || IsLower(c) }

  predicate IsAlnum(c: char) { IsAlpha(c) || IsDigit(c) }

  /** `is_ascii_whitespace`: no vertical tab. */
  predicate IsBlank(c: char) { c == ' ' || c == '\t' || c == '\n' || c == '\r' || c == 12 as char }

  function LowerChar(c: char): char {
    if IsUpper(c) then (c as int + 32) as char else c
  }

  /** `to_ascii_lowercase`. */
  function Lower(s: string): (t: string)
    ensures |t| == |s|
    ensures forall i :: 0 <= i < |s| ==> t[i] == LowerChar(s[i])
  {
    seq(|s|, i requires 0 <= i < |s| => LowerChar(s[i]))
  }

  /** The needle stands at position `at`. */
  predicate Occurs(s: string, needle: string, at: nat) {
    at + |needle| <= |s| && s[at..at + |needle|] == needle
  }

  lemma OccursHead(s: string, needle: string, at: nat)
    requires needle != ""
    ensures Occurs(s, needle, at) ==> s[at] == needle[0]
  {}

  lemma OccursShift(before: string, tail: string, needle: string, at: nat)
    ensures Occurs(before + tail, needle, |before| + at) <==> Occurs(tail, needle, at)
  {
    if at + |needle| <= |tail| {
      assert (before + tail)[|before| + at..|before| + at + |needle|] == tail[at..at + |needle|];
    }
  }

  /** `str::find` from position `from`: the first occurrence, if any. */
  function Find(s: string, needle: string, from: nat): (r: int)
    requires from <= |s|
    ensures r == -1 || from <= r
    ensures r >= 0 ==> Occurs(s, needle, r)
    ensures forall i :: from <= i && (r == -1 || i < r) ==> !Occurs(s, needle, i)
    decreases |s| - from
  {
    if Occurs(s, needle, from) then from
    else if from == |s| then -1
    else Find(s, needle, from + 1)
  }

  /** End of the run of characters satisfying `p` that begins at `from`. */
  function RunEnd(s: string, from: nat, p: char -> bool): (end: nat)
    requires from <= |s|
    ensures from <= end <= |s|
    ensures forall i :: from <= i < end ==> p(s[i])
    ensures end < |s| ==> !p(s[end])
    decreases |s| - from
  {
    if from < |s| && p(s[from]) then RunEnd(s, from + 1, p) else from
  }

  lemma RunEndUnique(s: string, from: nat, p: char -> bool, end: nat)
    requires from <= end <= |s|
    requires forall i :: from <= i < end ==> p(s[i])
    requires end < |s| ==> !p(s[end])
    ensures RunEnd(s, from, p) == end
  {}

  /** The scanning loop every detector uses. */
  method SkipWhile(s: string, from: nat, p: char -> bool) returns (end: nat)
    requires from <= |s|
    ensures end == RunEnd(s, from, p)
  {
    end := from;
    while end < |s| && p(s[end])
      invariant from <= end <= |s|
      invariant forall i :: from <= i < end ==> p(s[i])
    {
      end := end + 1;
    }
    RunEndUnique(s, from, p, end);
  }
}
