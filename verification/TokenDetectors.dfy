// Detectors that look at whole tokens: credential-shaped values, high-entropy tokens, documented
// credential prefixes and email addresses.
module TokenDetectors {
  import opened Ascii
  import opened FileNames
  import opened Spans
  import Utf8

  const SECRET_LABEL := "[REDACTED-SECRET]"
  const EMAIL_LABEL := "[REDACTED-EMAIL]"

  /** `start..end` is a run of characters of one class that cannot be extended. */
  predicate TokenRun(t: string, p: char -> bool, start: nat, end: nat) {
    && start < end <= |t|
    && (forall i :: start <= i < end ==> p(t[i]))
    && (start > 0 ==> !p(t[start - 1]))
    && (end < |t| ==> !p(t[end]))
  }

  predicate Has(token: string, p: char -> bool) {
    exists i :: 0 <= i < |token| && p(token[i])
  }

  function Count(a: bool, b: bool, c: bool, d: bool): nat {
    (if a then 1 else 0) + (if b then 1 else 0) + (if c then 1 else 0) + (if d then 1 else 0)
  }

  lemma RunOnBoundaries(t: string, p: char -> bool, start: nat, end: nat)
    requires Utf8.Valid(t) && TokenRun(t, p, start, end)
    requires forall c :: p(c) ==> IsAscii(c)
    ensures Utf8.Boundary(t, start) && Utf8.Boundary(t, end)
  {
    Utf8.AsciiEnds(t, start);
    Utf8.AsciiEnds(t, end - 1);
  }

  // ---- Credential-shaped values ----

  predicate IsCredentialChar(c: char) {
    IsAlnum(c) || c in "_-@#!$%^&*+"
  }

  predicate IsSpecial(c: char) { c in "@#!$%^&*()-_+=" }

  /** Length at least 6 and three of the four character classes. */
  predicate LooksLikeCredential(token: string) {
    && |token| >= 6
    && Count(Has(token, IsLower), Has(token, IsUpper), Has(token, IsDigit), Has(token, IsSpecial)) >= 3
  }

  method CheckCredential(token: string) returns (b: bool)
    ensures b == LooksLikeCredential(token)
  {
    if |token| < 6 {
      return false;
    }
    var lower, upper, digit, special := false, false, false, false;
    for i := 0 to |token|
      invariant lower == Has(token[..i], IsLower) && upper == Has(token[..i], IsUpper)
      invariant digit == Has(token[..i], IsDigit) && special == Has(token[..i], IsSpecial)
    {
      var c := token[i];
      HasStep(token, i, IsLower);
      HasStep(token, i, IsUpper);
      HasStep(token, i, IsDigit);
      HasStep(token, i, IsSpecial);
      if IsLower(c) {
        lower := true;
      } else if IsUpper(c) {
        upper := true;
      } else if IsDigit(c) {
        digit := true;
      } else if IsSpecial(c) {
        special := true;
      }
    }
    assert token[..|token|] == token;
    return Count(lower, upper, digit, special) >= 3;
  }

  lemma HasStep(token: string, i: nat, p: char -> bool)
    requires i < |token|
    ensures Has(token[..i + 1], p) == (Has(token[..i], p) || p(token[i]))
  {
    var longer, shorter := token[..i + 1], token[..i];
    if Has(shorter, p) {
      var k :| 0 <= k < |shorter| && p(shorter[k]);
      assert p(longer[k]);
    }
    if p(token[i]) { assert p(longer[i]); }
    if Has(longer, p) && !p(token[i]) {
      var k :| 0 <= k < |longer| && p(longer[k]);
      assert p(shorter[k]);
    }
  }

  const ROOTS: seq<string> := ["pass", "pwd", "pw", "key", "secret", "token", "cred", "pin", "login", "auth"]

  predicate IsWordChar(c: char) { IsAlpha(c) || c == '_' }

  /** A letter with nothing but underscores of its word before it. */
  predicate WordStart(w: string, i: nat) {
    && i < |w| && IsAlpha(w[i])
    && forall j :: 0 <= j < i && IsAlpha(w[j]) ==> exists k :: j < k < i && !IsWordChar(w[k])
  }

  predicate StartsWithRoot(word: string) {
    exists r :: r in ROOTS && r <= word
  }

  /** A word of the window starts with a credential root. */
  predicate RootWord(w: string) {
    exists i :: 0 <= i < |w| && WordStart(w, i) && StartsWithRoot(w[i..RunEnd(w, i, IsWordChar)])
  }

  /** `has_credential_context`. */
  predicate HasContext(t: string, from: nat, to: nat) {
    var start, end := if from < |t| then from else |t|, if to < |t| then to else |t|;
    start < end && Utf8.Boundary(t, start) && Utf8.Boundary(t, end) && RootWord(Lower(t[start..end]))
  }

  method CheckContext(t: string, from: nat, to: nat) returns (b: bool)
    ensures b == HasContext(t, from, to)
  {
    var start, end := if from < |t| then from else |t|, if to < |t| then to else |t|;
    if start >= end || !Utf8.Boundary(t, start) || !Utf8.Boundary(t, end) {
      return false;
    }
    b := FindRoot(Lower(t[start..end]));
  }

  method FindRoot(w: string) returns (b: bool)
    ensures b == RootWord(w)
  {
    hide WordStart, StartsWithRoot;
    var i: nat := 0;
    while i < |w|
      invariant i <= |w| && (0 < i < |w| ==> !IsWordChar(w[i]))
      invariant forall s :: 0 <= s < i && WordStart(w, s) ==> !StartsWithRoot(w[s..RunEnd(w, s, IsWordChar)])
      decreases |w| - i
    {
      ghost var before := i;
      i := SkipWhile(w, i, c => !IsAlpha(c));
      var wordStart := i;
      i := SkipWhile(w, i, IsWordChar);
      if wordStart == i {
        NoWords(w, before);
        continue;
      }
      FirstWord(w, before, wordStart);
      if StartsWithRoot(w[wordStart..i]) {
        return true;
      }
    }
    return false;
  }

  lemma NoWords(w: string, from: nat)
    requires from <= |w| && forall s :: from <= s < |w| ==> !IsAlpha(w[s])
    ensures forall s :: from <= s < |w| ==> !WordStart(w, s)
  {}

  /** The first letter from a word's end on starts the next word, which has no other start. */
  lemma FirstWord(w: string, from: nat, start: nat)
    requires from <= start < |w| && IsAlpha(w[start])
    requires from > 0 && from < |w| ==> !IsWordChar(w[from])
    requires forall s :: from <= s < start ==> !IsAlpha(w[s])
    ensures WordStart(w, start)
    ensures forall s :: from <= s < RunEnd(w, start, IsWordChar) && WordStart(w, s) ==> s == start
  {
    forall j | 0 <= j < start && IsAlpha(w[j])
      ensures exists k :: j < k < start && !IsWordChar(w[k])
    {
      assert j < from && !IsWordChar(w[from]);
    }
  }

  /** A credential-shaped token near a credential word, not a filename or path segment. */
  predicate CredentialAt(t: string, start: nat, end: nat) {
    && TokenRun(t, IsCredentialChar, start, end)
    && LooksLikeCredential(t[start..end])
    && HasContext(t, if start < 40 then 0 else start - 40, if end + 40 < |t| then end + 40 else |t|)
    && !(end < |t| && HasExtension(t[end..])) && !AfterSeparator(t, start)
  }

  /** `detect_credential_shaped_values`. */
  method DetectCredentialShaped(t: string, out0: seq<Span>) returns (out: seq<Span>)
    requires Utf8.Valid(t)
    ensures out0 <= out
    ensures forall s :: s in out[|out0|..] <==> s.mark == SECRET_LABEL && CredentialAt(t, s.start, s.end)
  {
    hide LooksLikeCredential, HasContext, HasExtension, TokenRun, Utf8.Valid, CredentialAt;
    out := out0;
    var i: nat := 0;
    while i < |t|
      invariant i <= |t| && (0 < i < |t| && IsCredentialChar(t[i]) ==> !IsCredentialChar(t[i - 1]))
      invariant out0 <= out
      invariant forall s :: s in out[|out0|..] <==> s.start < i && s.mark == SECRET_LABEL && CredentialAt(t, s.start, s.end)
      decreases |t| - i
    {
      NoRunAt(t, IsCredentialChar, i);
      if !IsCredentialChar(t[i]) {
        NoCredential(t, i);
        i := i + 1;
        continue;
      }
      var start := i;
      i := SkipWhile(t, i, IsCredentialChar);
      var end := i;
      OneRun(t, IsCredentialChar, start);
      RunOnBoundaries(t, IsCredentialChar, start, end);
      var looks := CheckCredential(Utf8.Slice(t, start, end));
      var context := CheckContext(t, if start < 40 then 0 else start - 40, if end + 40 < |t| then end + 40 else |t|);
      var named := IsFollowedByExtension(t, end);
      ghost var before := out[|out0|..];
      OnlyCredential(t, start, end);
      if looks && context && !named && !AfterSeparator(t, start) {
        out := out + [Span(start, end, SECRET_LABEL)];
        assert out[|out0|..] == before + [Span(start, end, SECRET_LABEL)];
      }
    }
    CredentialsInside(t);
  }

  lemma CredentialsInside(t: string)
    ensures forall s: nat, e: nat :: CredentialAt(t, s, e) ==> s < |t|
  {}

  lemma OnlyCredential(t: string, start: nat, end: nat)
    requires TokenRun(t, IsCredentialChar, start, end)
    requires forall s: nat, e: nat :: start <= s < end && TokenRun(t, IsCredentialChar, s, e) ==> s == start && e == end
    ensures forall s: nat, e: nat :: start <= s < end && CredentialAt(t, s, e) ==> s == start && e == end
    ensures CredentialAt(t, start, end) <==>
      && LooksLikeCredential(t[start..end])
      && HasContext(t, if start < 40 then 0 else start - 40, if end + 40 < |t| then end + 40 else |t|)
      && !(end < |t| && HasExtension(t[end..])) && !AfterSeparator(t, start)
  {
    hide LooksLikeCredential, HasContext, HasExtension;
  }

  lemma NoCredential(t: string, i: nat)
    requires forall e: nat :: !TokenRun(t, IsCredentialChar, i, e)
    ensures forall e: nat :: !CredentialAt(t, i, e)
  {}

  lemma NoRunAt(t: string, p: char -> bool, i: nat)
    requires i < |t|
    ensures !p(t[i]) ==> forall e: nat :: !TokenRun(t, p, i, e)
  {}

  /** The run that begins at `start` is the only one that begins before its end. */
  lemma OneRun(t: string, p: char -> bool, start: nat)
    requires start < |t| && p(t[start]) && (start > 0 ==> !p(t[start - 1]))
    ensures TokenRun(t, p, start, RunEnd(t, start, p))
    ensures forall s: nat, e: nat :: start <= s < RunEnd(t, start, p) && TokenRun(t, p, s, e) ==> s == start && e == RunEnd(t, start, p)
  {
    forall s, e | start <= s < RunEnd(t, start, p) && TokenRun(t, p, s, e)
      ensures s == start && e == RunEnd(t, start, p)
    {
      RunEndUnique(t, start, p, e);
    }
  }

  lemma CredentialOnBoundaries(t: string, start: nat, end: nat)
    requires Utf8.Valid(t) && CredentialAt(t, start, end)
    ensures start < end <= |t| && Utf8.Boundary(t, start) && Utf8.Boundary(t, end)
  {
    hide LooksLikeCredential, HasContext, HasExtension, IsCredentialChar, AfterSeparator;
    CredentialCharsAreAscii();
    RunOnBoundaries(t, IsCredentialChar, start, end);
  }

  lemma CredentialCharsAreAscii()
    ensures forall c :: IsCredentialChar(c) ==> IsAscii(c)
  {}

  // ---- High-entropy tokens ----

  predicate IsEntropyChar(c: char) {
    IsAlnum(c) || c in "_-+/="
  }

  /** `entropic` is the Shannon-entropy threshold. */
  predicate EntropyAt(t: string, minLen: nat, entropic: string -> bool, start: nat, end: nat) {
    && TokenRun(t, IsEntropyChar, start, end) && end - start >= minLen
    && !(end < |t| && HasExtension(t[end..])) && !AfterSeparator(t, start)
    && Count(Has(t[start..end], IsLower), Has(t[start..end], IsUpper), Has(t[start..end], IsDigit), false) >= 2
    && entropic(t[start..end])
  }

  /** `detect_high_entropy`. */
  method DetectHighEntropy(t: string, minLen: nat, entropic: string -> bool, out0: seq<Span>) returns (out: seq<Span>)
    requires Utf8.Valid(t)
    ensures out0 <= out
    ensures forall s :: s in out[|out0|..] <==> s.mark == SECRET_LABEL && EntropyAt(t, minLen, entropic, s.start, s.end)
  {
    hide HasExtension, Has, EntropyAt, TokenRun, Utf8.Valid;
    out := out0;
    var i: nat := 0;
    while i < |t|
      invariant i <= |t| && (0 < i < |t| && IsEntropyChar(t[i]) ==> !IsEntropyChar(t[i - 1]))
      invariant out0 <= out
      invariant forall s :: s in out[|out0|..] <==> s.start < i && s.mark == SECRET_LABEL && EntropyAt(t, minLen, entropic, s.start, s.end)
      decreases |t| - i
    {
      NoEntropy(t, minLen, entropic, i);
      if !IsEntropyChar(t[i]) {
        i := i + 1;
        continue;
      }
      var start := i;
      i := SkipWhile(t, i, IsEntropyChar);
      var end := i;
      OneRun(t, IsEntropyChar, start);
      RunOnBoundaries(t, IsEntropyChar, start, end);
      OnlyEntropy(t, minLen, entropic, start, end);
      var token := Utf8.Slice(t, start, end);
      if |token| < minLen {
        continue;
      }
      var named := IsFollowedByExtension(t, end);
      if named || AfterSeparator(t, start) || Count(Has(token, IsLower), Has(token, IsUpper), Has(token, IsDigit), false) < 2 {
        continue;
      }
      ghost var before := out[|out0|..];
      if entropic(token) {
        out := out + [Span(start, end, SECRET_LABEL)];
        assert out[|out0|..] == before + [Span(start, end, SECRET_LABEL)];
      }
    }
    EntropyInside(t, minLen, entropic);
  }

  lemma EntropyInside(t: string, minLen: nat, entropic: string -> bool)
    ensures forall s: nat, e: nat :: EntropyAt(t, minLen, entropic, s, e) ==> s < |t|
  {}

  lemma NoEntropy(t: string, minLen: nat, entropic: string -> bool, i: nat)
    requires i < |t|
    ensures !IsEntropyChar(t[i]) ==> forall e: nat :: !EntropyAt(t, minLen, entropic, i, e)
  {}

  lemma OnlyEntropy(t: string, minLen: nat, entropic: string -> bool, start: nat, end: nat)
    requires TokenRun(t, IsEntropyChar, start, end)
    requires forall s: nat, e: nat :: start <= s < end && TokenRun(t, IsEntropyChar, s, e) ==> s == start && e == end
    ensures forall s: nat, e: nat :: start <= s < end && EntropyAt(t, minLen, entropic, s, e) ==> s == start && e == end
    ensures EntropyAt(t, minLen, entropic, start, end) <==>
      && end - start >= minLen
      && !(end < |t| && HasExtension(t[end..])) && !AfterSeparator(t, start)
      && Count(Has(t[start..end], IsLower), Has(t[start..end], IsUpper), Has(t[start..end], IsDigit), false) >= 2
      && entropic(t[start..end])
  {
    hide HasExtension, Has;
  }

  lemma EntropyOnBoundaries(t: string, minLen: nat, entropic: string -> bool, start: nat, end: nat)
    requires Utf8.Valid(t) && EntropyAt(t, minLen, entropic, start, end)
    ensures start < end <= |t| && Utf8.Boundary(t, start) && Utf8.Boundary(t, end)
  {
    hide HasExtension, Has, IsEntropyChar, AfterSeparator;
    EntropyCharsAreAscii();
    RunOnBoundaries(t, IsEntropyChar, start, end);
  }

  lemma EntropyCharsAreAscii()
    ensures forall c :: IsEntropyChar(c) ==> IsAscii(c)
  {}

  // ---- Documented credential prefixes ----

  predicate IsKeyChar(c: char) {
    IsAlnum(c) || c == '_' || c == '-'
  }

  const PREFIXES: seq<(string, nat)> := [
    ("AKIA", 16), ("ASIA", 16), ("ghp_", 36), ("gho_", 36), ("ghs_", 36),
    ("github_pat_", 40), ("sk-", 20), ("xoxb-", 10), ("xoxp-", 10), ("AIza", 20)
  ]

  /** A key with this prefix stands at `start..end`. */
  predicate KeyAt(t: string, prefix: string, min: nat, start: nat, end: nat) {
    && Occurs(t, prefix, start) && (start > 0 ==> !IsKeyChar(t[start - 1]))
    && end == RunEnd(t, start + |prefix|, IsKeyChar) && end - (start + |prefix|) >= min
  }

  predicate PrefixedAt(t: string, start: nat, end: nat) {
    exists i :: 0 <= i < |PREFIXES| && KeyAt(t, PREFIXES[i].0, PREFIXES[i].1, start, end)
  }

  predicate AllKeyChars(s: string) {
    s != "" && forall i :: 0 <= i < |s| ==> IsKeyChar(s[i])
  }

  lemma PrefixesAreKeyChars(i: nat)
    requires i < |PREFIXES|
    ensures AllKeyChars(PREFIXES[i].0)
  {}

  /** `detect_prefixed_tokens`. */
  method DetectPrefixed(t: string, out0: seq<Span>) returns (out: seq<Span>)
    requires Utf8.Valid(t)
    ensures out0 <= out
    ensures forall s :: s in out[|out0|..] <==> s.mark == SECRET_LABEL && PrefixedAt(t, s.start, s.end)
  {
    hide KeyAt, PREFIXES;
    out := out0;
    for i := 0 to |PREFIXES|
      invariant out0 <= out
      invariant forall s :: s in out[|out0|..] <==>
        s.mark == SECRET_LABEL && exists j :: 0 <= j < i && KeyAt(t, PREFIXES[j].0, PREFIXES[j].1, s.start, s.end)
    {
      PrefixesAreKeyChars(i);
      ghost var before := out;
      out := ScanPrefix(t, PREFIXES[i].0, PREFIXES[i].1, out);
      assert out[|out0|..] == before[|out0|..] + out[|before|..];
    }
  }

  /** The occurrences of one prefix; one inside another has a key character before it. */
  method ScanPrefix(t: string, prefix: string, min: nat, out0: seq<Span>) returns (out: seq<Span>)
    requires Utf8.Valid(t) && AllKeyChars(prefix)
    ensures out0 <= out
    ensures forall s :: s in out[|out0|..] <==> s.mark == SECRET_LABEL && KeyAt(t, prefix, min, s.start, s.end)
  {
    hide KeyAt, Utf8.Valid, Utf8.Boundary;
    out := out0;
    var from: nat := 0;
    EndsAreBoundaries(t);
    while true
      invariant from <= |t| && Utf8.Boundary(t, from) && out0 <= out
      invariant forall s :: s in out[|out0|..] <==> s.start < from && s.mark == SECRET_LABEL && KeyAt(t, prefix, min, s.start, s.end)
      decreases |t| - from
    {
      var start := FindFrom(t, prefix, from);
      NoKeyUntil(t, prefix, min, from, start);
      if start == -1 {
        return;
      }
      var afterPrefix := start + |prefix|;
      OneKey(t, prefix, min, start);
      var k := SkipWhile(t, afterPrefix, IsKeyChar);
      ghost var before := out[|out0|..];
      if (start == 0 || !IsKeyChar(t[start - 1])) && k - afterPrefix >= min {
        out := out + [Span(start, k, SECRET_LABEL)];
        assert out[|out0|..] == before + [Span(start, k, SECRET_LABEL)];
      }
      from := afterPrefix;
    }
  }

  lemma EndsAreBoundaries(t: string)
    ensures Utf8.Boundary(t, 0) && Utf8.Boundary(t, |t|)
  {}

  /** `text[from..].find(needle)`, whose slice must start at a boundary, as a position in `text`. */
  function FindFrom(t: string, needle: string, from: nat): (r: int)
    requires from <= |t| && Utf8.Boundary(t, from)
    ensures r == Find(t, needle, from)
  {
    Find(t, needle, from)
  }

  lemma NoKeyUntil(t: string, prefix: string, min: nat, from: nat, start: int)
    requires from <= |t| && start == Find(t, prefix, from)
    ensures forall s: nat, e: nat :: from <= s && (start == -1 || s < start) ==> !KeyAt(t, prefix, min, s, e)
  {}

  lemma OneKey(t: string, prefix: string, min: nat, start: nat)
    requires Utf8.Valid(t) && AllKeyChars(prefix) && Occurs(t, prefix, start)
    ensures Utf8.Boundary(t, start + |prefix|)
    ensures forall s: nat, e: nat :: start <= s < start + |prefix| ==>
      (KeyAt(t, prefix, min, s, e) <==>
        s == start && (start > 0 ==> !IsKeyChar(t[start - 1]))
        && e == RunEnd(t, start + |prefix|, IsKeyChar) && e - (start + |prefix|) >= min)
  {
    assert forall j :: start <= j < start + |prefix| ==> t[j] == prefix[j - start];
    Utf8.AsciiEnds(t, start + |prefix| - 1);
  }

  lemma PrefixedOnBoundaries(t: string, start: nat, end: nat)
    requires Utf8.Valid(t) && PrefixedAt(t, start, end)
    ensures start < end <= |t| && Utf8.Boundary(t, start) && Utf8.Boundary(t, end)
  {
    hide PREFIXES, KeyAt, Utf8.Valid, Utf8.Boundary, AllKeyChars;
    var i :| 0 <= i < |PREFIXES| && KeyAt(t, PREFIXES[i].0, PREFIXES[i].1, start, end);
    PrefixesAreKeyChars(i);
    KeyOnBoundaries(t, PREFIXES[i].0, PREFIXES[i].1, start, end);
  }

  lemma KeyOnBoundaries(t: string, prefix: string, min: nat, start: nat, end: nat)
    requires Utf8.Valid(t) && AllKeyChars(prefix) && KeyAt(t, prefix, min, start, end)
    ensures start < end <= |t| && Utf8.Boundary(t, start) && Utf8.Boundary(t, end)
  {
    hide Utf8.Valid, Utf8.Boundary;
    assert t[start] == t[start..start + |prefix|][0];
    Utf8.AsciiEnds(t, start);
    if end == start + |prefix| { assert t[end - 1] == t[start..end][|prefix| - 1]; }
    Utf8.AsciiEnds(t, end - 1);
  }

  // ---- Email addresses ----

  predicate IsLocalChar(c: char) { IsAlnum(c) || c in "._%+-" }

  predicate IsDomainChar(c: char) { IsAlnum(c) || c == '-' }

  /** Start of the run of local-part characters that ends before `i`. */
  function LocalStart(t: string, i: nat): (ls: nat)
    requires i <= |t|
    ensures ls <= i && forall j :: ls <= j < i ==> IsLocalChar(t[j])
    ensures ls > 0 ==> !IsLocalChar(t[ls - 1])
  {
    if i > 0 && IsLocalChar(t[i - 1]) then LocalStart(t, i - 1) else i
  }

  /** End of the domain labels from `k` on: a dot counts when a domain character follows. */
  function DomainEnd(t: string, k: nat): (end: nat)
    requires k <= |t|
    ensures k <= end <= |t|
    ensures forall j :: k <= j < end ==> IsDomainChar(t[j]) || t[j] == '.'
    decreases |t| - k
  {
    if k < |t| && (IsDomainChar(t[k]) || (t[k] == '.' && k + 1 < |t| && IsDomainChar(t[k + 1]))) then DomainEnd(t, k + 1)
    else k
  }

  /** The last dot in `from..end`, or -1. */
  function LastDot(t: string, from: nat, end: nat): (d: int)
    requires from <= end <= |t|
    ensures d == -1 || from <= d < end
    decreases end
  {
    if end == from then -1 else if t[end - 1] == '.' then end - 1 else LastDot(t, from, end - 1)
  }

  /** An address around the `@` at `at` spans `start..end`. */
  predicate EmailAround(t: string, at: nat, start: nat, end: nat) {
    && at < |t| && t[at] == '@'
    && start == LocalStart(t, at) && end == DomainEnd(t, at + 1)
    && start < at && t[start] != '.' && t[at - 1] != '.'
    && var d := LastDot(t, at + 1, end);
      d >= 0 && end - (d + 1) >= 2 && forall j :: d + 1 <= j < end ==> IsAlpha(t[j])
  }

  predicate EmailAt(t: string, start: nat, end: nat) {
    exists at :: 0 <= at < |t| && EmailAround(t, at, start, end)
  }

  /** An address around an `@` before position `i`. */
  predicate EmailBefore(t: string, i: nat, start: nat, end: nat) {
    exists at :: 0 <= at < i && EmailAround(t, at, start, end)
  }

  lemma EmailEnds(t: string)
    ensures forall s: nat, e: nat :: !EmailBefore(t, 0, s, e)
    ensures forall s: nat, e: nat :: EmailBefore(t, |t|, s, e) <==> EmailAt(t, s, e)
  {}

  lemma EmailStep(t: string, i: nat, next: nat)
    requires i < next
    requires forall j: nat, s: nat, e: nat :: i < j < next ==> !EmailAround(t, j, s, e)
    ensures forall s: nat, e: nat :: EmailBefore(t, next, s, e) <==> EmailBefore(t, i, s, e) || EmailAround(t, i, s, e)
  {
    hide EmailAround;
    forall s: nat, e: nat
      ensures EmailBefore(t, next, s, e) <==> EmailBefore(t, i, s, e) || EmailAround(t, i, s, e)
    {
      if EmailBefore(t, next, s, e) {
        var at :| 0 <= at < next && EmailAround(t, at, s, e);
        assert at <= i;
      }
    }
  }

  /** `detect_emails`. */
  method DetectEmails(t: string, out0: seq<Span>) returns (out: seq<Span>)
    ensures out0 <= out
    ensures forall s :: s in out[|out0|..] <==> s.mark == EMAIL_LABEL && EmailAt(t, s.start, s.end)
  {
    hide EmailBefore, IsLocalChar, IsDomainChar;
    out := out0;
    EmailEnds(t);
    var i: nat := 0;
    while i < |t|
      invariant i <= |t| && out0 <= out
      invariant forall s :: s in out[|out0|..] <==> s.mark == EMAIL_LABEL && EmailBefore(t, i, s.start, s.end)
      decreases |t| - i
    {
      if t[i] != '@' {
        NoAddress(t, i);
        EmailStep(t, i, i + 1);
        i := i + 1;
        continue;
      }
      var ls := i;
      while ls > 0 && IsLocalChar(t[ls - 1])
        invariant ls <= i && LocalStart(t, ls) == LocalStart(t, i)
      {
        ls := ls - 1;
      }
      var k, dot := ScanDomain(t, i + 1);
      ghost var before := out[|out0|..];
      AddressDecided(t, i, ls, k, dot);
      if ls < i && t[ls] != '.' && t[i - 1] != '.' && dot >= 0 && k - (dot + 1) >= 2
        && forall j :: dot + 1 <= j < k ==> IsAlpha(t[j])
      {
        out := out + [Span(ls, k, EMAIL_LABEL)];
        assert out[|out0|..] == before + [Span(ls, k, EMAIL_LABEL)];
        EmailStep(t, i, k);
        i := k;
      } else {
        EmailStep(t, i, i + 1);
        i := i + 1;
      }
    }
  }

  lemma NoAddress(t: string, i: nat)
    requires i < |t| && t[i] != '@'
    ensures forall s: nat, e: nat :: !EmailAround(t, i, s, e)
  {}

  /** Which span the address around one `@` has, if any; the domain holds no further `@`. */
  lemma AddressDecided(t: string, i: nat, ls: nat, k: nat, dot: int)
    requires i < |t| && t[i] == '@' && ls == LocalStart(t, i) && k == DomainEnd(t, i + 1) && dot == LastDot(t, i + 1, k)
    ensures forall s: nat, e: nat :: EmailAround(t, i, s, e) <==>
      s == ls && e == k && ls < i && t[ls] != '.' && t[i - 1] != '.' && dot >= 0 && k - (dot + 1) >= 2
      && forall j :: dot + 1 <= j < k ==> IsAlpha(t[j])
    ensures forall j: nat, s: nat, e: nat :: i < j < k ==> !EmailAround(t, j, s, e)
  {
    assert forall j :: i < j < k ==> t[j] != '@';
  }

  method ScanDomain(t: string, from: nat) returns (k: nat, dot: int)
    requires from <= |t|
    ensures k == DomainEnd(t, from) && dot == LastDot(t, from, k)
  {
    k, dot := from, -1;
    while k < |t|
      invariant from <= k <= |t| && DomainEnd(t, k) == DomainEnd(t, from) && dot == LastDot(t, from, k)
      decreases |t| - k
    {
      if IsDomainChar(t[k]) {
        k := k + 1;
      } else if t[k] == '.' && k + 1 < |t| && IsDomainChar(t[k + 1]) {
        dot := k;
        k := k + 1;
      } else {
        break;
      }
    }
  }

  lemma EmailOnBoundaries(t: string, start: nat, end: nat)
    requires Utf8.Valid(t) && EmailAt(t, start, end)
    ensures start < end <= |t| && Utf8.Boundary(t, start) && Utf8.Boundary(t, end)
  {
    hide Utf8.Valid, Utf8.Boundary;
    var at :| 0 <= at < |t| && EmailAround(t, at, start, end);
    assert IsLocalChar(t[start]) && IsAlpha(t[end - 1]);
    Utf8.AsciiEnds(t, start);
    Utf8.AsciiEnds(t, end - 1);
  }
}
