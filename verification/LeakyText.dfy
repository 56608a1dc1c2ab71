// A text of which the redactor, with every detector on, leaves most of a reported secret in clear.
module LeakyText {
  import opened Ascii
  import opened FileNames
  import opened Spans
  import opened TokenDetectors
  import opened MarkerDetectors
  import opened Redactor
  import Cards
  import Choice
  import Coverage
  import DigitRuns
  import Utf8

  const TEXT := "pass aB3$xy/Kq9ZtR2mVb7LsW4nXc8QpD1fGh6JkE5u"

  /** The default configuration; `entropic` is the Shannon-entropy test. */
  function Default(entropic: string -> bool): Config {
    Config(true, true, 12, true, true, true, true, true, true, 32, entropic, true)
  }

  /** The credential-shaped token. */
  const FIRST := Span(5, 11, SECRET_LABEL)

  /** The high-entropy token that begins inside it. */
  const SECOND := Span(9, 44, SECRET_LABEL)

  // ---- Texts that only the two token-shape detectors can report anything of ----

  /** No digit beside another, nor one separator away from another. */
  predicate DigitsApart(t: string) {
    && (forall i :: 0 <= i && i + 1 < |t| ==> !(IsDigit(t[i]) && IsDigit(t[i + 1])))
    && (forall i :: 0 <= i && i + 2 < |t| ==> !(IsDigit(t[i]) && Cards.IsGap(t[i + 1]) && IsDigit(t[i + 2])))
  }

  /** Letters other than `A`, digits, dollar signs, slashes, and spaces that follow a doubled `s`. */
  predicate PlainAt(t: string, i: nat)
    requires i < |t|
  {
    if t[i] == ' ' then i >= 2 && t[i - 1] == 's' && t[i - 2] == 's'
    else t[i] == '$' || t[i] == '/' || (IsAlnum(t[i]) && t[i] != 'A')
  }

  ghost predicate Plain(t: string) {
    forall i: nat :: i < |t| ==> PlainAt(t, i)
  }

  lemma NoCard(t: string, start: nat, end: nat)
    requires DigitsApart(t)
    ensures !Cards.CardAt(t, start, end)
  {
    if Cards.GroupStart(t, start) {
      assert Cards.GroupEnd(t, start + 1) == start + 1;
      assert |Cards.GroupDigits(t, start, start + 1)| == 1;
    }
  }

  lemma ShortRun(t: string, start: nat, end: nat)
    requires DigitsApart(t) && DigitRuns.MaximalRun(t, start, end)
    ensures end == start + 1
  {
    assert start + 1 < |t| ==> !(IsDigit(t[start]) && IsDigit(t[start + 1]));
  }

  lemma NoLongRun(t: string, min: nat, s: Span)
    requires Utf8.Valid(t) && DigitsApart(t) && min >= 2
    ensures s !in DigitRuns.RunSpans(t, min, 0)
  {
    hide Utf8.Valid, DigitRuns.Exempt, DigitRuns.RunSpans;
    if s in DigitRuns.RunSpans(t, min, 0) {
      DigitRuns.RunSpansLegal(t, min, 0, s);
      DigitRuns.RunSpansIff(t, min, 0, s.start, s.end);
      ShortRun(t, s.start, s.end);
    }
  }

  lemma NoSeparator(t: string, k: nat)
    requires Plain(t) && k < |t|
    ensures SeparatorAt(t, k).None?
  {
    assert PlainAt(t, k);
    if k + 2 < |t| {
      assert PlainAt(t, k + 2);
      var low := Lower(t);
      assert low[k] == low[k..k + 3][0] && low[k + 2] == low[k..k + 3][2];
    }
  }

  lemma NoMarked(t: string, s: Span)
    requires Plain(t)
    ensures !MarkedAt(t, s)
  {
    hide Plain, SeparatorAt, MARKERS;
    forall k: nat | k < |t| ensures SeparatorAt(t, k).None? { NoSeparator(t, k); }
  }

  lemma NoBearer(t: string, s: Span)
    requires Plain(t)
    ensures !BearerAt(t, s)
  {
    var low := Lower(t);
    forall b: nat ensures !Occurs(low, BEARER, b) {
      if b + 6 < |t| {
        assert PlainAt(t, b + 6);
        assert low[b + 6] == low[b..b + 7][6] && low[b + 5] == low[b..b + 7][5];
      }
    }
  }

  /** Each documented prefix has a character that plain text lacks. */
  predicate HasForeign(prefix: string) {
    exists j :: 0 <= j < |prefix| && prefix[j] in "A_-"
  }

  lemma PrefixesAreForeign(i: nat)
    requires i < |PREFIXES|
    ensures HasForeign(PREFIXES[i].0)
  {
    var p := PREFIXES[i].0;
    if i < 2 || i == 9 { assert p[0] in "A_-"; }
    else if i < 5 { assert p[3] in "A_-"; }
    else if i == 5 { assert p[6] in "A_-"; }
    else if i == 6 { assert p[2] in "A_-"; }
    else { assert p[4] in "A_-"; }
  }

  lemma NoKey(t: string, prefix: string, min: nat, start: nat, end: nat)
    requires Plain(t) && HasForeign(prefix)
    ensures !KeyAt(t, prefix, min, start, end)
  {
    var j: nat :| j < |prefix| && prefix[j] in "A_-";
    if start + |prefix| <= |t| {
      assert t[start + j] == t[start..start + |prefix|][j];
      assert PlainAt(t, start + j);
    }
  }

  lemma NoPrefixed(t: string, start: nat, end: nat)
    requires Plain(t)
    ensures !PrefixedAt(t, start, end)
  {
    hide Plain, PREFIXES, HasForeign, KeyAt;
    forall i: nat | i < |PREFIXES| ensures !KeyAt(t, PREFIXES[i].0, PREFIXES[i].1, start, end) {
      PrefixesAreForeign(i);
      NoKey(t, PREFIXES[i].0, PREFIXES[i].1, start, end);
    }
  }

  lemma NoGroup(t: string, mend: nat)
    requires DigitsApart(t) && mend <= |t|
    ensures CvvAfter(t, mend).None?
  {
    var start := RunEnd(t, mend, IsCvvGap);
    assert RunEnd(t, start, IsDigit) <= start + 1;
  }

  lemma NoCvv(t: string, s: Span)
    requires DigitsApart(t)
    ensures !CvvAt(t, s)
  {
    hide CVV_MARKERS, MarkerAt, CvvAfter;
    forall mend: nat | mend <= |t| ensures CvvAfter(t, mend).None? { NoGroup(t, mend); }
  }

  lemma NoEmail(t: string, start: nat, end: nat)
    requires Plain(t)
    ensures !EmailAt(t, start, end)
  {
    forall at: nat | at < |t| ensures t[at] != '@' { assert PlainAt(t, at); }
  }

  lemma OnlyTokenShapes(cfg: Config, t: string, d: Detector, s: Span)
    requires Utf8.Valid(t) && Plain(t) && DigitsApart(t) && cfg.longDigitRunMin >= 2 && Reported(cfg, d, t, s)
    ensures d == CredentialShaped || d == HighEntropy
  {
    hide Utf8.Valid, Plain, DigitsApart, Cards.CardAt, MarkedAt, CredentialAt, BearerAt, PrefixedAt, CvvAt, EmailAt, EntropyAt,
      DigitRuns.RunSpans;
    NoCard(t, s.start, s.end);
    NoLongRun(t, cfg.longDigitRunMin, s);
    NoMarked(t, s);
    NoBearer(t, s);
    NoPrefixed(t, s.start, s.end);
    NoCvv(t, s);
    NoEmail(t, s.start, s.end);
  }

  // ---- The text ----

  /** Letters, digits, one space, one dollar sign and one slash, none of them an `A`. */
  predicate Expected(i: nat, c: char) {
    if i == 4 then c == ' ' else if i == 8 then c == '$' else if i == 11 then c == '/' else IsAlnum(c) && c != 'A'
  }

  lemma Characters()
    ensures |TEXT| == 44 && forall i: nat :: i < 44 ==> Expected(i, TEXT[i])
  {}

  lemma KeyCharacters()
    ensures TEXT[0] == 'p' && TEXT[1] == 'a' && TEXT[2] == 's' && TEXT[3] == 's'
  {}

  lemma MoreKeyCharacters()
    ensures TEXT[5] == 'a' && TEXT[6] == 'B' && TEXT[7] == '3' && TEXT[9] == 'x' && TEXT[12] == 'K'
  {}

  lemma TextIsPlain()
    ensures Plain(TEXT) && Utf8.Valid(TEXT)
  {
    hide TEXT, Utf8.Valid;
    Characters();
    KeyCharacters();
    forall i: nat | i < 44 ensures PlainAt(TEXT, i) && IsAscii(TEXT[i]) { assert Expected(i, TEXT[i]); }
    Utf8.AsciiValid(TEXT);
  }

  predicate Apart(c: char, d: char) { !(IsDigit(c) && IsDigit(d)) }

  lemma NoDigitPairs()
    ensures forall i :: 0 <= i < 22 ==> Apart(TEXT[i], TEXT[i + 1])
  {}

  lemma NoLaterDigitPairs()
    ensures forall i :: 22 <= i < 43 ==> Apart(TEXT[i], TEXT[i + 1])
  {}

  lemma TextDigitsApart()
    ensures DigitsApart(TEXT)
  {
    hide TEXT;
    Characters();
    KeyCharacters();
    NoDigitPairs();
    NoLaterDigitPairs();
    forall j: nat | j < 44 ensures Cards.IsGap(TEXT[j]) ==> j == 4 { assert Expected(j, TEXT[j]); }
  }

  /** Three runs of credential characters, of which the first is short and the last follows a slash. */
  lemma OnlyFirst(start: nat, end: nat)
    requires CredentialAt(TEXT, start, end)
    ensures start == 5 && end == 11
  {
    hide TEXT, HasContext, HasExtension, Has;
    Characters();
    RunEndUnique(TEXT, 0, IsCredentialChar, 4);
    OneRun(TEXT, IsCredentialChar, 0);
    RunEndUnique(TEXT, 5, IsCredentialChar, 11);
    OneRun(TEXT, IsCredentialChar, 5);
    RunEndUnique(TEXT, 12, IsCredentialChar, 44);
    OneRun(TEXT, IsCredentialChar, 12);
  }

  lemma OnlySecond(entropic: string -> bool, start: nat, end: nat)
    requires EntropyAt(TEXT, 32, entropic, start, end)
    ensures start == 9 && end == 44
  {
    hide TEXT, HasExtension, Has;
    Characters();
    RunEndUnique(TEXT, 0, IsEntropyChar, 4);
    OneRun(TEXT, IsEntropyChar, 0);
    RunEndUnique(TEXT, 5, IsEntropyChar, 8);
    OneRun(TEXT, IsEntropyChar, 5);
    RunEndUnique(TEXT, 9, IsEntropyChar, 44);
    OneRun(TEXT, IsEntropyChar, 9);
  }

  lemma PassIsFirst()
    ensures "pass" in ROOTS
  {
    assert ROOTS[0] == "pass";
  }

  lemma PassIsRoot()
    ensures HasContext(TEXT, 0, 44)
  {
    hide TEXT;
    Characters();
    KeyCharacters();
    var w := Lower(TEXT[0..44]);
    assert w[0] == 'p' && w[1] == 'a' && w[2] == 's' && w[3] == 's' && w[4] == ' ';
    RunEndUnique(w, 0, IsWordChar, 4);
    PassIsFirst();
    assert "pass" <= w[0..4];
    assert StartsWithRoot(w[0..4]);
    assert WordStart(w, 0);
  }

  lemma FirstIsReported()
    ensures CredentialAt(TEXT, 5, 11)
  {
    hide TEXT, HasContext, HasExtension;
    Characters();
    MoreKeyCharacters();
    var token := TEXT[5..11];
    assert token[0] == 'a' && token[1] == 'B' && token[2] == '3';
    assert Has(token, IsLower) && Has(token, IsUpper) && Has(token, IsDigit);
    PassIsRoot();
    NoExtension(TEXT, 11);
  }

  lemma NoExtension(t: string, i: nat)
    requires i < |t| && t[i] != '.'
    ensures !HasExtension(t[i..])
  {}

  lemma SecondIsReported(entropic: string -> bool)
    requires entropic(TEXT[9..44])
    ensures EntropyAt(TEXT, 32, entropic, 9, 44)
  {
    hide TEXT, HasExtension;
    Characters();
    MoreKeyCharacters();
    var token := TEXT[9..44];
    assert token[0] == 'x' && token[3] == 'K';
    assert Has(token, IsLower) && Has(token, IsUpper);
  }

  lemma ReportedIs(entropic: string -> bool, s: Span)
    requires entropic(TEXT[9..44])
    ensures ReportedBySome(Default(entropic), TEXT, s) <==> s == FIRST || s == SECOND
  {
    hide TEXT, Utf8.Valid, Plain, DigitsApart, CredentialAt, EntropyAt;
    var cfg := Default(entropic);
    TextIsPlain();
    TextDigitsApart();
    FirstIsReported();
    SecondIsReported(entropic);
    assert ORDER[3] == CredentialShaped && ORDER[8] == HighEntropy;
    assert Reported(cfg, ORDER[3], TEXT, FIRST) && Reported(cfg, ORDER[8], TEXT, SECOND);
    if ReportedBySome(cfg, TEXT, s) {
      var k :| 0 <= k < |ORDER| && Reported(cfg, ORDER[k], TEXT, s);
      OnlyTokenShapes(cfg, TEXT, ORDER[k], s);
      if ORDER[k] == CredentialShaped { OnlyFirst(s.start, s.end); } else { OnlySecond(entropic, s.start, s.end); }
    }
  }

  lemma OnlyFirstApplied(t: string, spans: seq<Span>)
    requires |t| == 44 && forall s :: s in spans <==> s == FIRST || s == SECOND
    ensures Chosen(t, spans) == [FIRST]
  {
    hide Chosen;
    Choice.ChosenIsGreedy(t, spans);
    var chosen := Chosen(t, spans);
    assert FIRST in Choice.SetOf(spans) && InRange(FIRST, 44);
    assert chosen[0] == FIRST;
    assert Choice.Greedy(chosen[1..], 11, 44, Choice.SetOf(spans));
    assert chosen == [FIRST] + chosen[1..];
  }

  lemma RebuildOne(t: string, s: Span)
    requires InRange(s, |t|)
    ensures Chain([s], 0, |t|) && Rebuild(t, [s], 0) == t[..s.start] + s.mark + t[s.end..]
  {
    assert [s][1..] == [];
    assert Rebuild(t, [s][1..], s.end) == t[s.end..];
  }

  /** With the default configuration one label replaces the credential-shaped token, and 33 of the 35 characters of the
      high-entropy token, which is reported too, stay in clear. */
  lemma LeavesSecretInClear(entropic: string -> bool, parts: seq<seq<Span>>, out: string, count: nat)
    requires entropic(TEXT[9..44]) && IsRedaction(Default(entropic), TEXT, parts, out, count)
    ensures ReportedBySome(Default(entropic), TEXT, SECOND) && Coverage.Crosses(FIRST, SECOND, |TEXT|)
    ensures count == 1 && out == TEXT[..5] + SECRET_LABEL + TEXT[11..]
    ensures forall i :: 11 <= i < 44 ==> !Covers(Chosen(TEXT, Choice.Flat(parts)), i)
  {
    hide TEXT, ORDER, Recorded, ReportedBySome, Choice.Flat, Chosen;
    Characters();
    var cfg, spans := Default(entropic), Choice.Flat(parts);
    forall s ensures s in spans <==> s == FIRST || s == SECOND {
      FlatIsReported(cfg, TEXT, parts, s);
      ReportedIs(entropic, s);
    }
    FlatIsReported(cfg, TEXT, parts, SECOND);
    OnlyFirstApplied(TEXT, spans);
    RebuildOne(TEXT, FIRST);
  }
}
