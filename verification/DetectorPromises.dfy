// What the detectors promise to report: each documented form, wherever in a text it stands.
module DetectorPromises {
  import opened Ascii
  import opened FileNames
  import opened Spans
  import opened TokenDetectors
  import opened MarkerDetectors
  import opened Options
  import Cards
  import Luhn

  /** Where the parts of a text stand. */
  lemma Parts(before: string, part: string, after: string)
    ensures var t := before + part + after;
      && |t| == |before| + |part| + |after|
      && (forall i :: 0 <= i < |before| ==> t[i] == before[i])
      && (forall i :: |before| <= i < |before| + |part| ==> t[i] == part[i - |before|])
      && t[|before|..|before| + |part|] == part && t[|before| + |part|..] == after
  {}

  ghost predicate All(s: string, p: char -> bool) { forall i :: 0 <= i < |s| ==> p(s[i]) }

  /** The text does not begin with a character of the class. */
  predicate Stops(s: string, p: char -> bool) { s == "" || !p(s[0]) }

  /** The text does not end with a character of the class. */
  predicate Ends(s: string, p: char -> bool) { s == "" || !p(s[|s| - 1]) }

  lemma RunOf(before: string, run: string, after: string, p: char -> bool)
    requires All(run, p) && Stops(after, p)
    ensures RunEnd(before + run + after, |before|, p) == |before| + |run|
  {
    Parts(before, run, after);
    RunEndUnique(before + run + after, |before|, p, |before| + |run|);
  }

  // ---- Cards ----

  /** The digit values of a text, in order. */
  function DigitsOf(s: string): seq<Luhn.digit> {
    if s == "" then [] else (if IsDigit(s[0]) then [s[0] as int - '0' as int] else []) + DigitsOf(s[1..])
  }

  lemma {:induction false} DigitsOfPlus(a: string, b: string)
    ensures DigitsOf(a + b) == DigitsOf(a) + DigitsOf(b)
    decreases |a|
  {
    hide DigitsOf;
    if a == "" {
      assert a + b == b;
      DigitsOfFirst(b);
    } else {
      assert (a + b)[1..] == a[1..] + b && (a + b)[0] == a[0];
      DigitsOfPlus(a[1..], b);
      DigitsOfFirst(a);
      DigitsOfFirst(a + b);
    }
  }

  lemma DigitsOfFirst(s: string)
    ensures DigitsOf("") == []
    ensures s != "" ==> DigitsOf(s) == (if IsDigit(s[0]) then [s[0] as int - '0' as int] else []) + DigitsOf(s[1..])
  {}

  lemma {:induction false} GroupHolds(t: string, start: nat, j: nat)
    requires start <= j <= |t|
    ensures Cards.GroupDigits(t, start, j) == DigitsOf(t[start..j])
    decreases j
  {
    if j > start {
      GroupHolds(t, start, j - 1);
      assert t[start..j] == t[start..j - 1] + [t[j - 1]];
      DigitsOfPlus(t[start..j - 1], [t[j - 1]]);
      assert [t[j - 1]][1..] == "";
    }
  }

  lemma {:induction false} GroupEndIs(t: string, j: nat, end: nat)
    requires j <= end <= |t|
    requires forall p: nat :: j <= p < end ==> IsDigit(t[p]) || Cards.GapBeforeDigit(t, p)
    requires end < |t| ==> !IsDigit(t[end]) && !Cards.GapBeforeDigit(t, end)
    ensures Cards.GroupEnd(t, j) == end
    decreases end - j
  {
    if j < end { GroupEndIs(t, j + 1, end); }
  }

  /** Digits with single spaces or hyphens between them. */
  ghost predicate CardText(card: string) {
    && card != "" && IsDigit(card[0]) && IsDigit(card[|card| - 1])
    && forall i :: 0 <= i < |card| && !IsDigit(card[i]) ==> Cards.IsGap(card[i]) && i + 1 < |card| && IsDigit(card[i + 1])
  }

  /** No digit group reaches over the end of the text. */
  predicate NoDigitBefore(s: string) {
    && Ends(s, IsDigit) && Ends(s, IsSeparator)
    && (|s| > 1 && Cards.IsGap(s[|s| - 1]) ==> !IsDigit(s[|s| - 2]))
  }

  predicate NoDigitAfter(s: string) {
    && Stops(s, IsDigit) && (|s| > 1 && Cards.IsGap(s[0]) ==> !IsDigit(s[1]))
  }

  /** A number that passes the Luhn check is found with all its digits, unless it is part of a longer one, a path or a filename. */
  lemma CardIsFound(before: string, card: string, after: string)
    requires CardText(card) && Luhn.Valid(DigitsOf(card))
    requires NoDigitBefore(before) && NoDigitAfter(after) && !HasExtension(after)
    ensures Cards.CardAt(before + card + after, |before|, |before| + |card|)
  {
    hide Luhn.Valid, HasExtension, DigitsOf, Cards.GroupEnd, Cards.GroupDigits;
    var t, end := before + card + after, |before| + |card|;
    Parts(before, card, after);
    forall p: nat | |before| <= p < end
      ensures IsDigit(t[p]) || Cards.GapBeforeDigit(t, p)
    {
      if !IsDigit(t[p]) { assert IsDigit(card[p - |before| + 1]) && t[p + 1] == card[p + 1 - |before|]; }
    }
    if after != "" { assert t[end] == after[0]; }
    if |after| > 1 { assert t[end + 1] == t[end..][1]; }
    GroupEndIs(t, |before|, end);
    GroupHolds(t, |before|, end);
  }

  function Printed(): string { "4111" + " 1111" + " 1111" + " 1111" }

  lemma PrintedText()
    ensures Printed() == "4111 1111 1111 1111" && CardText(Printed())
  {}

  lemma PrintedDigits()
    ensures DigitsOf(Printed()) == [4, 1, 1, 1, 1, 1, 1, 1, 1, 1, 1, 1, 1, 1, 1, 1]
  {
    OnesAre();
    hide DigitsOf;
    DigitsOfPlus("4111" + " 1111" + " 1111", " 1111");
    DigitsOfPlus("4111" + " 1111", " 1111");
    DigitsOfPlus("4111", " 1111");
  }

  /** A test number in the way it is printed on a card. */
  lemma PrintedCardIsFound()
    ensures Cards.CardAt("4111 1111 1111 1111", 0, 19)
  {
    PrintedText();
    hide Printed, DigitsOf, Luhn.Valid, CardText, Cards.CardAt;
    PrintedDigits();
    SixteenAreValid();
    assert "" + Printed() + "" == Printed();
    NothingAfter();
    CardIsFound("", Printed(), "");
  }

  lemma NothingAfter()
    ensures !HasExtension("")
  {}

  lemma OnesAre()
    ensures DigitsOf("4111") == [4, 1, 1, 1] && DigitsOf(" 1111") == [1, 1, 1, 1]
  {}

  lemma SixteenAreValid()
    ensures Luhn.Valid([4, 1, 1, 1, 1, 1, 1, 1, 1, 1, 1, 1, 1, 1, 1, 1])
  {
    var d: seq<Luhn.digit> := [4, 1, 1, 1, 1, 1, 1, 1, 1, 1, 1, 1, 1, 1, 1, 1];
    assert Luhn.Sum(d, 4) == 6;
    assert Luhn.Sum(d, 8) == 12;
    assert Luhn.Sum(d, 12) == 18;
    assert Luhn.Sum(d, 15) == 22;
    assert Luhn.Sum(d, 16) == 30;
  }

  // ---- Documented prefixes ----

  /** A documented prefix with enough key characters after it is found, unless it continues a longer token. */
  lemma KeyIsFound(before: string, i: nat, key: string, after: string)
    requires i < |PREFIXES| && All(key, IsKeyChar) && |key| >= PREFIXES[i].1
    requires Ends(before, IsKeyChar) && Stops(after, IsKeyChar)
    ensures PrefixedAt(before + (PREFIXES[i].0 + key) + after, |before|, |before| + |PREFIXES[i].0| + |key|)
  {
    hide PREFIXES;
    KeyStands(before, PREFIXES[i].0, PREFIXES[i].1, key, after);
  }

  lemma KeyStands(before: string, prefix: string, min: nat, key: string, after: string)
    requires All(key, IsKeyChar) && |key| >= min && Ends(before, IsKeyChar) && Stops(after, IsKeyChar)
    ensures KeyAt(before + (prefix + key) + after, prefix, min, |before|, |before| + |prefix| + |key|)
  {
    hide RunEnd, IsKeyChar;
    var t := before + (prefix + key) + after;
    Parts(before, prefix + key, after);
    PartStands(before, prefix, key + after);
    assert t == before + prefix + (key + after) && t == (before + prefix) + key + after;
    RunOf(before + prefix, key, after, IsKeyChar);
  }

  lemma PartStands(before: string, part: string, rest: string)
    ensures Occurs(before + part + rest, part, |before|)
  {}

  // ---- Email addresses ----

  lemma {:induction false} LocalStartIs(t: string, i: nat, ls: nat)
    requires ls <= i <= |t| && (forall j :: ls <= j < i ==> IsLocalChar(t[j])) && (ls > 0 ==> !IsLocalChar(t[ls - 1]))
    ensures LocalStart(t, i) == ls
    decreases i
  {
    if ls < i { LocalStartIs(t, i - 1, ls); }
  }

  /** The character belongs to the domain: a domain character, or a dot before one. */
  predicate InDomain(t: string, k: nat)
    requires k < |t|
  {
    IsDomainChar(t[k]) || (t[k] == '.' && k + 1 < |t| && IsDomainChar(t[k + 1]))
  }

  lemma {:induction false} DomainEndIs(t: string, k: nat, end: nat)
    requires k <= end <= |t| && (forall j: nat :: k <= j < end ==> InDomain(t, j)) && (end < |t| ==> !InDomain(t, end))
    ensures DomainEnd(t, k) == end
    decreases end - k
  {
    hide IsDomainChar;
    if k < end {
      assert InDomain(t, k);
      DomainEndIs(t, k + 1, end);
    }
  }

  lemma {:induction false} LastDotIs(t: string, from: nat, end: nat, d: nat)
    requires from <= d < end <= |t| && t[d] == '.' && forall j :: d < j < end ==> t[j] != '.'
    ensures LastDot(t, from, end) == d
    decreases end
  {
    if d < end - 1 { LastDotIs(t, from, end - 1, d); }
  }

  /** Characters of a local part, with no dot at either end. */
  ghost predicate LocalPart(s: string) {
    s != "" && All(s, IsLocalChar) && s[0] != '.' && s[|s| - 1] != '.'
  }

  /** Domain labels with single dots between them. */
  ghost predicate Host(s: string) {
    s != "" && s[|s| - 1] != '.' && forall k: nat :: k < |s| ==> InDomain(s, k)
  }

  ghost predicate TopLevel(s: string) { |s| >= 2 && All(s, IsAlpha) }

  /** The address is not continued by what follows. */
  predicate NoDomainAfter(s: string) { s == "" || !InDomain(s, 0) }

  /** An address, with as many domain labels as there are, is found whole. */
  lemma EmailIsFound(before: string, local: string, host: string, top: string, after: string)
    requires LocalPart(local) && Host(host) && TopLevel(top)
    requires Ends(before, IsLocalChar) && NoDomainAfter(after)
    ensures EmailAt(before + local + "@" + host + "." + top + after, |before|,
                    |before| + |local| + 1 + |host| + 1 + |top|)
  {
    hide LocalStart, DomainEnd, LastDot, IsLocalChar, InDomain, Host, EmailAt;
    var t := before + local + "@" + host + "." + top + after;
    var at := |before| + |local|;
    var dot := at + 1 + |host|;
    var end := dot + 1 + |top|;
    Placed(before, local, host, top, after);
    LocalStartIs(t, at, |before|);
    forall j: nat | at + 1 <= j < end ensures InDomain(t, j) { DomainAt(t, host, top, at + 1, j); }
    AfterAddress(t, end, after);
    DomainEndIs(t, at + 1, end);
    NoDotIn(t, dot + 1, end);
    LastDotIs(t, at + 1, end, dot);
    AddressIs(t, |before|, at, dot, end);
  }

  lemma AddressIs(t: string, start: nat, at: nat, dot: nat, end: nat)
    requires start < at < dot && dot + 2 < end <= |t| && t[at] == '@' && t[start] != '.' && t[at - 1] != '.'
    requires LocalStart(t, at) == start && DomainEnd(t, at + 1) == end && LastDot(t, at + 1, end) == dot
    requires forall j :: dot + 1 <= j < end ==> IsAlpha(t[j])
    ensures EmailAt(t, start, end)
  {
    hide LocalStart, DomainEnd, LastDot;
    assert EmailAround(t, at, start, end);
  }

  lemma AfterAddress(t: string, end: nat, after: string)
    requires end <= |t| && t[end..] == after && NoDomainAfter(after)
    ensures end < |t| ==> !InDomain(t, end)
  {
    hide IsDomainChar;
    if end < |t| { assert after[0] == t[end]; }
    if end + 1 < |t| { assert after[1] == t[end + 1]; }
  }

  lemma NoDotIn(t: string, from: nat, end: nat)
    requires from <= end <= |t| && forall j :: from <= j < end ==> IsAlpha(t[j])
    ensures forall j :: from <= j < end ==> t[j] != '.'
  {}

  lemma AlphaInDomain()
    ensures forall c :: IsAlpha(c) ==> IsDomainChar(c)
  {}

  /** Where the characters of an address stand. */
  lemma Placed(before: string, local: string, host: string, top: string, after: string)
    ensures var t := before + local + "@" + host + "." + top + after;
      var (at, dot) := (|before| + |local|, |before| + |local| + 1 + |host|);
      && |t| == dot + 1 + |top| + |after| && t[at] == '@' && t[dot] == '.'
      && (forall j :: 0 <= j < |before| ==> t[j] == before[j])
      && (forall j :: |before| <= j < at ==> t[j] == local[j - |before|])
      && (forall j :: at + 1 <= j < dot ==> t[j] == host[j - (at + 1)])
      && (forall j :: dot + 1 <= j < dot + 1 + |top| ==> t[j] == top[j - (dot + 1)])
      && t[dot + 1 + |top|..] == after
  {}

  lemma DomainAt(t: string, host: string, top: string, from: nat, j: nat)
    requires Host(host) && TopLevel(top)
    requires var dot := from + |host|;
      && dot + 1 + |top| <= |t| && t[dot] == '.'
      && (forall j :: from <= j < dot ==> t[j] == host[j - from])
      && (forall j :: dot + 1 <= j < dot + 1 + |top| ==> t[j] == top[j - (dot + 1)])
      && from <= j < dot + 1 + |top|
    ensures InDomain(t, j)
  {
    hide IsDomainChar;
    AlphaInDomain();
    var dot := from + |host|;
    if j < dot {
      assert InDomain(host, j - from);
      if t[j] == '.' && !IsDomainChar(t[j]) { assert host[j - from + 1] == t[j + 1]; }
    } else if j == dot {
      assert t[dot + 1] == top[0] && IsAlpha(top[0]);
    } else {
      assert IsAlpha(top[j - (dot + 1)]);
    }
  }

  // ---- Values after a marker ----

  lemma MarkerStands(before: string, marker: string, rest: string, written: string)
    requires Lower(written) == marker && Ends(before, IsTokenChar)
    ensures MarkerAt(before + written + rest, marker, |before|)
  {
    var t := before + written + rest;
    Parts(before, written, rest);
    assert Lower(t)[|before|..|before| + |marker|] == marker;
  }

  /** Blanks, an equals sign or a colon, blanks. */
  ghost predicate Assign(s: string, blanks: string, sign: char, more: string) {
    s == blanks + [sign] + more && All(blanks, IsInlineBlank) && All(more, IsInlineBlank) && (sign == '=' || sign == ':')
  }

  predicate Unquoted(s: string) { s == "" || (s[0] != '"' && s[0] != '\'') }

  /** An assigned value that is not quoted is found up to its delimiter. */
  lemma ValueIsRead(front: string, sep: string, blanks: string, sign: char, more: string, value: string, after: string)
    requires Assign(sep, blanks, sign, more)
    requires value != "" && Unquoted(value) && All(value, c => IsValueChar(Assignment, None, c))
    requires Stops(after, c => IsValueChar(Assignment, None, c))
    ensures ValueAfter(front + sep + value + after, |front|) ==
      Some(Span(|front| + |sep|, |front| + |sep| + |value|, SECRET_LABEL))
  {
    hide IsValueChar, ValueFrom, ValueAfter, IsInlineBlank, RunEnd;
    var t := front + sep + value + after;
    BlankRuns(front, blanks, sign, more, value, after);
    Parts(front + sep, value, after);
    RunOf(front + sep, value, after, c => IsValueChar(Assignment, None, c));
    ValueFromIs(t, |front| + |sep|, |front| + |sep| + |value|);
    ValueAfterIs(t, |front|, |front| + |blanks|, |front| + |sep|);
  }

  lemma BlankRuns(front: string, blanks: string, sign: char, more: string, value: string, after: string)
    requires All(blanks, IsInlineBlank) && All(more, IsInlineBlank) && (sign == '=' || sign == ':')
    requires value != "" && All(value, c => IsValueChar(Assignment, None, c))
    ensures var t := front + (blanks + [sign] + more) + value + after;
      var k := |front| + |blanks|;
      && k < |t| && t[k] == sign && RunEnd(t, |front|, IsInlineBlank) == k
      && RunEnd(t, k + 1, IsInlineBlank) == k + 1 + |more|
  {
    hide IsValueChar, IsInlineBlank, RunEnd;
    BlankFacts(value);
    SignStands(front, blanks, sign, more, value, after);
    RunOf(front, blanks, [sign] + more + value + after, IsInlineBlank);
    RunOf(front + blanks + [sign], more, value + after, IsInlineBlank);
  }

  lemma SignStands(front: string, blanks: string, sign: char, more: string, value: string, after: string)
    ensures var t := front + (blanks + [sign] + more) + value + after;
      && t == front + blanks + ([sign] + more + value + after)
      && t == (front + blanks + [sign]) + more + (value + after)
      && |front| + |blanks| < |t| && t[|front| + |blanks|] == sign
  {}

  lemma ValueAfterIs(t: string, mend: nat, k: nat, from: nat)
    requires mend <= k < |t| && RunEnd(t, mend, IsInlineBlank) == k && (t[k] == '=' || t[k] == ':')
    requires RunEnd(t, k + 1, IsInlineBlank) == from
    ensures ValueAfter(t, mend) == ValueFrom(t, Assignment, from)
  {
    hide ValueFrom;
  }

  lemma BlankFacts(value: string)
    requires value != "" && All(value, c => IsValueChar(Assignment, None, c))
    ensures !IsInlineBlank(value[0]) && !IsInlineBlank('=') && !IsInlineBlank(':')
  {
    assert IsValueChar(Assignment, None, value[0]);
  }

  lemma ValueFromIs(t: string, k: nat, end: nat)
    requires k < end <= |t| && t[k] != '"' && t[k] != '\''
    requires RunEnd(t, k, c => IsValueChar(Assignment, None, c)) == end
    ensures ValueFrom(t, Assignment, k) == Some(Span(k, end, SECRET_LABEL))
  {
    hide IsValueChar;
    RunEndUnique(t, k, c => IsValueChar(Assignment, None, c), end);
  }

  /** The value of an assignment to any marker, in any letter case, is reported. */
  lemma AssignedSecretIsFound(before: string, i: nat, written: string, sep: string, blanks: string, sign: char, more: string,
                              value: string, after: string)
    requires i < |MARKERS| && Lower(written) == MARKERS[i] && Ends(before, IsTokenChar)
    requires Assign(sep, blanks, sign, more)
    requires value != "" && Unquoted(value) && All(value, c => IsValueChar(Assignment, None, c))
    requires Stops(after, c => IsValueChar(Assignment, None, c))
    ensures var at := |before| + |written| + |sep|;
      MarkedAt(before + written + sep + value + after, Span(at, at + |value|, SECRET_LABEL))
  {
    hide MARKERS, IsValueChar, ValueAfter, MarkerAt, Assign;
    var t := before + written + sep + value + after;
    var s := Span(|before| + |written| + |sep|, |before| + |written| + |sep| + |value|, SECRET_LABEL);
    assert t == before + written + (sep + value + after);
    MarkerStands(before, MARKERS[i], sep + value + after, written);
    ValueIsRead(before + written, sep, blanks, sign, more, value, after);
    assert MarkedHit(t, MARKERS[i])(|before|, s);
    assert Hit(MarkedHit(t, MARKERS[i]), s);
  }

  /** A quoted value runs up to its closing quote, whatever is in it. */
  lemma QuotedIsRead(t: string, from: nat, end: nat)
    requires from + 1 < end <= |t| && (t[from] == '"' || t[from] == '\'')
    requires forall j :: from + 1 <= j < end ==> IsAscii(t[j]) && t[j] != t[from]
    requires end < |t| ==> t[end] == t[from]
    ensures ValueFrom(t, Assignment, from) == Some(Span(from + 1, end, SECRET_LABEL))
  {
    RunEndUnique(t, from + 1, c => IsValueChar(Assignment, Some(t[from]), c), end);
  }

  /** The value in quotes after a marker and a sign is reported without its quotes. */
  lemma QuotedSecretIsFound(before: string, i: nat, written: string, sep: string, blanks: string, sign: char, more: string,
                            quote: char, value: string, after: string)
    requires i < |MARKERS| && Lower(written) == MARKERS[i] && Ends(before, IsTokenChar)
    requires Assign(sep, blanks, sign, more) && (quote == '"' || quote == '\'')
    requires value != "" && All(value, c => IsAscii(c) && c != quote)
    ensures var at := |before| + |written| + |sep| + 1;
      MarkedAt(before + written + sep + ([quote] + value + [quote] + after), Span(at, at + |value|, SECRET_LABEL))
  {
    hide MARKERS, MarkerAt, ValueAfter, ValueFrom, RunEnd, IsInlineBlank;
    var rest := [quote] + value + [quote] + after;
    var t := before + written + sep + rest;
    var at := |before| + |written| + |sep|;
    var s := Span(at + 1, at + 1 + |value|, SECRET_LABEL);
    assert t == before + written + (sep + rest);
    MarkerStands(before, MARKERS[i], sep + rest, written);
    SignThenRest(before + written, blanks, sign, more, rest);
    QuoteStands(before + written + sep, quote, value, after);
    QuotedIsRead(t, at, at + 1 + |value|);
    ValueAfterIs(t, |before| + |written|, |before| + |written| + |blanks|, at);
    assert MarkedHit(t, MARKERS[i])(|before|, s);
    assert Hit(MarkedHit(t, MARKERS[i]), s);
  }

  lemma QuoteStands(front: string, quote: char, value: string, after: string)
    ensures var t := front + ([quote] + value + [quote] + after);
      var end := |front| + 1 + |value|;
      && end < |t| && t[|front|] == quote && t[end] == quote
      && forall j :: |front| + 1 <= j < end ==> t[j] == value[j - (|front| + 1)]
  {}

  /** The blanks around the sign end where they do, when what follows is not blank. */
  lemma SignThenRest(front: string, blanks: string, sign: char, more: string, rest: string)
    requires All(blanks, IsInlineBlank) && All(more, IsInlineBlank) && (sign == '=' || sign == ':')
    requires rest != "" && (rest[0] == '"' || rest[0] == '\'')
    ensures var t := front + (blanks + [sign] + more) + rest;
      var k := |front| + |blanks|;
      && k < |t| && t[k] == sign && RunEnd(t, |front|, IsInlineBlank) == k
      && RunEnd(t, k + 1, IsInlineBlank) == k + 1 + |more|
  {
    hide IsInlineBlank, RunEnd;
    SignsAreNotBlank();
    var t := front + (blanks + [sign] + more) + rest;
    assert t == front + blanks + ([sign] + more + rest);
    assert t == (front + blanks + [sign]) + more + rest;
    RunOf(front, blanks, [sign] + more + rest, IsInlineBlank);
    RunOf(front + blanks + [sign], more, rest, IsInlineBlank);
  }

  lemma SignsAreNotBlank()
    ensures !IsInlineBlank('=') && !IsInlineBlank(':') && !IsInlineBlank('"') && !IsInlineBlank('\'')
  {}

  /** A word or an arrow that states a value. */
  predicate Link(link: string) {
    || Lower(link) == "is " || Lower(link) == "is\t" || link == "->"
    || link == [0xE2 as char, 0x86 as char, 0x92 as char]
  }

  lemma LinkIsRead(front: string, link: string, rest: string)
    requires Link(link)
    ensures var t := front + link + rest;
      |front| < |t| && link != "" && !IsInlineBlank(link[0]) && SeparatorAt(t, |front|) == Some((NaturalLanguage, |front| + |link|))
  {
    var t := front + link + rest;
    Parts(front, link, rest);
    assert Lower(t)[|front|..|front| + |link|] == Lower(link);
    assert Lower(link)[0] == LowerChar(link[0]);
    if link == "->" || link == [0xE2 as char, 0x86 as char, 0x92 as char] {
      OccursHead(Lower(t), "is ", |front|);
      OccursHead(Lower(t), "is\t", |front|);
    }
  }

  /** A value of six characters and some complexity that a sentence states after a marker is reported. */
  lemma StatedSecretIsFound(before: string, i: nat, written: string, blanks: string, link: string, more: string, value: string,
                            after: string)
    requires i < |MARKERS| && Lower(written) == MARKERS[i] && Ends(before, IsTokenChar)
    requires All(blanks, IsInlineBlank) && Link(link) && All(more, IsInlineBlank)
    requires |value| >= 6 && HasComplexity(value) && Unquoted(value) && !IsInlineBlank(value[0])
    requires All(value, c => IsValueChar(NaturalLanguage, None, c)) && Stops(after, c => IsValueChar(NaturalLanguage, None, c))
    ensures var at := |before| + |written| + |blanks| + |link| + |more|;
      MarkedAt(before + written + blanks + link + more + value + after, Span(at, at + |value|, SECRET_LABEL))
  {
    hide MARKERS, MarkerAt, ValueAfter, ValueFrom, SeparatorAt, RunEnd, IsInlineBlank, IsValueChar, HasComplexity, Link;
    var front := before + written;
    var t := front + blanks + link + more + value + after;
    var k := |front| + |blanks|;
    var at := k + |link| + |more|;
    var s := Span(at, at + |value|, SECRET_LABEL);
    assert t == before + written + (blanks + link + more + value + after);
    MarkerStands(before, MARKERS[i], blanks + link + more + value + after, written);
    LinkIsRead(front + blanks, link, more + value + after);
    assert t == (front + blanks) + link + (more + value + after);
    LinkRuns(front, blanks, link, more, value, after);
    StatedFromIs(front + blanks + link + more, value, after);
    ValueAfterLink(t, |front|, k, k + |link|, at);
    assert MarkedHit(t, MARKERS[i])(|before|, s);
    assert Hit(MarkedHit(t, MARKERS[i]), s);
  }

  lemma LinkRuns(front: string, blanks: string, link: string, more: string, value: string, after: string)
    requires All(blanks, IsInlineBlank) && All(more, IsInlineBlank) && link != "" && value != ""
    requires !IsInlineBlank(link[0]) && !IsInlineBlank(value[0])
    ensures var t := front + blanks + link + more + value + after;
      RunEnd(t, |front|, IsInlineBlank) == |front| + |blanks|
      && RunEnd(t, |front| + |blanks| + |link|, IsInlineBlank) == |front| + |blanks| + |link| + |more|
  {
    hide IsInlineBlank, RunEnd;
    LinkParts(front, blanks, link, more, value, after);
    RunOf(front, blanks, link + more + value + after, IsInlineBlank);
    RunOf(front + blanks + link, more, value + after, IsInlineBlank);
  }

  lemma LinkParts(front: string, blanks: string, link: string, more: string, value: string, after: string)
    ensures front + blanks + link + more + value + after == front + blanks + (link + more + value + after)
    ensures front + blanks + link + more + value + after == (front + blanks + link) + more + (value + after)
    ensures link != "" ==> (link + more + value + after)[0] == link[0]
    ensures value != "" ==> (value + after)[0] == value[0]
  {}

  lemma StatedFromIs(front: string, value: string, after: string)
    requires |value| >= 6 && HasComplexity(value) && Unquoted(value)
    requires All(value, c => IsValueChar(NaturalLanguage, None, c)) && Stops(after, c => IsValueChar(NaturalLanguage, None, c))
    ensures ValueFrom(front + value + after, NaturalLanguage, |front|) == Some(Span(|front|, |front| + |value|, SECRET_LABEL))
  {
    hide IsValueChar, HasComplexity;
    var t := front + value + after;
    Parts(front, value, after);
    RunOf(front, value, after, c => IsValueChar(NaturalLanguage, None, c));
    RunEndUnique(t, |front|, c => IsValueChar(NaturalLanguage, None, c), |front| + |value|);
  }

  lemma ValueAfterLink(t: string, mend: nat, k: nat, after: nat, from: nat)
    requires mend <= k < |t| && RunEnd(t, mend, IsInlineBlank) == k
    requires SeparatorAt(t, k) == Some((NaturalLanguage, after)) && after <= |t| && RunEnd(t, after, IsInlineBlank) == from
    ensures ValueAfter(t, mend) == ValueFrom(t, NaturalLanguage, from)
  {
    hide ValueFrom, SeparatorAt;
  }

  // ---- Bearer tokens ----

  /** The token after the scheme word, in any letter case, is reported. */
  lemma BearerIsFound(before: string, written: string, blanks: string, token: string, after: string)
    requires Lower(written) == BEARER && All(blanks, IsInlineBlank)
    requires token != "" && All(token, IsBearerChar) && Stops(after, IsBearerChar)
    ensures var at := |before| + |written| + |blanks|;
      BearerAt(before + written + blanks + token + after, Span(at, at + |token|, SECRET_LABEL))
  {
    hide BEARER, RunEnd, BearerAfter, IsInlineBlank, IsBearerChar;
    var t := before + written + blanks + token + after;
    var front := before + written;
    var s := Span(|front| + |blanks|, |front| + |blanks| + |token|, SECRET_LABEL);
    BearerStands(before, written, blanks + token + after);
    assert t == before + written + (blanks + token + after) && t == front + blanks + (token + after);
    TokenIsNotBlank(token);
    RunOf(front, blanks, token + after, IsInlineBlank);
    RunOf(front + blanks, token, after, IsBearerChar);
    BearerAfterIs(t, |front|, s.start, s.end);
    assert BearerHit(t)(|before|, s);
  }

  lemma BearerStands(before: string, written: string, rest: string)
    requires Lower(written) == BEARER
    ensures Occurs(Lower(before + written + rest), BEARER, |before|)
  {
    hide BEARER;
    var t := before + written + rest;
    Parts(before, written, rest);
    assert Lower(t)[|before|..|before| + |BEARER|] == BEARER;
  }

  lemma TokenIsNotBlank(token: string)
    requires token != "" && All(token, IsBearerChar)
    ensures !IsInlineBlank(token[0])
  {
    assert IsBearerChar(token[0]);
  }

  lemma BearerAfterIs(t: string, bend: nat, from: nat, end: nat)
    requires bend <= from < end <= |t| && RunEnd(t, bend, IsInlineBlank) == from && RunEnd(t, from, IsBearerChar) == end
    ensures BearerAfter(t, bend) == Some(Span(from, end, SECRET_LABEL))
  {}

  // ---- Card verification values ----

  lemma DigitIsNoGap(digits: string)
    requires digits != "" && All(digits, IsDigit)
    ensures !IsCvvGap(digits[0])
  {
    assert IsDigit(digits[0]);
  }

  lemma CvvAfterIs(t: string, mend: nat, from: nat, end: nat)
    requires mend <= from <= end <= |t| && RunEnd(t, mend, IsCvvGap) == from && RunEnd(t, from, IsDigit) == end
    requires 3 <= end - from <= 4
    ensures CvvAfter(t, mend) == Some(Span(from, end, CVV_LABEL))
  {}

  /** Three or four digits after a marker, in any letter case, are reported. */
  lemma CvvIsFound(before: string, i: nat, written: string, gaps: string, digits: string, after: string)
    requires i < |CVV_MARKERS| && Lower(written) == CVV_MARKERS[i] && Ends(before, IsTokenChar)
    requires All(gaps, IsCvvGap) && All(digits, IsDigit) && 3 <= |digits| <= 4 && Stops(after, IsDigit)
    ensures var at := |before| + |written| + |gaps|;
      CvvAt(before + written + gaps + digits + after, Span(at, at + |digits|, CVV_LABEL))
  {
    hide CVV_MARKERS, MarkerAt, RunEnd, CvvAfter, IsCvvGap;
    var t := before + written + gaps + digits + after;
    var s := Span(|before| + |written| + |gaps|, |before| + |written| + |gaps| + |digits|, CVV_LABEL);
    assert t == before + written + (gaps + digits + after);
    MarkerStands(before, CVV_MARKERS[i], gaps + digits + after, written);
    assert t == (before + written) + gaps + (digits + after);
    DigitIsNoGap(digits);
    RunOf(before + written, gaps, digits + after, IsCvvGap);
    RunOf(before + written + gaps, digits, after, IsDigit);
    CvvAfterIs(t, |before| + |written|, s.start, s.end);
    assert CvvHit(t, CVV_MARKERS[i])(|before|, s);
    assert Hit(CvvHit(t, CVV_MARKERS[i]), s);
  }
}
