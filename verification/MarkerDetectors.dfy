// Detectors led by a marker word: marked secrets, bearer tokens and card verification values.
module MarkerDetectors {
  import opened Options
  import opened Ascii
  import opened Spans
  import opened TokenDetectors
  import Utf8

  const CVV_LABEL := "[REDACTED-CVV]"

  predicate IsTokenChar(c: char) { IsAlnum(c) || c == '_' }

  /** No earlier part of a longer token stands before `m`. */
  predicate WholeTokenStart(t: string, m: nat)
    requires m <= |t|
  {
    m > 0 ==> !IsTokenChar(t[m - 1])
  }

  /** ASCII, with a first character that does not come back. */
  ghost predicate Unrepeated(needle: string) {
    && needle != ""
    && (forall j :: 0 <= j < |needle| ==> IsAscii(needle[j]))
    && (forall j :: 0 < j < |needle| ==> needle[j] != needle[0])
  }

  ghost predicate AllTokenChars(needle: string) {
    needle != "" && forall j :: 0 <= j < |needle| ==> IsTokenChar(needle[j])
  }

  /** Where such a needle occurs as a token start, it does not occur as one again before its end. */
  ghost predicate Marker(marker: string) {
    AllTokenChars(marker) || Unrepeated(marker)
  }

  /** The marker stands at `m`, in any letter case, as the start of a token. */
  predicate MarkerAt(t: string, marker: string, m: nat) {
    Occurs(Lower(t), marker, m) && WholeTokenStart(t, m)
  }

  /** The end of a marker is a boundary, and no other occurrence of it as a token starts inside it. */
  lemma MarkerFacts(t: string, marker: string, m: nat)
    requires Utf8.Valid(t) && Marker(marker) && Occurs(Lower(t), marker, m)
    ensures m < m + |marker| <= |t| && Utf8.Boundary(t, m + |marker|)
    ensures forall n: nat :: m < n < m + |marker| ==> !MarkerAt(t, marker, n)
  {
    hide Utf8.Boundary, Utf8.Valid;
    var low := Lower(t);
    assert low[m + |marker| - 1] == low[m..m + |marker|][|marker| - 1];
    Utf8.AsciiEnds(t, m + |marker| - 1);
    forall n: nat | m < n < m + |marker|
      ensures !MarkerAt(t, marker, n)
    {
      NoRestart(t, marker, m, n);
    }
  }

  lemma NoRestart(t: string, marker: string, m: nat, n: nat)
    requires Marker(marker) && Occurs(Lower(t), marker, m) && m < n < m + |marker|
    ensures !MarkerAt(t, marker, n)
  {
    var low := Lower(t);
    var d := n - m;
    assert low[n] == low[m..m + |marker|][d] == marker[d];
    assert low[n - 1] == low[m..m + |marker|][d - 1] == marker[d - 1];
    OccursHead(low, marker, n);
  }

  // ---- Spans found so far ----

  /** A marker before position `n` leads to the span. */
  ghost predicate HitBefore(hit: (nat, Span) -> bool, n: nat, s: Span) {
    exists m: nat :: m < n && hit(m, s)
  }

  /** Some marker leads to the span. */
  ghost predicate Hit(hit: (nat, Span) -> bool, s: Span) {
    exists m: nat :: hit(m, s)
  }

  lemma HitStart(hit: (nat, Span) -> bool)
    ensures forall s :: !HitBefore(hit, 0, s)
  {}

  lemma HitStep(hit: (nat, Span) -> bool, from: nat, m: nat, next: nat)
    requires from <= m < next
    requires forall n: nat, s :: from <= n < next && n != m ==> !hit(n, s)
    ensures forall s :: HitBefore(hit, next, s) <==> HitBefore(hit, from, s) || hit(m, s)
  {}

  lemma HitEnd(hit: (nat, Span) -> bool, from: nat)
    requires forall n: nat, s :: from <= n ==> !hit(n, s)
    ensures forall s :: HitBefore(hit, from, s) <==> Hit(hit, s)
  {}

  // ---- Marked secrets ----

  const PASSWORDS: seq<string> := ["password", "passwd", "passphrase", "passkey"]
  const MISSPELT: seq<string> := ["pwd", "paaawd", "passwrd", "passwoord"]
  const CREDENTIALS: seq<string> := ["secret", "credential", "credentials"]
  const API_KEYS: seq<string> := ["api_key", "apikey", "api-key"]
  const ACCESS: seq<string> := ["access_token", "accesstoken"]
  const CLIENTS: seq<string> := ["client_secret", "clientsecret"]
  const TOKENS: seq<string> := ["token", "auth_token"]
  const LOGINS: seq<string> := ["private_key", "privatekey", "pin", "login"]

  const MARKERS: seq<string> := PASSWORDS + MISSPELT + CREDENTIALS + API_KEYS + ACCESS + CLIENTS + TOKENS + LOGINS

  ghost predicate AreMarkers(markers: seq<string>) {
    forall i :: 0 <= i < |markers| ==> Marker(markers[i])
  }

  lemma PasswordsAreMarkers()
    ensures AreMarkers(PASSWORDS)
  {}

  lemma MisspeltAreMarkers()
    ensures AreMarkers(MISSPELT)
  {}

  lemma CredentialsAreMarkers()
    ensures AreMarkers(CREDENTIALS)
  {}

  lemma ApiKeysAreMarkers()
    ensures AreMarkers(API_KEYS)
  {}

  lemma AccessAreMarkers()
    ensures AreMarkers(ACCESS)
  {}

  lemma ClientsAreMarkers()
    ensures AreMarkers(CLIENTS)
  {}

  lemma TokensAreMarkers()
    ensures AreMarkers(TOKENS)
  {}

  lemma LoginsAreMarkers()
    ensures AreMarkers(LOGINS)
  {}

  lemma MarkersAreMarkers(i: nat)
    requires i < |MARKERS|
    ensures Marker(MARKERS[i])
  {
    hide PASSWORDS, MISSPELT, CREDENTIALS, API_KEYS, ACCESS, CLIENTS, TOKENS, LOGINS, Marker;
    PasswordsAreMarkers();
    MisspeltAreMarkers();
    CredentialsAreMarkers();
    ApiKeysAreMarkers();
    AccessAreMarkers();
    ClientsAreMarkers();
    TokensAreMarkers();
    LoginsAreMarkers();
  }

  predicate IsInlineBlank(c: char) { c == ' ' || c == '\t' }

  datatype Separator = Assignment | NaturalLanguage

  /** The separator at `k` and where it ends: `=`, `:`, `is `, `->` or the three bytes of U+2192. */
  function SeparatorAt(t: string, k: nat): Option<(Separator, nat)>
    requires k < |t|
  {
    if t[k] == '=' || t[k] == ':' then Some((Assignment, k + 1))
    else if Occurs(Lower(t), "is ", k) || Occurs(Lower(t), "is\t", k) then Some((NaturalLanguage, k + 3))
    else if t[k] == '-' && k + 1 < |t| && t[k + 1] == '>' then Some((NaturalLanguage, k + 2))
    else if k + 2 < |t| && t[k] == 0xE2 as char && t[k + 1] == 0x86 as char && t[k + 2] == 0x92 as char
      then Some((NaturalLanguage, k + 3))
    else None
  }


  /** Characters a value may contain: up to the closing quote, or up to a delimiter; never past ASCII. */
  predicate IsValueChar(sep: Separator, quote: Option<char>, c: char) {
    IsAscii(c) &&
    match quote
    case Some(q) => c != q
    case None => c !in " \t\n\r,;&" && (sep == NaturalLanguage ==> c !in ".!?")
  }

  /** A digit, a special character, or mixed letter case. */
  predicate HasComplexity(value: string) {
    Has(value, IsDigit) || Has(value, IsOther) || (Has(value, IsUpper) && Has(value, IsLower))
  }

  predicate IsOther(c: char) { !IsDigit(c) && !IsUpper(c) && !IsLower(c) && !IsBlank(c) }

  /** The value that follows a marker ending at `mend`. */
  function ValueAfter(t: string, mend: nat): Option<Span>
    requires mend <= |t|
  {
    var k := RunEnd(t, mend, IsInlineBlank);
    if k == |t| then None
    else
      match SeparatorAt(t, k)
      case None => None
      case Some((sep, after)) =>
        if after > |t| then None else ValueFrom(t, sep, RunEnd(t, after, IsInlineBlank))
  }

  function ValueFrom(t: string, sep: Separator, k: nat): Option<Span>
    requires k <= |t|
  {
    var quote := if k < |t| && (t[k] == '"' || t[k] == '\'') then Some(t[k]) else None;
    var start := if quote.Some? then k + 1 else k;
    var end := RunEnd(t, start, c => IsValueChar(sep, quote, c));
    if end == start then None
    else if sep == NaturalLanguage && (end - start < 6 || !HasComplexity(t[start..end])) then None
    else Some(Span(start, end, SECRET_LABEL))
  }

  /** The value after the marker at `m`. */
  function MarkedHit(t: string, marker: string): (nat, Span) -> bool {
    (m: nat, s: Span) => MarkerAt(t, marker, m) && m + |marker| <= |t| && ValueAfter(t, m + |marker|) == Some(s)
  }

  /** The value after some marker. */
  ghost predicate MarkedAt(t: string, s: Span) {
    exists i :: 0 <= i < |MARKERS| && Hit(MarkedHit(t, MARKERS[i]), s)
  }

  lemma SeparatorOnBoundary(t: string, k: nat)
    requires Utf8.Valid(t) && k < |t| && SeparatorAt(t, k).Some?
    ensures SeparatorAt(t, k).value.1 <= |t| && Utf8.Boundary(t, SeparatorAt(t, k).value.1)
  {
    hide Utf8.Valid, Utf8.Boundary;
    var low := Lower(t);
    if t[k] == '=' || t[k] == ':' {
      Utf8.AsciiEnds(t, k);
    } else if Occurs(low, "is ", k) {
      assert low[k + 2] == "is "[2];
      Utf8.AsciiEnds(t, k + 2);
    } else if Occurs(low, "is\t", k) {
      assert low[k + 2] == "is\t"[2];
      Utf8.AsciiEnds(t, k + 2);
    } else if t[k] == '-' {
      Utf8.AsciiEnds(t, k + 1);
    } else {
      Utf8.SequenceEnds(t, k);
    }
  }

  lemma ValueFromOnBoundaries(t: string, sep: Separator, k: nat)
    requires Utf8.Valid(t) && k <= |t| && Utf8.Boundary(t, k) && ValueFrom(t, sep, k).Some?
    ensures var v := ValueFrom(t, sep, k).value;
      v.mark == SECRET_LABEL && InRange(v, |t|) && Utf8.Boundary(t, v.start) && Utf8.Boundary(t, v.end)
  {
    hide Utf8.Valid, Utf8.Boundary, HasComplexity;
    if k < |t| && (t[k] == '"' || t[k] == '\'') { Utf8.AsciiEnds(t, k); }
    var v := ValueFrom(t, sep, k).value;
    Utf8.AsciiRunEnds(t, v.start, v.end);
  }

  lemma MarkedOnBoundaries(t: string, s: Span)
    requires Utf8.Valid(t) && MarkedAt(t, s)
    ensures s.mark == SECRET_LABEL && InRange(s, |t|) && Utf8.Boundary(t, s.start) && Utf8.Boundary(t, s.end)
  {
    hide Utf8.Valid, Utf8.Boundary, MarkedHit, MARKERS, Marker;
    var i: nat :| i < |MARKERS| && Hit(MarkedHit(t, MARKERS[i]), s);
    var m: nat :| MarkedHit(t, MARKERS[i])(m, s);
    MarkersAreMarkers(i);
    MarkedHitOnBoundaries(t, MARKERS[i], m, s);
  }

  lemma MarkedHitOnBoundaries(t: string, marker: string, m: nat, s: Span)
    requires Utf8.Valid(t) && Marker(marker) && MarkedHit(t, marker)(m, s)
    ensures s.mark == SECRET_LABEL && InRange(s, |t|) && Utf8.Boundary(t, s.start) && Utf8.Boundary(t, s.end)
  {
    hide Utf8.Valid, Utf8.Boundary, MarkerAt, ValueAfter, Marker;
    MarkerOccurs(t, marker, m);
    MarkerFacts(t, marker, m);
    ValueOnBoundaries(t, m + |marker|, s);
  }

  lemma ValueOnBoundaries(t: string, mend: nat, s: Span)
    requires Utf8.Valid(t) && mend <= |t| && ValueAfter(t, mend) == Some(s)
    ensures s.mark == SECRET_LABEL && InRange(s, |t|) && Utf8.Boundary(t, s.start) && Utf8.Boundary(t, s.end)
  {
    hide Utf8.Valid, Utf8.Boundary, ValueFrom, SeparatorAt;
    var k := RunEnd(t, mend, IsInlineBlank);
    SeparatorOnBoundary(t, k);
    var (sep, after) := SeparatorAt(t, k).value;
    Utf8.AsciiRunEnds(t, after, RunEnd(t, after, IsInlineBlank));
    ValueFromOnBoundaries(t, sep, RunEnd(t, after, IsInlineBlank));
  }

  lemma MarkerOccurs(t: string, marker: string, m: nat)
    requires MarkerAt(t, marker, m)
    ensures Occurs(Lower(t), marker, m)
  {}

  /** `detect_marked_secrets`: exactly the values after a marker are reported. */
  method DetectMarkedSecrets(t: string, out0: seq<Span>) returns (out: seq<Span>)
    requires Utf8.Valid(t)
    ensures out0 <= out
    ensures forall s :: s in out[|out0|..] <==> MarkedAt(t, s)
  {
    hide MarkedHit, Hit, MARKERS, Utf8.Valid, Marker;
    out := out0;
    for i := 0 to |MARKERS|
      invariant out0 <= out
      invariant forall s :: s in out[|out0|..] <==> exists j :: 0 <= j < i && Hit(MarkedHit(t, MARKERS[j]), s)
    {
      MarkersAreMarkers(i);
      ghost var before := out;
      out := ScanMarker(t, MARKERS[i], out);
      assert out[|out0|..] == before[|out0|..] + out[|before|..];
    }
  }

  method ScanMarker(t: string, marker: string, out0: seq<Span>) returns (out: seq<Span>)
    requires Utf8.Valid(t) && Marker(marker)
    ensures out0 <= out
    ensures forall s :: s in out[|out0|..] <==> Hit(MarkedHit(t, marker), s)
  {
    hide Utf8.Valid, Utf8.Boundary, ValueAfter, MarkedHit, Hit, HitBefore, Marker, MarkerAt, Occurs;
    var low := Lower(t);
    ghost var hit := MarkedHit(t, marker);
    out := out0;
    var from: nat := 0;
    EndsAreBoundaries(t);
    HitStart(hit);
    while true
      invariant from <= |t| && Utf8.Boundary(t, from) && out0 <= out
      invariant forall s :: s in out[|out0|..] <==> HitBefore(hit, from, s)
      decreases |t| - from
    {
      var m := Find(low, marker, from);
      if m == -1 {
        NoMark(t, marker, from);
        return;
      }
      MarkerFacts(t, marker, m);
      var mend := m + |marker|;
      MarkDecided(t, marker, from, m);
      from := mend;
      if m > 0 && IsTokenChar(t[m - 1]) {
        continue;
      }
      var value := ReadValue(t, mend);
      ghost var before := out[|out0|..];
      if value.Some? {
        out := out + [value.value];
        assert out[|out0|..] == before + [value.value];
      }
    }
  }

  lemma NoMark(t: string, marker: string, from: nat)
    requires from <= |t| && Find(Lower(t), marker, from) == -1
    ensures forall s :: HitBefore(MarkedHit(t, marker), from, s) <==> Hit(MarkedHit(t, marker), s)
  {
    hide ValueAfter, WholeTokenStart;
    HitEnd(MarkedHit(t, marker), from);
  }

  lemma MarkDecided(t: string, marker: string, from: nat, m: nat)
    requires Utf8.Valid(t) && Marker(marker) && from <= |t| && Find(Lower(t), marker, from) == m
    ensures m + |marker| <= |t|
    ensures forall s :: HitBefore(MarkedHit(t, marker), m + |marker|, s) <==>
      HitBefore(MarkedHit(t, marker), from, s) || (WholeTokenStart(t, m) && ValueAfter(t, m + |marker|) == Some(s))
  {
    hide ValueAfter, Utf8.Valid, Utf8.Boundary, Marker, HitBefore;
    MarkerFacts(t, marker, m);
    HitStep(MarkedHit(t, marker), from, m, m + |marker|);
  }

  /** The scan from the marker's end to the value; the slices it takes are legal. */
  method ReadValue(t: string, mend: nat) returns (r: Option<Span>)
    requires Utf8.Valid(t) && mend <= |t| && Utf8.Boundary(t, mend)
    ensures r == ValueAfter(t, mend)
  {
    hide Utf8.Valid, Utf8.Boundary, SeparatorAt, ValueFrom;
    var k := SkipWhile(t, mend, IsInlineBlank);
    if k >= |t| {
      return None;
    }
    Utf8.AsciiRunEnds(t, mend, k);
    EndsAreBoundaries(t);
    ghost var _ := Utf8.Slice(t, k, |t|);
    var found := SeparatorAt(t, k);
    if found.None? {
      return None;
    }
    SeparatorOnBoundary(t, k);
    var (sep, after) := found.value;
    k := SkipWhile(t, after, IsInlineBlank);
    Utf8.AsciiRunEnds(t, after, k);
    r := ReadValueFrom(t, sep, k);
  }

  /** The scan of the value itself, past an opening quote. */
  method ReadValueFrom(t: string, sep: Separator, from: nat) returns (r: Option<Span>)
    requires Utf8.Valid(t) && from <= |t| && Utf8.Boundary(t, from)
    ensures r == ValueFrom(t, sep, from)
  {
    hide Utf8.Valid, Utf8.Boundary, HasComplexity;
    var k := from;
    var quoted := k < |t| && (t[k] == '"' || t[k] == '\'');
    var quote := if quoted then Some(t[k]) else None;
    if quoted {
      k := k + 1;
    }
    var start := k;
    var inValue := c => IsValueChar(sep, quote, c);
    k := SkipWhile(t, start, inValue);
    ValueRun(t, sep, quote, inValue, start);
    if k <= start {
      return None;
    }
    ValueEnds(t, from, start, k);
    var value := Utf8.Slice(t, start, k);
    if sep == NaturalLanguage {
      if |value| < 6 {
        return None;
      }
      if !HasComplexity(value) {
        return None;
      }
    }
    return Some(Span(start, k, SECRET_LABEL));
  }

  lemma ValueRun(t: string, sep: Separator, quote: Option<char>, p: char -> bool, start: nat)
    requires start <= |t| && forall c :: p(c) == IsValueChar(sep, quote, c)
    ensures RunEnd(t, start, p) == RunEnd(t, start, c => IsValueChar(sep, quote, c))
    ensures forall i :: start <= i < RunEnd(t, start, p) ==> IsAscii(t[i])
  {
    RunEndUnique(t, start, c => IsValueChar(sep, quote, c), RunEnd(t, start, p));
  }

  lemma ValueEnds(t: string, from: nat, start: nat, end: nat)
    requires Utf8.Valid(t) && from <= start <= end <= |t| && Utf8.Boundary(t, from)
    requires start == from || (start == from + 1 && IsAscii(t[from]))
    requires forall i :: start <= i < end ==> IsAscii(t[i])
    ensures Utf8.Boundary(t, start) && Utf8.Boundary(t, end)
  {
    hide Utf8.Valid, Utf8.Boundary;
    if start > from { Utf8.AsciiEnds(t, from); }
    Utf8.AsciiRunEnds(t, start, end);
  }

  // ---- Bearer tokens ----

  const BEARER := "bearer "

  predicate IsBearerChar(c: char) { !IsBlank(c) && c != ',' }

  /** The token that follows `bearer ` ending at `bend`. */
  function BearerAfter(t: string, bend: nat): Option<Span>
    requires bend <= |t|
  {
    var start := RunEnd(t, bend, IsInlineBlank);
    var end := RunEnd(t, start, IsBearerChar);
    if start < end then Some(Span(start, end, SECRET_LABEL)) else None
  }

  function BearerHit(t: string): (nat, Span) -> bool {
    (b: nat, s: Span) => Occurs(Lower(t), BEARER, b) && b + |BEARER| <= |t| && BearerAfter(t, b + |BEARER|) == Some(s)
  }

  /** The token after some `bearer `, in any letter case. */
  ghost predicate BearerAt(t: string, s: Span) {
    Hit(BearerHit(t), s)
  }

  lemma BearerUnrepeated()
    ensures Unrepeated(BEARER)
  {}

  lemma UnrepeatedFacts(t: string, needle: string, b: nat)
    requires Utf8.Valid(t) && Unrepeated(needle) && Occurs(Lower(t), needle, b)
    ensures b < b + |needle| <= |t| && Utf8.Boundary(t, b + |needle|)
    ensures forall c: nat :: b < c < b + |needle| ==> !Occurs(Lower(t), needle, c)
  {
    hide Utf8.Boundary, Utf8.Valid;
    var low := Lower(t);
    assert forall j :: b <= j < b + |needle| ==> low[j] == needle[j - b];
    Utf8.AsciiEnds(t, b + |needle| - 1);
    forall c: nat | b < c < b + |needle|
      ensures !Occurs(low, needle, c)
    {
      assert low[c] == needle[c - b];
      OccursHead(low, needle, c);
    }
  }

  lemma BearerFacts(t: string, b: nat)
    requires Utf8.Valid(t) && Occurs(Lower(t), BEARER, b)
    ensures b < b + |BEARER| <= |t| && Utf8.Boundary(t, b + |BEARER|)
    ensures forall c: nat :: b < c < b + |BEARER| ==> !Occurs(Lower(t), BEARER, c)
  {
    hide BEARER, Utf8.Valid, Utf8.Boundary, Occurs, Unrepeated;
    BearerUnrepeated();
    UnrepeatedFacts(t, BEARER, b);
  }

  /** `detect_bearer`: exactly the tokens after `bearer ` are reported. */
  method DetectBearer(t: string, out0: seq<Span>) returns (out: seq<Span>)
    requires Utf8.Valid(t)
    ensures out0 <= out
    ensures forall s :: s in out[|out0|..] <==> BearerAt(t, s)
  {
    hide Utf8.Valid, Utf8.Boundary, BearerHit, Hit, HitBefore, BEARER, Occurs;
    var low := Lower(t);
    ghost var hit := BearerHit(t);
    out := out0;
    var from: nat := 0;
    EndsAreBoundaries(t);
    HitStart(hit);
    while true
      invariant from <= |t| && Utf8.Boundary(t, from) && out0 <= out
      invariant forall s :: s in out[|out0|..] <==> HitBefore(hit, from, s)
      decreases |t| - from
    {
      var b := Find(low, BEARER, from);
      if b == -1 {
        NoBearer(t, from);
        return;
      }
      BearerFacts(t, b);
      BearerDecided(t, from, b);
      from := b + |BEARER|;
      var start := SkipWhile(t, from, IsInlineBlank);
      var k := SkipWhile(t, start, IsBearerChar);
      ghost var before := out[|out0|..];
      assert BearerAfter(t, from) == if k > start then Some(Span(start, k, SECRET_LABEL)) else None;
      if k > start {
        out := out + [Span(start, k, SECRET_LABEL)];
        assert out[|out0|..] == before + [Span(start, k, SECRET_LABEL)];
      }
    }
  }

  lemma NoBearer(t: string, from: nat)
    requires from <= |t| && Find(Lower(t), BEARER, from) == -1
    ensures forall s :: HitBefore(BearerHit(t), from, s) <==> Hit(BearerHit(t), s)
  {
    hide BearerAfter, BEARER;
    HitEnd(BearerHit(t), from);
  }

  lemma BearerDecided(t: string, from: nat, b: nat)
    requires Utf8.Valid(t) && from <= |t| && Find(Lower(t), BEARER, from) == b
    ensures b + |BEARER| <= |t|
    ensures forall s :: HitBefore(BearerHit(t), b + |BEARER|, s) <==>
      HitBefore(BearerHit(t), from, s) || BearerAfter(t, b + |BEARER|) == Some(s)
  {
    hide BearerAfter, Utf8.Valid, Utf8.Boundary, BEARER, HitBefore;
    BearerFacts(t, b);
    HitStep(BearerHit(t), from, b, b + |BEARER|);
  }

  lemma BearerOnBoundaries(t: string, s: Span)
    requires Utf8.Valid(t) && BearerAt(t, s)
    ensures s.mark == SECRET_LABEL && InRange(s, |t|) && Utf8.Boundary(t, s.start) && Utf8.Boundary(t, s.end)
  {
    hide Utf8.Valid, Utf8.Boundary, BEARER, BearerAfter, Occurs;
    var b: nat :| BearerHit(t)(b, s);
    BearerFacts(t, b);
    BearerTokenOnBoundaries(t, b + |BEARER|, s);
  }

  lemma BearerTokenOnBoundaries(t: string, bend: nat, s: Span)
    requires Utf8.Valid(t) && bend <= |t| && Utf8.Boundary(t, bend) && BearerAfter(t, bend) == Some(s)
    ensures s.mark == SECRET_LABEL && InRange(s, |t|) && Utf8.Boundary(t, s.start) && Utf8.Boundary(t, s.end)
  {
    hide Utf8.Valid, Utf8.Boundary;
    Utf8.AsciiRunEnds(t, bend, s.start);
    BlankEnds(t, s.end);
  }

  /** A token runs up to the end, a comma or ASCII white space. */
  lemma BlankEnds(t: string, end: nat)
    requires Utf8.Valid(t) && end <= |t| && (end < |t| ==> !IsBearerChar(t[end]))
    ensures Utf8.Boundary(t, end)
  {
    hide Utf8.Valid;
    if end < |t| { Utf8.AsciiEnds(t, end); }
  }

  // ---- Card verification values ----

  const CVV_MARKERS: seq<string> := ["cvv2", "cvv", "cvc", "cid"]

  lemma CvvMarkersAreMarkers(i: nat)
    requires i < |CVV_MARKERS|
    ensures Marker(CVV_MARKERS[i])
  {}

  predicate IsCvvGap(c: char) { c == ' ' || c == '\t' || c == '=' || c == ':' }

  /** Three or four digits after a marker ending at `mend`. */
  function CvvAfter(t: string, mend: nat): Option<Span>
    requires mend <= |t|
  {
    var start := RunEnd(t, mend, IsCvvGap);
    var end := RunEnd(t, start, IsDigit);
    if 3 <= end - start <= 4 then Some(Span(start, end, CVV_LABEL)) else None
  }

  function CvvHit(t: string, marker: string): (nat, Span) -> bool {
    (m: nat, s: Span) => MarkerAt(t, marker, m) && m + |marker| <= |t| && CvvAfter(t, m + |marker|) == Some(s)
  }

  ghost predicate CvvAt(t: string, s: Span) {
    exists i :: 0 <= i < |CVV_MARKERS| && Hit(CvvHit(t, CVV_MARKERS[i]), s)
  }

  /** `detect_cvv`: exactly the short digit groups after a marker are reported. */
  method DetectCvv(t: string, out0: seq<Span>) returns (out: seq<Span>)
    requires Utf8.Valid(t)
    ensures out0 <= out
    ensures forall s :: s in out[|out0|..] <==> CvvAt(t, s)
  {
    hide CvvHit, Hit, CVV_MARKERS, Utf8.Valid, Marker;
    out := out0;
    for i := 0 to |CVV_MARKERS|
      invariant out0 <= out
      invariant forall s :: s in out[|out0|..] <==> exists j :: 0 <= j < i && Hit(CvvHit(t, CVV_MARKERS[j]), s)
    {
      CvvMarkersAreMarkers(i);
      ghost var before := out;
      out := ScanCvv(t, CVV_MARKERS[i], out);
      assert out[|out0|..] == before[|out0|..] + out[|before|..];
    }
  }

  method ScanCvv(t: string, marker: string, out0: seq<Span>) returns (out: seq<Span>)
    requires Utf8.Valid(t) && Marker(marker)
    ensures out0 <= out
    ensures forall s :: s in out[|out0|..] <==> Hit(CvvHit(t, marker), s)
  {
    hide Utf8.Valid, Utf8.Boundary, CvvHit, Hit, HitBefore, Marker, MarkerAt, Occurs;
    var low := Lower(t);
    ghost var hit := CvvHit(t, marker);
    out := out0;
    var from: nat := 0;
    EndsAreBoundaries(t);
    HitStart(hit);
    while true
      invariant from <= |t| && Utf8.Boundary(t, from) && out0 <= out
      invariant forall s :: s in out[|out0|..] <==> HitBefore(hit, from, s)
      decreases |t| - from
    {
      var m := Find(low, marker, from);
      if m == -1 {
        NoCvv(t, marker, from);
        return;
      }
      MarkerFacts(t, marker, m);
      CvvDecided(t, marker, from, m);
      from := m + |marker|;
      if m > 0 && IsTokenChar(t[m - 1]) {
        continue;
      }
      var start := SkipWhile(t, from, IsCvvGap);
      var k := SkipWhile(t, start, IsDigit);
      ghost var before := out[|out0|..];
      assert CvvAfter(t, from) == if 3 <= k - start <= 4 then Some(Span(start, k, CVV_LABEL)) else None;
      if 3 <= k - start <= 4 {
        out := out + [Span(start, k, CVV_LABEL)];
        assert out[|out0|..] == before + [Span(start, k, CVV_LABEL)];
      }
    }
  }

  lemma NoCvv(t: string, marker: string, from: nat)
    requires from <= |t| && Find(Lower(t), marker, from) == -1
    ensures forall s :: HitBefore(CvvHit(t, marker), from, s) <==> Hit(CvvHit(t, marker), s)
  {
    hide CvvAfter, WholeTokenStart;
    HitEnd(CvvHit(t, marker), from);
  }

  lemma CvvDecided(t: string, marker: string, from: nat, m: nat)
    requires Utf8.Valid(t) && Marker(marker) && from <= |t| && Find(Lower(t), marker, from) == m
    ensures m + |marker| <= |t|
    ensures forall s :: HitBefore(CvvHit(t, marker), m + |marker|, s) <==>
      HitBefore(CvvHit(t, marker), from, s) || (WholeTokenStart(t, m) && CvvAfter(t, m + |marker|) == Some(s))
  {
    hide CvvAfter, Utf8.Valid, Utf8.Boundary, Marker, HitBefore;
    MarkerFacts(t, marker, m);
    HitStep(CvvHit(t, marker), from, m, m + |marker|);
  }

  lemma CvvOnBoundaries(t: string, s: Span)
    requires Utf8.Valid(t) && CvvAt(t, s)
    ensures s.mark == CVV_LABEL && InRange(s, |t|) && Utf8.Boundary(t, s.start) && Utf8.Boundary(t, s.end)
  {
    hide Utf8.Valid, Utf8.Boundary, CVV_MARKERS, Marker, CvvHit;
    var i: nat :| i < |CVV_MARKERS| && Hit(CvvHit(t, CVV_MARKERS[i]), s);
    var m: nat :| CvvHit(t, CVV_MARKERS[i])(m, s);
    CvvMarkersAreMarkers(i);
    CvvHitOnBoundaries(t, CVV_MARKERS[i], m, s);
  }

  lemma CvvHitOnBoundaries(t: string, marker: string, m: nat, s: Span)
    requires Utf8.Valid(t) && Marker(marker) && CvvHit(t, marker)(m, s)
    ensures s.mark == CVV_LABEL && InRange(s, |t|) && Utf8.Boundary(t, s.start) && Utf8.Boundary(t, s.end)
  {
    hide Utf8.Valid, Utf8.Boundary, MarkerAt, Marker;
    MarkerOccurs(t, marker, m);
    MarkerFacts(t, marker, m);
    Utf8.AsciiRunEnds(t, m + |marker|, s.start);
    Utf8.AsciiRunEnds(t, s.start, s.end);
  }
}
