// The redactor: nine detectors in order, then one rebuild.
module Redactor {
  import opened Ascii
  import opened Spans
  import opened TokenDetectors
  import opened MarkerDetectors
  import Cards
  import Choice
  import Coverage
  import DigitRuns
  import Utf8

  /** Which detectors run, and their thresholds; `entropic` is the Shannon-entropy test. */
  datatype Config = Config(
    cards: bool, longDigitRuns: bool, longDigitRunMin: nat, markedSecrets: bool, prefixedTokens: bool, bearerTokens: bool,
    emails: bool, cvv: bool, highEntropy: bool, entropyMinLen: nat, entropic: string -> bool, credentialShaped: bool)

  datatype Detector =
    CardNumbers | LongDigitRuns | MarkedSecrets | CredentialShaped | Bearer | Prefixed | Cvv | Emails | HighEntropy

  /** Earlier detectors label a range that several report. */
  const ORDER := [CardNumbers, LongDigitRuns, MarkedSecrets, CredentialShaped, Bearer, Prefixed, Cvv, Emails, HighEntropy]

  predicate Enabled(cfg: Config, d: Detector) {
    match d
    case CardNumbers => cfg.cards
    case LongDigitRuns => cfg.longDigitRuns
    case MarkedSecrets => cfg.markedSecrets
    case CredentialShaped => cfg.credentialShaped
    case Bearer => cfg.bearerTokens
    case Prefixed => cfg.prefixedTokens
    case Cvv => cfg.cvv
    case Emails => cfg.emails
    case HighEntropy => cfg.highEntropy
  }

  /** What the detector looks for. */
  ghost predicate Sensitive(cfg: Config, d: Detector, t: string, s: Span) {
    match d
    case CardNumbers => s.mark == DigitRuns.CARD_LABEL && Cards.CardAt(t, s.start, s.end)
    case LongDigitRuns => s in DigitRuns.RunSpans(t, cfg.longDigitRunMin, 0)
    case MarkedSecrets => MarkedAt(t, s)
    case CredentialShaped => s.mark == SECRET_LABEL && CredentialAt(t, s.start, s.end)
    case Bearer => BearerAt(t, s)
    case Prefixed => s.mark == SECRET_LABEL && PrefixedAt(t, s.start, s.end)
    case Cvv => CvvAt(t, s)
    case Emails => s.mark == EMAIL_LABEL && EmailAt(t, s.start, s.end)
    case HighEntropy => s.mark == SECRET_LABEL && EntropyAt(t, cfg.entropyMinLen, cfg.entropic, s.start, s.end)
  }

  ghost predicate Reported(cfg: Config, d: Detector, t: string, s: Span) {
    Enabled(cfg, d) && Sensitive(cfg, d, t, s)
  }

  function MarkOf(d: Detector): string {
    match d
    case CardNumbers => DigitRuns.CARD_LABEL
    case LongDigitRuns => DigitRuns.CARD_LABEL
    case Cvv => CVV_LABEL
    case Emails => EMAIL_LABEL
    case _ => SECRET_LABEL
  }

  /** Each detector has one label, and reports only non-empty ranges between character boundaries. */
  lemma SensitiveIsLegal(cfg: Config, d: Detector, t: string, s: Span)
    requires Utf8.Valid(t) && Sensitive(cfg, d, t, s)
    ensures s.mark == MarkOf(d) && InRange(s, |t|) && Utf8.Boundary(t, s.start) && Utf8.Boundary(t, s.end)
  {
    hide Utf8.Valid, Utf8.Boundary, Cards.CardAt, MarkedAt, CredentialAt, BearerAt, PrefixedAt, CvvAt, EmailAt, EntropyAt,
      DigitRuns.RunSpans;
    match d
    case CardNumbers => Cards.CardOnBoundaries(t, s.start, s.end);
    case LongDigitRuns => DigitRuns.RunSpansLegal(t, cfg.longDigitRunMin, 0, s);
    case MarkedSecrets => MarkedOnBoundaries(t, s);
    case CredentialShaped => CredentialOnBoundaries(t, s.start, s.end);
    case Bearer => BearerOnBoundaries(t, s);
    case Prefixed => PrefixedOnBoundaries(t, s.start, s.end);
    case Cvv => CvvOnBoundaries(t, s);
    case Emails => EmailOnBoundaries(t, s.start, s.end);
    case HighEntropy => EntropyOnBoundaries(t, cfg.entropyMinLen, cfg.entropic, s.start, s.end);
  }

  // ---- What the detectors pushed, one part each ----

  ghost predicate Finds(cfg: Config, d: Detector, t: string, part: seq<Span>) {
    forall s :: s in part <==> Reported(cfg, d, t, s)
  }

  ghost predicate Recorded(cfg: Config, t: string, ran: seq<Detector>, parts: seq<seq<Span>>) {
    |ran| == |parts| && forall k :: 0 <= k < |ran| ==> Finds(cfg, ran[k], t, parts[k])
  }

  lemma Record(cfg: Config, t: string, ran: seq<Detector>, parts: seq<seq<Span>>, d: Detector, before: seq<Span>, after: seq<Span>)
    requires Recorded(cfg, t, ran, parts) && Choice.Flat(parts) == before && before <= after
    requires Finds(cfg, d, t, after[|before|..])
    ensures Recorded(cfg, t, ran + [d], parts + [after[|before|..]])
    ensures Choice.Flat(parts + [after[|before|..]]) == after
  {
    hide Finds, Choice.Flat;
    Choice.FlatAppend(parts, after[|before|..]);
  }

  /** One detector's turn. */
  method Run(cfg: Config, d: Detector, t: string, out0: seq<Span>) returns (out: seq<Span>)
    requires Utf8.Valid(t)
    ensures out0 <= out && Finds(cfg, d, t, out[|out0|..])
  {
    hide Utf8.Valid, Cards.CardAt, MarkedAt, CredentialAt, BearerAt, PrefixedAt, CvvAt, EmailAt, EntropyAt, DigitRuns.RunSpans;
    out := out0;
    if Enabled(cfg, d) {
      match d
      case CardNumbers => out := Cards.DetectCards(t, out);
      case LongDigitRuns => out := DigitRuns.DetectLongDigitRuns(t, cfg.longDigitRunMin, out);
      case MarkedSecrets => out := DetectMarkedSecrets(t, out);
      case CredentialShaped => out := DetectCredentialShaped(t, out);
      case Bearer => out := DetectBearer(t, out);
      case Prefixed => out := DetectPrefixed(t, out);
      case Cvv => out := DetectCvv(t, out);
      case Emails => out := DetectEmails(t, out);
      case HighEntropy => out := DetectHighEntropy(t, cfg.entropyMinLen, cfg.entropic, out);
    }
  }

  /** What a redaction result is, given what each detector found. */
  ghost predicate IsRedaction(cfg: Config, t: string, parts: seq<seq<Span>>, out: string, count: nat) {
    && Recorded(cfg, t, ORDER, parts)
    && out == Redacted(t, Choice.Flat(parts)) && count == |Chosen(t, Choice.Flat(parts))|
  }

  /** One detector's turn, with the record of what it pushed. */
  method Step(cfg: Config, d: Detector, t: string, spans: seq<Span>, ghost ran: seq<Detector>, ghost parts: seq<seq<Span>>)
    returns (out: seq<Span>, ghost parts': seq<seq<Span>>)
    requires Utf8.Valid(t) && Recorded(cfg, t, ran, parts) && Choice.Flat(parts) == spans
    ensures Recorded(cfg, t, ran + [d], parts') && Choice.Flat(parts') == out
  {
    out := Run(cfg, d, t, spans);
    Record(cfg, t, ran, parts, d, spans, out);
    parts' := parts + [out[|spans|..]];
  }

  /** `StrongRedactor::redact`: total on valid UTF-8, which the output is again. */
  method Redact(cfg: Config, t: string) returns (out: string, count: nat, ghost parts: seq<seq<Span>>)
    requires Utf8.Valid(t)
    ensures IsRedaction(cfg, t, parts, out, count)
    ensures Utf8.Valid(out)
  {
    hide Recorded, Utf8.Valid, Choice.Flat, Redacted;
    var spans: seq<Span> := [];
    parts := [];
    Nothing(cfg, t);
    spans, parts := Step(cfg, CardNumbers, t, spans, [], parts);
    spans, parts := Step(cfg, LongDigitRuns, t, spans, ORDER[..1], parts);
    spans, parts := Step(cfg, MarkedSecrets, t, spans, ORDER[..2], parts);
    spans, parts := Step(cfg, CredentialShaped, t, spans, ORDER[..3], parts);
    spans, parts := Step(cfg, Bearer, t, spans, ORDER[..4], parts);
    spans, parts := Step(cfg, Prefixed, t, spans, ORDER[..5], parts);
    spans, parts := Step(cfg, Cvv, t, spans, ORDER[..6], parts);
    spans, parts := Step(cfg, Emails, t, spans, ORDER[..7], parts);
    spans, parts := Step(cfg, HighEntropy, t, spans, ORDER[..8], parts);
    assert ORDER[..8] + [HighEntropy] == ORDER;
    AllLegal(cfg, t, parts);
    out, count := ApplySpans(t, spans);
    RedactedValid(t, spans);
  }

  lemma Nothing(cfg: Config, t: string)
    ensures Recorded(cfg, t, [], []) && Choice.Flat([]) == []
  {}

  lemma MarksAreAscii(d: Detector, i: nat)
    requires i < |MarkOf(d)|
    ensures IsAscii(MarkOf(d)[i])
  {}

  /** Every span any detector pushes begins and ends at a character boundary. */
  lemma AllLegal(cfg: Config, t: string, parts: seq<seq<Span>>)
    requires Utf8.Valid(t) && Recorded(cfg, t, ORDER, parts)
    ensures OnBoundaries(t, Choice.Flat(parts)) && AsciiLabels(Choice.Flat(parts)) && Choice.OneLabelEach(parts)
    ensures forall s :: s in Choice.Flat(parts) ==> InRange(s, |t|)
  {
    hide Utf8.Valid, Utf8.Boundary, Choice.Flat, ORDER, Sensitive, MarkOf;
    forall k, s | 0 <= k < |parts| && s in parts[k]
      ensures s.mark == MarkOf(ORDER[k]) && InRange(s, |t|) && Utf8.Boundary(t, s.start) && Utf8.Boundary(t, s.end)
    {
      assert Finds(cfg, ORDER[k], t, parts[k]);
      SensitiveIsLegal(cfg, ORDER[k], t, s);
    }
    forall s | s in Choice.Flat(parts)
      ensures InRange(s, |t|) && Utf8.Boundary(t, s.start) && Utf8.Boundary(t, s.end)
      ensures forall i :: 0 <= i < |s.mark| ==> IsAscii(s.mark[i])
    {
      Choice.InFlat(parts, s);
      var k :| 0 <= k < |parts| && s in parts[k];
      forall i | 0 <= i < |s.mark| ensures IsAscii(s.mark[i]) { MarksAreAscii(ORDER[k], i); }
    }
  }

  /** Redaction is a function of the configuration and the text. */
  lemma RedactionUnique(cfg: Config, t: string, parts: seq<seq<Span>>, out: string, count: nat,
                        parts': seq<seq<Span>>, out': string, count': nat)
    requires Utf8.Valid(t) && IsRedaction(cfg, t, parts, out, count) && IsRedaction(cfg, t, parts', out', count')
    ensures out == out' && count == count'
  {
    hide Utf8.Valid, Choice.Flat, ORDER, Reported, Redacted, Chosen;
    AllLegal(cfg, t, parts);
    forall k | 0 <= k < |parts|
      ensures Choice.SameMembers(parts[k], parts'[k])
    {
      assert Finds(cfg, ORDER[k], t, parts[k]) && Finds(cfg, ORDER[k], t, parts'[k]);
    }
    Choice.FindsDecide(t, parts, parts');
  }

  /** Nothing an enabled detector looks for keeps its first byte. */
  lemma SensitiveIsHit(cfg: Config, t: string, parts: seq<seq<Span>>, k: nat, s: Span)
    requires Utf8.Valid(t) && Recorded(cfg, t, ORDER, parts) && k < |ORDER| && Reported(cfg, ORDER[k], t, s)
    ensures Covers(Chosen(t, Choice.Flat(parts)), s.start)
  {
    hide Utf8.Valid, Choice.Flat, ORDER, Sensitive, Chosen;
    assert Finds(cfg, ORDER[k], t, parts[k]);
    SensitiveIsLegal(cfg, ORDER[k], t, s);
    Choice.InFlat(parts, s);
    DetectedSpansAreHit(t, Choice.Flat(parts), s);
  }

  /** Text with nothing to report passes through unchanged. */
  lemma CleanTextKept(cfg: Config, t: string, parts: seq<seq<Span>>, out: string, count: nat)
    requires Utf8.Valid(t) && IsRedaction(cfg, t, parts, out, count)
    ensures count == 0 <==> forall k, s :: 0 <= k < |ORDER| ==> !Reported(cfg, ORDER[k], t, s)
    ensures count == 0 ==> out == t
  {
    hide Utf8.Valid, Choice.Flat, ORDER, Sensitive;
    if count == 0 {
      forall k, s | 0 <= k < |ORDER| ensures !Reported(cfg, ORDER[k], t, s) {
        if Reported(cfg, ORDER[k], t, s) { SensitiveIsHit(cfg, t, parts, k, s); }
      }
      assert t[0..] == t;
    } else {
      var c := Chosen(t, Choice.Flat(parts))[0];
      Choice.ChosenAreFirst(t, Choice.Flat(parts), c);
      Choice.InFlat(parts, c);
      var k :| 0 <= k < |parts| && c in parts[k];
      assert Finds(cfg, ORDER[k], t, parts[k]);
    }
  }

  // ---- What survives ----

  /** Some enabled detector reports the span. */
  ghost predicate ReportedBySome(cfg: Config, t: string, s: Span) {
    exists k :: 0 <= k < |ORDER| && Reported(cfg, ORDER[k], t, s)
  }

  lemma FlatIsReported(cfg: Config, t: string, parts: seq<seq<Span>>, s: Span)
    requires Recorded(cfg, t, ORDER, parts)
    ensures s in Choice.Flat(parts) <==> ReportedBySome(cfg, t, s)
  {
    hide ORDER, Reported, Choice.Flat;
    Choice.InFlat(parts, s);
    assert forall k :: 0 <= k < |parts| ==> Finds(cfg, ORDER[k], t, parts[k]);
  }

  /** Where no other reported span crosses into a reported one, no byte of it is left in the output. */
  lemma NothingSurvives(cfg: Config, t: string, parts: seq<seq<Span>>, s: Span)
    requires Utf8.Valid(t) && Recorded(cfg, t, ORDER, parts) && ReportedBySome(cfg, t, s)
    requires forall a :: ReportedBySome(cfg, t, a) ==> !Coverage.Crosses(a, s, |t|)
    ensures Coverage.WhollyCovered(Chosen(t, Choice.Flat(parts)), s)
  {
    hide Utf8.Valid, ORDER, Recorded, ReportedBySome, Choice.Flat, Chosen, Coverage.WhollyCovered;
    forall x ensures x in Choice.Flat(parts) <==> ReportedBySome(cfg, t, x) {
      FlatIsReported(cfg, t, parts, x);
    }
    AllLegal(cfg, t, parts);
    Coverage.UncrossedIsInside(t, Choice.Flat(parts), s);
  }

  /** For any text: everything reported is removed completely exactly when each applied span that ends inside a
      reported one is followed at once by another. */
  lemma NothingSurvivesIff(cfg: Config, t: string, parts: seq<seq<Span>>)
    requires Utf8.Valid(t) && Recorded(cfg, t, ORDER, parts)
    ensures (forall s :: ReportedBySome(cfg, t, s) ==> Coverage.WhollyCovered(Chosen(t, Choice.Flat(parts)), s))
      <==> Coverage.Continued(t, Choice.Flat(parts))
  {
    hide Utf8.Valid, ORDER, Recorded, ReportedBySome, Choice.Flat, Chosen, Coverage.WhollyCovered, Coverage.Continued;
    forall x ensures x in Choice.Flat(parts) <==> ReportedBySome(cfg, t, x) {
      FlatIsReported(cfg, t, parts, x);
    }
    AllLegal(cfg, t, parts);
    Coverage.NothingLeaksIff(t, Choice.Flat(parts));
  }
}
