// Acting or asking: the clarify gate and the bounded repair loop around the model.
module Clarify {
  import opened Ascii
  import opened LabelParser
  import opened Labels
  import opened Options

  datatype Policy = Policy(
    minConfidence: real, clarifyOnAmbiguous: bool, maxAttempts: nat, fallbackOnParseFailure: bool, fallbackLabel: string)

  datatype Reason =
    | LowConfidence(confidence: real, threshold: real)
    | Ambiguous
    | Unparseable
    | ModelUnavailable(detail: string)

  datatype Outcome = Act(read: Classified) | Ask(reason: Reason, best: Option<Classified>)

  /** What one model call brings: a completion or a transport failure. */
  datatype Reply = Completion(raw: string) | Failure(detail: string)

  const DEFAULT := Policy(0.7, true, 2, false, "qa")

  /** `ClarifyPolicy::gate`. */
  function Gate(p: Policy, c: Classified): Outcome {
    if p.clarifyOnAmbiguous && c.ambiguous then Ask(Ambiguous, Some(c))
    else if c.confidence < p.minConfidence then Ask(LowConfidence(c.confidence, p.minConfidence), Some(c))
    else Act(c)
  }

  /** At least one call is made. */
  function Attempts(p: Policy): (n: nat)
    ensures n >= 1
  {
    if p.maxAttempts < 1 then 1 else p.maxAttempts
  }

  function Read(word: CharClass, reply: Reply, labels: seq<Label>): Option<Classified> {
    match reply
    case Completion(raw) => Parsed(word, raw, labels)
    case Failure(_) => None
  }

  /** What the cascade decides when no reply can be read. */
  function GiveUp(word: CharClass, replies: seq<Reply>, labels: seq<Label>, p: Policy): Outcome
    requires replies != []
  {
    var fallback := if p.fallbackOnParseFailure then Parsed(word, p.fallbackLabel, labels) else None;
    if fallback.Some? then Act(fallback.value)
    else if exists i :: 0 <= i < |replies| && replies[i].Completion? then Ask(Unparseable, None)
    else
      var last := replies[|replies| - 1];
      Ask(ModelUnavailable(if last.Failure? then last.detail else "no model response"), None)
  }

  /** The first readable reply within the budget decides; else the cascade gives up. */
  ghost predicate Decides(word: CharClass, replies: seq<Reply>, labels: seq<Label>, p: Policy, calls: nat, o: Outcome) {
    var n := Attempts(p);
    && 1 <= calls <= n <= |replies|
    && (forall i :: 0 <= i < calls - 1 ==> Read(word, replies[i], labels).None?)
    && match Read(word, replies[calls - 1], labels)
       case Some(c) => o == Gate(p, c)
       case None => calls == n && o == GiveUp(word, replies[..n], labels, p)
  }

  /** `classify_constrained`; `replies` is what the model would answer call after call. */
  method ClassifyConstrained(word: CharClass, replies: seq<Reply>, labels: seq<Label>, p: Policy)
    returns (outcome: Outcome, calls: nat)
    requires Attempts(p) <= |replies|
    ensures Decides(word, replies, labels, p, calls, outcome)
  {
    hide Parsed;
    var attempts := Attempts(p);
    var gotResponse := false;
    var lastError: Option<string> := None;
    calls := 0;
    for i := 0 to attempts
      invariant calls == i && forall j :: 0 <= j < i ==> Read(word, replies[j], labels).None?
      invariant gotResponse <==> exists j :: 0 <= j < i && replies[j].Completion?
      invariant !gotResponse ==> lastError == if i == 0 then None else Some(replies[i - 1].detail)
    {
      calls := i + 1;
      match replies[i]
      case Completion(raw) =>
        gotResponse := true;
        var c := ParseLabel(word, raw, labels);
        if c.Some? {
          return Gate(p, c.value), calls;
        }
      case Failure(detail) => lastError := Some(detail);
    }
    ghost var tried := replies[..attempts];
    assert gotResponse <==> exists j :: 0 <= j < |tried| && tried[j].Completion? by {
      assert forall j :: 0 <= j < attempts ==> tried[j] == replies[j];
    }
    var reason :=
      if gotResponse then Unparseable
      else ModelUnavailable(if lastError.Some? then lastError.value else "no model response");
    if p.fallbackOnParseFailure {
      var c := ParseLabel(word, p.fallbackLabel, labels);
      if c.Some? {
        return Act(c.value), calls;
      }
    }
    outcome := Ask(reason, None);
  }

  /** The replies and the budget determine the outcome and the number of calls. */
  lemma DecisionUnique(word: CharClass, replies: seq<Reply>, labels: seq<Label>, p: Policy, calls: nat, o: Outcome,
                       calls': nat, o': Outcome)
    requires Decides(word, replies, labels, p, calls, o) && Decides(word, replies, labels, p, calls', o')
    ensures calls == calls' && o == o'
  {
    hide Read, Gate, GiveUp;
  }

  /** Whatever a parse returns is one of the labels, at one of six confidences. */
  lemma ParsedIsLabel(word: CharClass, output: string, labels: seq<Label>)
    requires Parsed(word, output, labels).Some?
    ensures var c := Parsed(word, output, labels).value;
      && (exists l :: l in labels && l.canonical == c.canonical)
      && (c.ambiguous ==> c.confidence == (if c.viaAlias then 0.36 else 0.45))
      && (!c.ambiguous ==> c.confidence in if c.viaAlias then {0.9, 0.6} else {1.0, 0.75})
  {
    hide Fast, Slow, StripAffixes, Place, Names;
    var core := Lower(StripAffixes(word, output));
    FastIs(labels, core);
    if !(core != "" && Fast(labels, core).Some?) {
      SlowIs(word, Lower(output), labels);
    }
  }

  /**
   * Acting is safe: the label acted on is in the vocabulary, and - unless it is the fallback after every call failed to
   * parse - it was read from a reply with enough confidence and without a forbidden ambiguity.
   */
  lemma ActingIsSafe(word: CharClass, replies: seq<Reply>, labels: seq<Label>, p: Policy, calls: nat, c: Classified)
    requires Decides(word, replies, labels, p, calls, Act(c))
    ensures exists l :: l in labels && l.canonical == c.canonical
    ensures if Read(word, replies[calls - 1], labels).Some?
      then c.confidence >= p.minConfidence && !(p.clarifyOnAmbiguous && c.ambiguous)
      else p.fallbackOnParseFailure && forall i :: 0 <= i < Attempts(p) ==> Read(word, replies[i], labels).None?
  {
    hide Parsed;
    match Read(word, replies[calls - 1], labels)
    case Some(read) => ParsedIsLabel(word, replies[calls - 1].raw, labels);
    case None => ParsedIsLabel(word, p.fallbackLabel, labels);
  }

  /** Under the default policy a reading is acted on exactly when it is unambiguous and not an alias buried in prose. */
  lemma DefaultActsIff(word: CharClass, output: string, labels: seq<Label>)
    requires Parsed(word, output, labels).Some?
    ensures var c := Parsed(word, output, labels).value;
      Gate(DEFAULT, c).Act? <==> !c.ambiguous && c.confidence != EMBEDDED_ALIAS
  {
    hide Parsed;
    ParsedIsLabel(word, output, labels);
  }
}
