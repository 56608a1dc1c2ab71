// What a parsed label reports and why the cascade acts or asks, stated from the output and the replies.
module LabelLaws {
  import opened Ascii
  import opened Clarify
  import opened LabelParser
  import opened Labels
  import opened Options

  // ---- Stripping ----

  /** What is stripped off both ends has no word character, and what is left begins and ends with one. */
  ghost predicate Stripped(word: CharClass, s: string, from: nat, end: nat) {
    && from <= end <= |s|
    && (forall i :: 0 <= i < from || end <= i < |s| ==> !word(s[i]))
    && (from < end ==> word(s[from]) && word(s[end - 1]))
  }

  lemma {:induction false} StripIs(word: CharClass, s: string) returns (from: nat, end: nat)
    ensures Stripped(word, s, from, end) && StripAffixes(word, s) == s[from..end]
    decreases |s|
  {
    if s == "" {
      from, end := 0, 0;
    } else if !word(s[0]) {
      var tail := s[1..];
      from, end := StripIs(word, tail);
      assert tail[from..end] == s[from + 1..end + 1];
      forall i | 0 <= i < from + 1 || end + 1 <= i < |s| ensures !word(s[i]) {
        if i > 0 { assert s[i] == tail[i - 1]; }
      }
      from, end := from + 1, end + 1;
    } else if !word(s[|s| - 1]) {
      var init := s[..|s| - 1];
      from, end := StripIs(word, init);
      assert init[from..end] == s[from..end];
      forall i | 0 <= i < from || end <= i < |s| ensures !word(s[i]) {
        if i < |s| - 1 { assert s[i] == init[i]; }
      }
    } else {
      from, end := 0, |s|;
      assert s[0..|s|] == s;
    }
  }

  // ---- What is reported ----

  ghost predicate IsNamed(labels: seq<Label>, core: string) { core != "" && exists l :: l in labels && Names(l, core) }

  /** The whole output is a surface form of the label. */
  ghost predicate ReportsWhole(l: Label, core: string, c: Classified) {
    && c.canonical == l.canonical && !c.ambiguous && (c.viaAlias <==> core != Lower(l.canonical))
    && c.confidence == if c.viaAlias then 0.9 else 1.0
  }

  /** The label is the earliest of those that stand in the output. */
  ghost predicate ReportsPart(word: CharClass, hay: string, labels: seq<Label>, w: nat, c: Classified) {
    && Wins(word, hay, labels, w) && c.canonical == labels[w].canonical
    && c.viaAlias == Place(word, hay, labels[w]).value.1 && (c.ambiguous <==> SeveralPresent(word, hay, labels))
    && c.confidence == (if c.viaAlias then 0.6 else 0.75) * (if c.ambiguous then 0.6 else 1.0)
  }

  lemma {:induction false} FastReports(labels: seq<Label>, core: string)
    ensures Fast(labels, core).Some? <==> exists l :: l in labels && Names(l, core)
    ensures Fast(labels, core).Some? ==> exists l :: l in labels && Names(l, core) && ReportsWhole(l, core, Fast(labels, core).value)
  {
    hide Names;
    if labels != [] {
      if Names(labels[0], core) {
        NamedReports(labels[0], core);
        assert labels[0] in labels;
      } else {
        FastReports(labels[1..], core);
        forall l | l in labels && Names(l, core) ensures l in labels[1..] {}
      }
    }
  }

  lemma NamedReports(l: Label, core: string)
    ensures ReportsWhole(l, core, Exact(l, core))
  {}

  /** Which label is read, how surely, and whether others stand in the output too. */
  lemma ParseReports(word: CharClass, output: string, labels: seq<Label>)
    ensures var (core, hay, r) := (Lower(StripAffixes(word, output)), Lower(output), Parsed(word, output, labels));
      if IsNamed(labels, core) then r.Some? && exists l :: l in labels && Names(l, core) && ReportsWhole(l, core, r.value)
      else
        && (r.None? <==> forall l :: l in labels ==> !Present(word, hay, l))
        && (r.Some? ==> exists w :: ReportsPart(word, hay, labels, w, r.value))
  {
    hide Fast, Slow, Names, ReportsWhole, Wins, Place, Present, SeveralPresent, StripAffixes, Lower;
    var (core, hay) := (Lower(StripAffixes(word, output)), Lower(output));
    FastReports(labels, core);
    if !IsNamed(labels, core) {
      SlowIs(word, hay, labels);
      if Slow(word, hay, labels).Some? {
        var w: nat :| Wins(word, hay, labels, w);
        assert ReportsPart(word, hay, labels, w, Slow(word, hay, labels).value);
      }
    }
  }

  // ---- Why the cascade acts or asks ----

  /** The first readable reply within the budget was the last one asked for. */
  ghost predicate ReadFrom(word: CharClass, replies: seq<Reply>, labels: seq<Label>, calls: nat, c: Classified) {
    && 1 <= calls <= |replies| && Read(word, replies[calls - 1], labels) == Some(c)
    && forall i :: 0 <= i < calls - 1 ==> Read(word, replies[i], labels).None?
  }

  /** No reply within the budget could be read, and no fallback is configured that can. */
  ghost predicate NothingRead(word: CharClass, replies: seq<Reply>, labels: seq<Label>, p: Policy, calls: nat) {
    && calls == (if p.maxAttempts < 1 then 1 else p.maxAttempts) <= |replies|
    && forall i :: 0 <= i < calls ==> Read(word, replies[i], labels).None?
  }

  ghost predicate Explained(word: CharClass, replies: seq<Reply>, labels: seq<Label>, p: Policy, calls: nat, o: Outcome) {
    match o
    case Act(c) =>
      || (ReadFrom(word, replies, labels, calls, c) && !(p.clarifyOnAmbiguous && c.ambiguous) && c.confidence >= p.minConfidence)
      || (NothingRead(word, replies, labels, p, calls) && p.fallbackOnParseFailure && Parsed(word, p.fallbackLabel, labels) == Some(c))
    case Ask(Ambiguous, best) =>
      best.Some? && ReadFrom(word, replies, labels, calls, best.value) && p.clarifyOnAmbiguous && best.value.ambiguous
    case Ask(LowConfidence(x, threshold), best) =>
      && best.Some? && ReadFrom(word, replies, labels, calls, best.value) && !(p.clarifyOnAmbiguous && best.value.ambiguous)
      && x == best.value.confidence < threshold == p.minConfidence
    case Ask(Unparseable, best) =>
      && best.None? && NothingRead(word, replies, labels, p, calls)
      && !(p.fallbackOnParseFailure && Parsed(word, p.fallbackLabel, labels).Some?)
      && exists i :: 0 <= i < calls && replies[i].Completion?
    case Ask(ModelUnavailable(detail), best) =>
      && best.None? && NothingRead(word, replies, labels, p, calls)
      && !(p.fallbackOnParseFailure && Parsed(word, p.fallbackLabel, labels).Some?)
      && (forall i :: 0 <= i < calls ==> replies[i].Failure?) && replies[calls - 1] == Failure(detail)
  }

  /** Every outcome of the cascade has its reason. */
  lemma OutcomeExplained(word: CharClass, replies: seq<Reply>, labels: seq<Label>, p: Policy, calls: nat, o: Outcome)
    requires Decides(word, replies, labels, p, calls, o)
    ensures Explained(word, replies, labels, p, calls, o)
  {
    hide Parsed;
    var n := Attempts(p);
    assert forall i :: 0 <= i < n ==> replies[..n][i] == replies[i];
  }
}
