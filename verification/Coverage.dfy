// Which bytes of detected spans the rebuild removes, and when it removes them all.
module Coverage {
  import opened Choice
  import opened Spans

  /** The second span begins inside the first and ends after it. */
  predicate Crosses(a: Span, b: Span, n: nat) {
    InRange(a, n) && InRange(b, n) && a.start < b.start < a.end < b.end
  }

  ghost predicate SomeCross(spans: seq<Span>, n: nat) {
    exists a, b :: a in spans && b in spans && Crosses(a, b, n)
  }

  /** Every byte of `s` lies in one of the spans. */
  ghost predicate WhollyCovered(spans: seq<Span>, s: Span) {
    forall i :: s.start <= i < s.end ==> Covers(spans, i)
  }

  /** No byte of an in-range detected span is left in the redacted text. */
  ghost predicate NothingLeaks(text: string, spans: seq<Span>) {
    forall s :: s in spans && InRange(s, |text|) ==> WhollyCovered(Chosen(text, spans), s)
  }

  lemma {:induction false} LongestAtStart(chosen: seq<Span>, cursor: nat, n: nat, hits: set<Span>, c: Span, s: Span)
    requires Greedy(chosen, cursor, n, hits) && c in chosen && s in hits && InRange(s, n) && s.start == c.start
    ensures cursor <= c.start && s.end <= c.end
    decreases |chosen|
  {
    var head, tail := chosen[0], chosen[1..];
    if c != head {
      assert c in tail;
      LongestAtStart(tail, head.end, n, hits, c, s);
    }
  }

  /** A detected span that crosses out of no other lies inside one applied span. */
  lemma UncrossedIsInside(text: string, spans: seq<Span>, s: Span)
    requires s in spans && InRange(s, |text|)
    requires forall a :: a in spans ==> !Crosses(a, s, |text|)
    ensures WhollyCovered(Chosen(text, spans), s)
  {
    hide Chosen, Greedy;
    DetectedSpansAreHit(text, spans, s);
    var c :| c in Chosen(text, spans) && c.start <= s.start < c.end;
    if c.start == s.start {
      ChosenIsGreedy(text, spans);
      LongestAtStart(Chosen(text, spans), 0, |text|, SetOf(spans), c, s);
    }
    assert c in spans && !Crosses(c, s, |text|);
  }

  /** If no two detected spans cross, none of their bytes survives. */
  lemma UncrossedNeverLeak(text: string, spans: seq<Span>)
    requires !SomeCross(spans, |text|)
    ensures NothingLeaks(text, spans)
  {
    hide Chosen, WhollyCovered;
    forall s | s in spans && InRange(s, |text|)
      ensures WhollyCovered(Chosen(text, spans), s)
    {
      UncrossedIsInside(text, spans, s);
    }
  }

  /** Of two crossing spans only the first is applied: the rest of the second stays in clear. */
  lemma CrossingLeaks(text: string, a: Span, b: Span)
    requires Crosses(a, b, |text|)
    ensures Chosen(text, [a, b]) == [a] && !Covers(Chosen(text, [a, b]), a.end) && !NothingLeaks(text, [a, b])
  {
    assert [a, b][1..] == [b] && [b][1..] == [];
    assert Sort([b]) == [b];
    assert Sort([a, b]) == [a, b];
    assert Applied([b], a.end, |text|) == [];
    assert b in [a, b] && !Covers([a], a.end);
  }

  /** Every selection of the detected spans is removed completely exactly when no two of them cross. */
  lemma LeakFreeIff(text: string, spans: seq<Span>)
    ensures (forall part: seq<Span> :: SetOf(part) <= SetOf(spans) ==> NothingLeaks(text, part)) <==> !SomeCross(spans, |text|)
  {
    hide NothingLeaks, Crosses;
    if SomeCross(spans, |text|) {
      var a, b :| a in spans && b in spans && Crosses(a, b, |text|);
      assert SetOf([a, b]) <= SetOf(spans);
      CrossingLeaks(text, a, b);
    } else {
      forall part: seq<Span> | SetOf(part) <= SetOf(spans)
        ensures NothingLeaks(text, part)
      {
        assert forall s :: s in part ==> s in SetOf(part);
        UncrossedNeverLeak(text, part);
      }
    }
  }

  /** Wherever an applied span ends inside a detected one, the next applied span follows at once. */
  ghost predicate Continued(text: string, spans: seq<Span>) {
    forall c, s :: c in Chosen(text, spans) && s in spans && InRange(s, |text|) && s.start < c.end < s.end ==>
      Covers(Chosen(text, spans), c.end)
  }

  lemma {:induction false} CoveredFromStart(text: string, spans: seq<Span>, s: Span, i: nat)
    requires Continued(text, spans) && s in spans && InRange(s, |text|) && s.start <= i < s.end
    ensures Covers(Chosen(text, spans), i)
    decreases i
  {
    hide Chosen;
    if i == s.start {
      DetectedSpansAreHit(text, spans, s);
    } else {
      CoveredFromStart(text, spans, s, i - 1);
      var c :| c in Chosen(text, spans) && c.start <= i - 1 < c.end;
      if c.end == i { assert s.start < c.end < s.end; }
    }
  }

  /** For one text: nothing leaks exactly when every applied span that ends inside a detected one is continued. */
  lemma NothingLeaksIff(text: string, spans: seq<Span>)
    ensures NothingLeaks(text, spans) <==> Continued(text, spans)
  {
    hide Chosen, Covers;
    if Continued(text, spans) {
      forall s, i | s in spans && InRange(s, |text|) && s.start <= i < s.end
        ensures Covers(Chosen(text, spans), i)
      {
        CoveredFromStart(text, spans, s, i);
      }
    } else {
      var c, s :| c in Chosen(text, spans) && s in spans && InRange(s, |text|) && s.start < c.end < s.end
        && !Covers(Chosen(text, spans), c.end);
      assert !WhollyCovered(Chosen(text, spans), s);
    }
  }
}
