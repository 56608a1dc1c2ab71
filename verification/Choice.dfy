// Which spans win: the greedy choice as a law on the set of detected spans, and the label of a tie.
module Choice {
  import opened Spans

  predicate SameRange(a: Span, b: Span) { a.start == b.start && a.end == b.end }

  /** What remains after `cursor` begins with the earliest, then longest, span, and so on. */
  ghost predicate Greedy(chosen: seq<Span>, cursor: nat, n: nat, hits: set<Span>) {
    if chosen == [] then forall s :: s in hits && InRange(s, n) ==> s.start < cursor
    else
      && var c := chosen[0];
      && c in hits && InRange(c, n) && cursor <= c.start
      && (forall s :: s in hits && InRange(s, n) && cursor <= s.start ==> Before(c, s))
      && Greedy(chosen[1..], c.end, n, hits)
  }

  ghost function SetOf(s: seq<Span>): set<Span> { set x | x in s }

  lemma {:induction false} GreedyWithEarlier(chosen: seq<Span>, cursor: nat, n: nat, hits: set<Span>, x: Span)
    requires Greedy(chosen, cursor, n, hits) && (x.start < cursor || !InRange(x, n))
    ensures Greedy(chosen, cursor, n, hits + {x})
    decreases |chosen|
  {
    if chosen != [] { GreedyWithEarlier(chosen[1..], chosen[0].end, n, hits, x); }
  }

  lemma {:induction false} AppliedIsGreedy(sorted: seq<Span>, cursor: nat, n: nat)
    requires Sorted(sorted)
    ensures Greedy(Applied(sorted, cursor, n), cursor, n, SetOf(sorted))
    decreases |sorted|
  {
    if sorted != [] {
      var head, tail := sorted[0], sorted[1..];
      assert sorted == [head] + tail;
      assert SetOf(sorted) == SetOf(tail) + {head};
      if head.start < cursor || !InRange(head, n) {
        AppliedIsGreedy(tail, cursor, n);
        GreedyWithEarlier(Applied(tail, cursor, n), cursor, n, SetOf(tail), head);
      } else {
        AppliedIsGreedy(tail, head.end, n);
        GreedyWithEarlier(Applied(tail, head.end, n), head.end, n, SetOf(tail), head);
        assert ([head] + Applied(tail, head.end, n))[1..] == Applied(tail, head.end, n);
        forall s | s in SetOf(sorted)
          ensures Before(head, s)
        {
          var i :| 0 <= i < |sorted| && sorted[i] == s;
        }
      }
    }
  }

  /** The applied spans are the greedy choice among the detected ones. */
  lemma ChosenIsGreedy(text: string, spans: seq<Span>)
    ensures Greedy(Chosen(text, spans), 0, |text|, SetOf(spans))
  {
    SortSorts(spans);
    AppliedIsGreedy(Sort(spans), 0, |text|);
    forall s
      ensures s in SetOf(spans) <==> s in SetOf(Sort(spans))
    {
      assert s in multiset(spans) <==> s in multiset(Sort(spans));
    }
    assert SetOf(spans) == SetOf(Sort(spans));
  }

  ghost predicate SameRanges(a: seq<Span>, b: seq<Span>) {
    |a| == |b| && forall i :: 0 <= i < |a| ==> SameRange(a[i], b[i])
  }

  /** The ranges of the greedy choice depend on the set of detected spans alone. */
  lemma {:induction false} GreedyUnique(a: seq<Span>, b: seq<Span>, cursor: nat, n: nat, hits: set<Span>)
    requires Greedy(a, cursor, n, hits) && Greedy(b, cursor, n, hits)
    ensures SameRanges(a, b)
    decreases |a|
  {
    if a != [] && b != [] {
      assert SameRange(a[0], b[0]);
      GreedyUnique(a[1..], b[1..], a[0].end, n, hits);
      assert a == [a[0]] + a[1..] && b == [b[0]] + b[1..];
    }
  }

  // ---- Ties ----

  /** The first pushed span with the range of `x`. */
  function FirstLike(spans: seq<Span>, x: Span): Span {
    if spans == [] then x else if SameRange(spans[0], x) then spans[0] else FirstLike(spans[1..], x)
  }

  lemma {:induction false} FirstLikeInsert(x: Span, s: seq<Span>, y: Span)
    ensures FirstLike(Insert(x, s), y) == if SameRange(x, y) then x else FirstLike(s, y)
  {
    if s != [] && !Before(x, s[0]) {
      FirstLikeInsert(x, s[1..], y);
      assert ([s[0]] + Insert(x, s[1..]))[1..] == Insert(x, s[1..]);
    } else {
      assert ([x] + s)[1..] == s;
    }
  }

  /** The sort keeps the order of spans with one range. */
  lemma {:induction false} SortKeepsFirst(spans: seq<Span>, y: Span)
    ensures FirstLike(Sort(spans), y) == FirstLike(spans, y)
  {
    if spans != [] {
      SortKeepsFirst(spans[1..], y);
      FirstLikeInsert(spans[0], Sort(spans[1..]), y);
    }
  }

  lemma {:induction false} AppliedAreFirst(sorted: seq<Span>, cursor: nat, n: nat, c: Span)
    requires cursor <= n && c in Applied(sorted, cursor, n)
    ensures cursor <= c.start && InRange(c, n) && FirstLike(sorted, c) == c
    decreases |sorted|
  {
    var head, tail := sorted[0], sorted[1..];
    if head.start < cursor || !InRange(head, n) {
      AppliedAreFirst(tail, cursor, n, c);
    } else {
      assert Applied(sorted, cursor, n) == [head] + Applied(tail, head.end, n);
      if c != head { AppliedAreFirst(tail, head.end, n, c); }
    }
  }

  /** Of several spans over one range, the one pushed first gives the label. */
  lemma ChosenAreFirst(text: string, spans: seq<Span>, c: Span)
    requires c in Chosen(text, spans)
    ensures c in spans && FirstLike(spans, c) == c
  {
    AppliedAreFirst(Sort(spans), 0, |text|, c);
    SortKeepsFirst(spans, c);
    AppliedIsChain(Sort(spans), 0, |text|);
    SortSorts(spans);
    assert c in multiset(Sort(spans));
  }

  // ---- Spans pushed by several detectors in turn ----

  function Flat(parts: seq<seq<Span>>): seq<Span> {
    if parts == [] then [] else parts[0] + Flat(parts[1..])
  }

  lemma {:induction false} FlatAppend(parts: seq<seq<Span>>, more: seq<Span>)
    ensures Flat(parts + [more]) == Flat(parts) + more
  {
    if parts != [] {
      assert (parts + [more])[0] == parts[0] && (parts + [more])[1..] == parts[1..] + [more];
      FlatAppend(parts[1..], more);
    } else {
      assert (parts + [more])[1..] == [];
    }
  }

  lemma {:induction false} InFlat(parts: seq<seq<Span>>, s: Span)
    ensures s in Flat(parts) <==> exists d :: 0 <= d < |parts| && s in parts[d]
  {
    if parts != [] {
      InFlat(parts[1..], s);
      assert parts == [parts[0]] + parts[1..];
      if s in Flat(parts[1..]) {
        var d :| 0 <= d < |parts[1..]| && s in parts[1..][d];
        assert s in parts[d + 1];
      }
    }
  }

  /** The detectors found the same spans, whatever order and however often each pushed them. */
  ghost predicate SameFinds(a: seq<seq<Span>>, b: seq<seq<Span>>) {
    |a| == |b| && forall d :: 0 <= d < |a| ==> SameMembers(a[d], b[d])
  }

  ghost predicate SameMembers(a: seq<Span>, b: seq<Span>) {
    forall s :: s in a <==> s in b
  }

  /** Each detector uses one label. */
  ghost predicate OneLabelEach(parts: seq<seq<Span>>) {
    forall d :: 0 <= d < |parts| ==> OneLabel(parts[d])
  }

  ghost predicate OneLabel(part: seq<Span>) {
    forall s, t :: s in part && t in part ==> s.mark == t.mark
  }

  lemma {:induction false} FirstLikeConcat(a: seq<Span>, b: seq<Span>, x: Span)
    ensures FirstLike(a + b, x) == if exists s :: s in a && SameRange(s, x) then FirstLike(a, x) else FirstLike(b, x)
    ensures (exists s :: s in a && SameRange(s, x)) ==> FirstLike(a, x) in a && SameRange(FirstLike(a, x), x)
  {
    if a == [] {
      assert a + b == b;
    } else {
      assert (a + b)[1..] == a[1..] + b && a == [a[0]] + a[1..];
      FirstLikeConcat(a[1..], b, x);
    }
  }

  lemma {:induction false} FirstLikeOfFinds(a: seq<seq<Span>>, b: seq<seq<Span>>, x: Span)
    requires SameFinds(a, b) && OneLabelEach(a)
    ensures FirstLike(Flat(a), x) == FirstLike(Flat(b), x)
  {
    if a != [] {
      assert SameMembers(a[0], b[0]) && OneLabel(a[0]);
      assert SameFinds(a[1..], b[1..]) by {
        forall d | 0 <= d < |a[1..]| ensures SameMembers(a[1..][d], b[1..][d]) { assert SameMembers(a[d + 1], b[d + 1]); }
      }
      assert OneLabelEach(a[1..]) by {
        forall d | 0 <= d < |a[1..]| ensures OneLabel(a[1..][d]) { assert OneLabel(a[d + 1]); }
      }
      FirstLikeConcat(a[0], Flat(a[1..]), x);
      FirstLikeConcat(b[0], Flat(b[1..]), x);
      FirstLikeOfFinds(a[1..], b[1..], x);
    }
  }

  lemma FindsGiveSet(a: seq<seq<Span>>, b: seq<seq<Span>>)
    requires SameFinds(a, b)
    ensures SetOf(Flat(a)) == SetOf(Flat(b))
  {
    forall s
      ensures s in SetOf(Flat(a)) <==> s in SetOf(Flat(b))
    {
      InFlat(a, s);
      InFlat(b, s);
      assert forall d :: 0 <= d < |a| ==> SameMembers(a[d], b[d]);
    }
  }

  lemma TieDecided(text: string, a: seq<seq<Span>>, b: seq<seq<Span>>, x: Span, y: Span)
    requires SameFinds(a, b) && OneLabelEach(a) && SameRange(x, y)
    requires x in Chosen(text, Flat(a)) && y in Chosen(text, Flat(b))
    ensures x == y
  {
    hide Chosen;
    ChosenAreFirst(text, Flat(a), x);
    ChosenAreFirst(text, Flat(b), y);
    FirstLikeOfFinds(a, b, x);
    SameRangeFirst(Flat(b), x, y);
  }

  /** The redacted text depends only on what each detector finds. */
  lemma FindsDecide(text: string, a: seq<seq<Span>>, b: seq<seq<Span>>)
    requires SameFinds(a, b) && OneLabelEach(a)
    ensures Chosen(text, Flat(a)) == Chosen(text, Flat(b)) && Redacted(text, Flat(a)) == Redacted(text, Flat(b))
  {
    hide Chosen, Flat, SameFinds, OneLabelEach, Rebuild;
    var ca, cb := Chosen(text, Flat(a)), Chosen(text, Flat(b));
    FindsGiveSet(a, b);
    ChosenIsGreedy(text, Flat(a));
    ChosenIsGreedy(text, Flat(b));
    GreedyUnique(ca, cb, 0, |text|, SetOf(Flat(a)));
    forall i | 0 <= i < |ca|
      ensures ca[i] == cb[i]
    {
      TieDecided(text, a, b, ca[i], cb[i]);
    }
    assert ca == cb;
  }

  lemma {:induction false} SameRangeFirst(spans: seq<Span>, x: Span, y: Span)
    requires SameRange(x, y) && y in spans
    ensures FirstLike(spans, x) == FirstLike(spans, y)
  {
    if !SameRange(spans[0], y) { SameRangeFirst(spans[1..], x, y); }
  }
}
