// What a composition keeps of an answer, what it warns of, and which citations it sees in which order.
module CitationLaws {
  import opened Citations
  import opened Options

  /** How many sections and how many characters of lead a verbosity allows. */
  function MaxSections(v: Verbosity): nat { if v == Terse then 1 else if v == Normal then 4 else 12 }

  function MaxLead(v: Verbosity): nat { if v == Terse then 160 else if v == Normal then 400 else 800 }

  /** As many of the answer's sections as are allowed, from the first on. */
  lemma SectionsKept(a: Answer, v: Verbosity)
    ensures var kept := Composition(a, v).sections;
      && |kept| == (if |a.sections| < MaxSections(v) then |a.sections| else MaxSections(v))
      && forall i :: 0 <= i < |kept| ==> kept[i] == a.sections[i]
  {
    hide Number, CitedKeys, DanglingKeys, Uncited, Dangling, TruncateLead;
  }

  /** The lead as it is if it fits, and else cut to fit with an ellipsis at the end. */
  lemma LeadKept(a: Answer, v: Verbosity)
    ensures var (lead, n) := (Composition(a, v).lead, MaxLead(v));
      if |a.lead| <= n then lead == a.lead else |lead| == n && lead == a.lead[..n - 1] + ['\U{2026}']
  {
    hide Number, CitedKeys, DanglingKeys, Uncited, Dangling, Kept;
    if |a.lead| > MaxLead(v) {
      var lead := TruncateLead(a.lead, MaxLead(v)).0;
      assert lead == lead[..MaxLead(v) - 1] + [lead[MaxLead(v) - 1]];
    }
  }

  /** What was cut is warned of once, and nothing that was not. */
  lemma CutsWarned(a: Answer, v: Verbosity, w: Warning)
    requires w.LeadTruncated? || w.SectionsTruncated?
    ensures Times(Composition(a, v).warnings, w) ==
      if w.LeadTruncated? then
        (if |a.lead| > MaxLead(v) && w == LeadTruncated(|a.lead|, MaxLead(v)) then 1 else 0)
      else (if |a.sections| > MaxSections(v) && w == SectionsTruncated(|a.sections| - MaxSections(v)) then 1 else 0)
  {
    hide Number, CitedKeys, DanglingKeys, Uncited, Dangling, Times;
    var cuts, dangling, uncited := Cuts(a, v), Dangling(DanglingKeys(a, v)), Uncited(a.sources, CitedKeys(a, v));
    UncitedHolds(a.sources, CitedKeys(a, v), "");
    DanglingOnly(DanglingKeys(a, v), w);
    FirstOnly(cuts, dangling, uncited, w);
    CutTimes(a, v, w);
  }

  lemma DanglingOnly(keys: seq<string>, w: Warning)
    requires !w.DanglingCitation?
    ensures w !in Dangling(keys)
  {}

  lemma FirstOnly(w1: seq<Warning>, w2: seq<Warning>, w3: seq<Warning>, w: Warning)
    requires w !in w2 && w !in w3
    ensures Times(w1 + w2 + w3, w) == Times(w1, w)
  {
    assert w !in multiset(w2) && w !in multiset(w3);
    assert multiset(w1 + w2 + w3) == multiset(w1) + multiset(w2) + multiset(w3);
  }

  lemma CutTimes(a: Answer, v: Verbosity, w: Warning)
    requires w.LeadTruncated? || w.SectionsTruncated?
    ensures Times(Cuts(a, v), w) ==
      if w.LeadTruncated? then
        (if |a.lead| > MaxLead(v) && w == LeadTruncated(|a.lead|, MaxLead(v)) then 1 else 0)
      else (if |a.sections| > MaxSections(v) && w == SectionsTruncated(|a.sections| - MaxSections(v)) then 1 else 0)
  {
    hide Times;
    var cut := TruncateLead(a.lead, BoundsOf(v).maxLead).1;
    var max := MaxSections(v);
    var dropped := if |a.sections| > max then |a.sections| - max else 0;
    OneTimes(cut.Some?, LeadTruncated(|a.lead|, MaxLead(v)), w);
    OneTimes(|a.sections| > max, SectionsTruncated(dropped), w);
    PlusTimes(One(cut.Some?, LeadTruncated(|a.lead|, MaxLead(v))), One(|a.sections| > max, SectionsTruncated(dropped)), w);
  }

  function One(b: bool, w: Warning): seq<Warning> { if b then [w] else [] }

  lemma OneTimes(b: bool, x: Warning, w: Warning)
    ensures Times(One(b, x), w) == if b && x == w then 1 else 0
  {}

  lemma PlusTimes(a: seq<Warning>, b: seq<Warning>, w: Warning)
    ensures Times(a + b, w) == Times(a, w) + Times(b, w)
  {
    assert multiset(a + b) == multiset(a) + multiset(b);
  }

  // ---- Which citations, in which order ----

  /** Earlier section, or earlier in the same section. */
  predicate Earlier(p: (nat, nat), q: (nat, nat)) { p.0 < q.0 || (p.0 == q.0 && p.1 < q.1) }

  predicate CitesAt(sections: seq<Section>, p: (nat, nat), key: string) {
    p.0 < |sections| && p.1 < |sections[p.0].body| && sections[p.0].body[p.1] == Cite(key)
  }

  /** Each place holds a citation of its key. */
  ghost predicate Matching(sections: seq<Section>, places: seq<(nat, nat)>, keys: seq<string>) {
    |places| == |keys| && forall i :: 0 <= i < |places| ==> CitesAt(sections, places[i], keys[i])
  }

  ghost predicate Increasing(places: seq<(nat, nat)>) {
    forall i, j :: 0 <= i < j < |places| ==> Earlier(places[i], places[j])
  }

  ghost predicate Complete(sections: seq<Section>, places: seq<(nat, nat)>) {
    forall p: (nat, nat), key :: CitesAt(sections, p, key) ==> p in places
  }

  /** The places are those of all citations, in reading order, and the keys are theirs. */
  ghost predicate ReadInOrder(sections: seq<Section>, places: seq<(nat, nat)>, keys: seq<string>) {
    Matching(sections, places, keys) && Increasing(places) && Complete(sections, places)
  }

  function BodyPlaces(body: seq<Segment>, s: nat): seq<(nat, nat)> {
    if body == [] then []
    else
      var n := |body| - 1;
      BodyPlaces(body[..n], s) + if body[n].Cite? then [(s, n)] else []
  }

  lemma {:induction false} BodyInOrder(body: seq<Segment>, s: nat)
    ensures var (places, keys) := (BodyPlaces(body, s), SegmentKeys(body));
      && |places| == |keys|
      && (forall i :: 0 <= i < |places| ==> places[i].0 == s && places[i].1 < |body| && body[places[i].1] == Cite(keys[i]))
      && (forall i, j :: 0 <= i < j < |places| ==> places[i].1 < places[j].1)
      && (forall n: nat :: n < |body| && body[n].Cite? ==> (s, n) in places)
  {
    if body != [] { BodyInOrder(body[..|body| - 1], s); }
  }

  function Places(sections: seq<Section>): seq<(nat, nat)> {
    if sections == [] then []
    else
      var n := |sections| - 1;
      Places(sections[..n]) + BodyPlaces(sections[n].body, n)
  }

  /** The keys are those of all citations, in reading order. */
  lemma {:induction false} CiteKeysInOrder(sections: seq<Section>)
    ensures ReadInOrder(sections, Places(sections), CiteKeys(sections))
  {
    hide BodyPlaces, SegmentKeys;
    if sections != [] {
      var n := |sections| - 1;
      CiteKeysInOrder(sections[..n]);
      BodyInOrder(sections[n].body, n);
      OrderMore(sections, Places(sections[..n]), CiteKeys(sections[..n]), BodyPlaces(sections[n].body, n), SegmentKeys(sections[n].body));
    }
  }

  /** What one section adds to the places before it. */
  ghost predicate LastPlaces(sections: seq<Section>, more: seq<(nat, nat)>, moreKeys: seq<string>)
    requires sections != []
  {
    var n := |sections| - 1;
    && |more| == |moreKeys|
    && (forall i :: 0 <= i < |more| ==> more[i].0 == n && CitesAt(sections, more[i], moreKeys[i]))
    && (forall i, j :: 0 <= i < j < |more| ==> more[i].1 < more[j].1)
    && (forall k: nat :: k < |sections[n].body| && sections[n].body[k].Cite? ==> (n, k) in more)
  }

  lemma OrderMore(sections: seq<Section>, places: seq<(nat, nat)>, keys: seq<string>, more: seq<(nat, nat)>, moreKeys: seq<string>)
    requires sections != [] && ReadInOrder(sections[..|sections| - 1], places, keys) && LastPlaces(sections, more, moreKeys)
    ensures ReadInOrder(sections, places + more, keys + moreKeys)
  {
    hide Matching, Complete, LastPlaces, Increasing;
    MatchingMore(sections, places, keys, more, moreKeys);
    CompleteMore(sections, places, more, moreKeys);
    BeforeLast(sections, places, keys);
    LastOrder(sections, more, moreKeys);
    OrderIncreases(places, more, |sections| - 1);
  }

  lemma BeforeLast(sections: seq<Section>, places: seq<(nat, nat)>, keys: seq<string>)
    requires sections != [] && Matching(sections[..|sections| - 1], places, keys)
    ensures forall i :: 0 <= i < |places| ==> places[i].0 < |sections| - 1
  {
    forall i | 0 <= i < |places| ensures places[i].0 < |sections| - 1 {
      assert CitesAt(sections[..|sections| - 1], places[i], keys[i]);
    }
  }

  lemma LastOrder(sections: seq<Section>, more: seq<(nat, nat)>, moreKeys: seq<string>)
    requires sections != [] && LastPlaces(sections, more, moreKeys)
    ensures (forall i :: 0 <= i < |more| ==> more[i].0 == |sections| - 1)
    ensures forall i, j :: 0 <= i < j < |more| ==> more[i].1 < more[j].1
  {
    hide CitesAt;
  }

  lemma MatchingMore(sections: seq<Section>, places: seq<(nat, nat)>, keys: seq<string>, more: seq<(nat, nat)>, moreKeys: seq<string>)
    requires sections != [] && Matching(sections[..|sections| - 1], places, keys) && LastPlaces(sections, more, moreKeys)
    ensures Matching(sections, places + more, keys + moreKeys)
  {
    hide CitesAt;
    forall i | 0 <= i < |places| ensures CitesAt(sections, places[i], keys[i]) { StillCites(sections, places[i], keys[i]); }
  }

  lemma CompleteMore(sections: seq<Section>, places: seq<(nat, nat)>, more: seq<(nat, nat)>, moreKeys: seq<string>)
    requires sections != [] && Complete(sections[..|sections| - 1], places) && LastPlaces(sections, more, moreKeys)
    ensures Complete(sections, places + more)
  {
    hide CitesAt;
    forall p: (nat, nat), key | CitesAt(sections, p, key)
      ensures p in places + more
    {
      if p.0 < |sections| - 1 {
        StillCites(sections, p, key);
      } else {
        CitedLast(sections, p, key);
        assert (|sections| - 1, p.1) in more;
      }
    }
  }

  lemma StillCites(sections: seq<Section>, p: (nat, nat), key: string)
    requires sections != []
    ensures CitesAt(sections[..|sections| - 1], p, key) <==> p.0 < |sections| - 1 && CitesAt(sections, p, key)
  {}

  lemma CitedLast(sections: seq<Section>, p: (nat, nat), key: string)
    requires CitesAt(sections, p, key) && p.0 >= |sections| - 1
    ensures p.0 == |sections| - 1 && p.1 < |sections[p.0].body| && sections[p.0].body[p.1].Cite?
  {}

  lemma OrderIncreases(places: seq<(nat, nat)>, more: seq<(nat, nat)>, n: nat)
    requires Increasing(places) && (forall i :: 0 <= i < |places| ==> places[i].0 < n)
    requires (forall i :: 0 <= i < |more| ==> more[i].0 == n) && forall i, j :: 0 <= i < j < |more| ==> more[i].1 < more[j].1
    ensures Increasing(places + more)
  {}
}
