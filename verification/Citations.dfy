// Composing an answer: bounding its size and numbering its citations.
module Citations {
  import opened Options
  import Decimal

  datatype Citation = Citation(key: string, title: string, locator: Option<string>)

  datatype Segment =
    | Text(text: string)
    | Cite(key: string)
    | Code(language: Option<string>, source: string)
    | Table(headers: seq<string>, rows: seq<seq<string>>)

  datatype Section = Section(heading: string, body: seq<Segment>)

  datatype Answer = Answer(lead: string, sections: seq<Section>, sources: seq<Citation>)

  datatype Verbosity = Terse | Normal | Detailed

  datatype Bounds = Bounds(maxSections: nat, maxLead: nat)

  datatype Reference = Reference(number: nat, citation: Citation)

  datatype Warning =
    | DanglingCitation(key: string)
    | UncitedSource(key: string)
    | SectionsTruncated(dropped: nat)
    | LeadTruncated(original: nat, kept: nat)

  datatype Composed = Composed(lead: string, sections: seq<Section>, references: seq<Reference>, warnings: seq<Warning>)

  function BoundsOf(v: Verbosity): Bounds {
    match v
    case Terse => Bounds(1, 160)
    case Normal => Bounds(4, 400)
    case Detailed => Bounds(12, 800)
  }

  // ---- The lead ----

  const ELLIPSIS := '\U{2026}'

  /** `truncate_lead`: never longer than the bound, and cut only when it has to be. */
  function TruncateLead(lead: string, max: nat): (r: (string, Option<Warning>))
    ensures max > 0 ==> |r.0| <= max
    ensures r.1.None? <==> |lead| <= max
    ensures |lead| <= max ==> r.0 == lead
    ensures 0 < max < |lead| ==> |r.0| == max && r.0[..max - 1] == lead[..max - 1] && r.0[max - 1] == ELLIPSIS
  {
    if |lead| <= max then (lead, None)
    else
      var keep := if max == 0 then 0 else max - 1;
      var out := lead[..keep] + [ELLIPSIS];
      (out, Some(LeadTruncated(|lead|, |out|)))
  }

  // ---- What is cited ----

  function SegmentKeys(body: seq<Segment>): seq<string> {
    if body == [] then []
    else
      var last := body[|body| - 1];
      SegmentKeys(body[..|body| - 1]) + if last.Cite? then [last.key] else []
  }

  /** The cite keys in reading order. */
  function CiteKeys(sections: seq<Section>): seq<string> {
    if sections == [] then []
    else CiteKeys(sections[..|sections| - 1]) + SegmentKeys(sections[|sections| - 1].body)
  }

  /** The distinct keys, in order of first appearance. */
  function Distinct(keys: seq<string>): (d: seq<string>)
    ensures forall k :: k in d <==> k in keys
  {
    if keys == [] then []
    else
      var d, k := Distinct(keys[..|keys| - 1]), keys[|keys| - 1];
      assert keys == keys[..|keys| - 1] + [k];
      if k in d then d else d + [k]
  }

  function Find(sources: seq<Citation>, key: string): (c: Option<Citation>)
    ensures c.None? <==> forall s :: s in sources ==> s.key != key
    ensures c.Some? ==> c.value in sources && c.value.key == key
  {
    if sources == [] then None
    else if sources[0].key == key then Some(sources[0])
    else Find(sources[1..], key)
  }

  predicate InPool(sources: seq<Citation>, key: string) { Find(sources, key).Some? }

  /** The keys that are in the pool, or the ones that are not. */
  function Select(sources: seq<Citation>, keys: seq<string>, known: bool): (s: seq<string>)
    ensures forall k :: k in s <==> k in keys && InPool(sources, k) == known
    ensures forall i :: 0 <= i < |s| ==> InPool(sources, s[i]) == known
  {
    if keys == [] then []
    else
      var k := keys[|keys| - 1];
      assert keys == keys[..|keys| - 1] + [k];
      Select(sources, keys[..|keys| - 1], known) + if InPool(sources, k) == known then [k] else []
  }

  function Number(sources: seq<Citation>, keys: seq<string>): (refs: seq<Reference>)
    requires forall i :: 0 <= i < |keys| ==> Find(sources, keys[i]).Some?
    ensures |refs| == |keys|
    ensures forall i :: 0 <= i < |keys| ==> refs[i] == Reference(i + 1, Find(sources, keys[i]).value)
  {
    seq(|keys|, i requires 0 <= i < |keys| => Reference(i + 1, Find(sources, keys[i]).value))
  }

  function Dangling(keys: seq<string>): (w: seq<Warning>)
    ensures |w| == |keys|
  {
    seq(|keys|, i requires 0 <= i < |keys| => DanglingCitation(keys[i]))
  }

  function Uncited(sources: seq<Citation>, cited: seq<string>): seq<Warning> {
    if sources == [] then []
    else
      var last := sources[|sources| - 1];
      Uncited(sources[..|sources| - 1], cited) + if last.key in cited then [] else [UncitedSource(last.key)]
  }

  function Kept(a: Answer, v: Verbosity): seq<Section> {
    var max := BoundsOf(v).maxSections;
    if |a.sections| > max then a.sections[..max] else a.sections
  }

  function CitedKeys(a: Answer, v: Verbosity): (keys: seq<string>)
    ensures forall k :: k in keys <==> k in CiteKeys(Kept(a, v)) && InPool(a.sources, k)
    ensures forall i :: 0 <= i < |keys| ==> Find(a.sources, keys[i]).Some?
  {
    Select(a.sources, Distinct(CiteKeys(Kept(a, v))), true)
  }

  function DanglingKeys(a: Answer, v: Verbosity): seq<string> {
    Select(a.sources, Distinct(CiteKeys(Kept(a, v))), false)
  }

  /** What right-sizing cut off. */
  function Cuts(a: Answer, v: Verbosity): (w: seq<Warning>)
    ensures forall x :: x in w ==> x.LeadTruncated? || x.SectionsTruncated?
  {
    var cut := TruncateLead(a.lead, BoundsOf(v).maxLead).1;
    var max := BoundsOf(v).maxSections;
    (if cut.Some? then [cut.value] else [])
      + if |a.sections| > max then [SectionsTruncated(|a.sections| - max)] else []
  }

  /** Cuts are warned of first, then dangling citations in reading order, then uncited sources in pool order. */
  function Composition(a: Answer, v: Verbosity): Composed {
    Composed(
      TruncateLead(a.lead, BoundsOf(v).maxLead).0, Kept(a, v), Number(a.sources, CitedKeys(a, v)),
      Cuts(a, v) + Dangling(DanglingKeys(a, v)) + Uncited(a.sources, CitedKeys(a, v)))
  }

  // ---- The composing loop ----

  /** The state after the cite keys `keys` have been met. */
  ghost predicate Resolved(sources: seq<Citation>, keys: seq<string>, refs: seq<Reference>, numbered: seq<string>,
                           danglingSeen: seq<string>) {
    && numbered == Select(sources, Distinct(keys), true)
    && danglingSeen == Select(sources, Distinct(keys), false)
    && (forall i :: 0 <= i < |numbered| ==> Find(sources, numbered[i]).Some?)
    && refs == Number(sources, numbered)
  }

  lemma ResolveStep(sources: seq<Citation>, keys: seq<string>, key: string)
    ensures var d := Distinct(keys);
      Distinct(keys + [key]) == (if key in keys then d else d + [key])
      && (forall known :: (
        Select(sources, d + [key], known) == Select(sources, d, known) + if InPool(sources, key) == known then [key] else []))
  {
    assert (keys + [key])[..|keys|] == keys;
    var d := Distinct(keys);
    assert (d + [key])[..|d|] == d;
  }

  /** One inline citation. */
  method Resolve(sources: seq<Citation>, key: string, ghost keys: seq<string>, refs0: seq<Reference>, numbered0: seq<string>,
                 danglingSeen0: seq<string>, warnings0: seq<Warning>, ghost before: seq<Warning>)
    returns (refs: seq<Reference>, numbered: seq<string>, danglingSeen: seq<string>, warnings: seq<Warning>)
    requires Resolved(sources, keys, refs0, numbered0, danglingSeen0) && warnings0 == before + Dangling(danglingSeen0)
    ensures Resolved(sources, keys + [key], refs, numbered, danglingSeen) && warnings == before + Dangling(danglingSeen)
  {
    hide Distinct, Select, Find;
    refs, numbered, danglingSeen, warnings := refs0, numbered0, danglingSeen0, warnings0;
    ResolveStep(sources, keys, key);
    if key in numbered {
      return;
    }
    match Find(sources, key)
    case Some(citation) =>
      numbered := numbered + [key];
      refs := refs + [Reference(|refs| + 1, citation)];
    case None =>
      if key !in danglingSeen {
        danglingSeen := danglingSeen + [key];
        warnings := warnings + [DanglingCitation(key)];
      }
  }

  method ResolveAll(sources: seq<Citation>, sections: seq<Section>, warnings0: seq<Warning>)
    returns (refs: seq<Reference>, numbered: seq<string>, warnings: seq<Warning>)
    ensures numbered == Select(sources, Distinct(CiteKeys(sections)), true) && refs == Number(sources, numbered)
    ensures warnings == warnings0 + Dangling(Select(sources, Distinct(CiteKeys(sections)), false))
  {
    hide Distinct, Select, Find, Number, Dangling;
    refs, numbered, warnings := [], [], warnings0;
    var danglingSeen := [];
    NothingCited(sources);
    for i := 0 to |sections|
      invariant Resolved(sources, CiteKeys(sections[..i]), refs, numbered, danglingSeen)
      invariant warnings == warnings0 + Dangling(danglingSeen)
    {
      var body := sections[i].body;
      ghost var before := CiteKeys(sections[..i]);
      assert before + SegmentKeys(body[..0]) == before;
      for j := 0 to |body|
        invariant Resolved(sources, before + SegmentKeys(body[..j]), refs, numbered, danglingSeen)
        invariant warnings == warnings0 + Dangling(danglingSeen)
      {
        assert body[..j + 1][..j] == body[..j];
        ghost var keys := before + SegmentKeys(body[..j]);
        if body[j].Cite? {
          refs, numbered, danglingSeen, warnings :=
            Resolve(sources, body[j].key, keys, refs, numbered, danglingSeen, warnings, warnings0);
          assert keys + [body[j].key] == before + SegmentKeys(body[..j + 1]);
        } else {
          assert keys == before + SegmentKeys(body[..j + 1]);
        }
      }
      assert body[..|body|] == body && sections[..i + 1][..i] == sections[..i];
    }
    assert sections[..|sections|] == sections;
  }

  lemma NothingCited(sources: seq<Citation>)
    ensures Resolved(sources, CiteKeys([]), [], [], []) && Dangling([]) == []
    ensures forall body: seq<Segment> :: SegmentKeys(body[..0]) == []
  {}

  method WarnUncited(sources: seq<Citation>, numbered: seq<string>, warnings0: seq<Warning>) returns (warnings: seq<Warning>)
    ensures warnings == warnings0 + Uncited(sources, numbered)
  {
    warnings := warnings0;
    for i := 0 to |sources|
      invariant warnings == warnings0 + Uncited(sources[..i], numbered)
    {
      assert sources[..i + 1][..i] == sources[..i];
      if sources[i].key !in numbered {
        warnings := warnings + [UncitedSource(sources[i].key)];
      }
    }
    assert sources[..|sources|] == sources;
  }

  /** The lead and the section count are bounded first. */
  method RightSize(a: Answer, v: Verbosity) returns (lead: string, sections: seq<Section>, warnings: seq<Warning>)
    ensures lead == TruncateLead(a.lead, BoundsOf(v).maxLead).0 && sections == Kept(a, v) && warnings == Cuts(a, v)
  {
    var bounds := BoundsOf(v);
    warnings := [];
    var (cutLead, cut) := TruncateLead(a.lead, bounds.maxLead);
    lead := cutLead;
    if cut.Some? {
      warnings := warnings + [cut.value];
    }
    sections := a.sections;
    if |sections| > bounds.maxSections {
      var dropped := |sections| - bounds.maxSections;
      sections := sections[..bounds.maxSections];
      warnings := warnings + [SectionsTruncated(dropped)];
    }
  }

  /** `Answer::compose`. */
  method Compose(a: Answer, v: Verbosity) returns (c: Composed)
    ensures c == Composition(a, v)
  {
    hide Distinct, Select, Find, Number, Dangling, Uncited, CiteKeys, TruncateLead, Cuts;
    var lead, sections, warnings := RightSize(a, v);
    var refs, numbered;
    refs, numbered, warnings := ResolveAll(a.sources, sections, warnings);
    warnings := WarnUncited(a.sources, numbered, warnings);
    c := Composed(lead, sections, refs, warnings);
  }

  // ---- What a composition promises ----

  ghost predicate NoRepeats(s: seq<string>) {
    forall i, j :: 0 <= i < j < |s| ==> s[i] != s[j]
  }

  function FirstIndex(keys: seq<string>, k: string): (i: nat)
    requires k in keys
    ensures i < |keys| && keys[i] == k && k !in keys[..i]
  {
    if keys[0] == k then 0
    else
      assert keys == [keys[0]] + keys[1..];
      var i := FirstIndex(keys[1..], k);
      assert keys[..i + 1] == [keys[0]] + keys[1..][..i];
      1 + i
  }

  lemma {:induction false} FirstIndexIs(keys: seq<string>, k: string, i: nat)
    requires i < |keys| && keys[i] == k && k !in keys[..i]
    ensures k in keys && FirstIndex(keys, k) == i
  {
    if i > 0 {
      assert keys[..i] == [keys[0]] + keys[1..][..i - 1];
      FirstIndexIs(keys[1..], k, i - 1);
    }
  }

  lemma FirstIndexOfPrefix(keys: seq<string>, n: nat, k: string)
    requires n <= |keys| && k in keys[..n]
    ensures k in keys && FirstIndex(keys, k) == FirstIndex(keys[..n], k)
  {
    var i := FirstIndex(keys[..n], k);
    assert keys[..n][..i] == keys[..i];
    FirstIndexIs(keys, k, i);
  }

  /** A listing of some of the keys, each once, in order of first appearance. */
  ghost predicate InFirstOrder(keys: seq<string>, s: seq<string>) {
    && NoRepeats(s)
    && (forall i :: 0 <= i < |s| ==> s[i] in keys)
    && forall i, j :: 0 <= i < j < |s| ==> FirstIndex(keys, s[i]) < FirstIndex(keys, s[j])
  }

  lemma {:induction false} DistinctInFirstOrder(keys: seq<string>)
    ensures InFirstOrder(keys, Distinct(keys))
  {
    hide FirstIndex;
    if keys != [] {
      var n := |keys| - 1;
      var init, k := keys[..n], keys[n];
      var d := Distinct(init);
      assert keys == init + [k];
      DistinctInFirstOrder(init);
      forall i | 0 <= i < |d|
        ensures d[i] in keys && FirstIndex(keys, d[i]) == FirstIndex(init, d[i]) < n
      {
        assert d[i] in init;
        FirstIndexOfPrefix(keys, n, d[i]);
      }
      if k !in d { FirstIndexIs(keys, k, n); }
    }
  }

  lemma {:induction false} SelectKeepsOrder(sources: seq<Citation>, keys: seq<string>, all: seq<string>, known: bool)
    requires InFirstOrder(all, keys)
    ensures InFirstOrder(all, Select(sources, keys, known))
  {
    hide FirstIndex, InFirstOrder, InPool;
    if keys != [] {
      var init, k := keys[..|keys| - 1], keys[|keys| - 1];
      InitInOrder(all, keys);
      SelectKeepsOrder(sources, init, all, known);
      var s := Select(sources, init, known);
      assert s + [] == s;
      PickInOrder(all, keys, s);
    } else {
      NothingInOrder(all);
    }
  }

  lemma NothingInOrder(all: seq<string>)
    ensures InFirstOrder(all, [])
  {}

  lemma InitInOrder(all: seq<string>, keys: seq<string>)
    requires keys != [] && InFirstOrder(all, keys)
    ensures InFirstOrder(all, keys[..|keys| - 1])
  {
    hide FirstIndex;
  }

  /** A selection from all but the last key, and the last key. */
  lemma PickInOrder(all: seq<string>, keys: seq<string>, s: seq<string>)
    requires keys != [] && InFirstOrder(all, keys) && InFirstOrder(all, s)
    requires forall k :: k in s ==> k in keys[..|keys| - 1]
    ensures InFirstOrder(all, s + [keys[|keys| - 1]])
  {
    hide FirstIndex;
    var init, k := keys[..|keys| - 1], keys[|keys| - 1];
    forall i | 0 <= i < |s|
      ensures s[i] != k && FirstIndex(all, s[i]) < FirstIndex(all, k)
    {
      assert s[i] in s && s[i] in init;
      var j :| 0 <= j < |init| && init[j] == s[i];
      assert keys[j] == s[i];
    }
  }

  /**
   * References are numbered 1..n without gaps, one for each key that is cited in a kept section and is in the pool,
   * in order of first appearance, each carrying the pool's first source with that key.
   */
  lemma ReferencesAreRight(a: Answer, v: Verbosity)
    ensures var refs, cited := Composition(a, v).references, CiteKeys(Kept(a, v));
      && (forall i :: 0 <= i < |refs| ==> refs[i].number == i + 1)
      && (forall i :: 0 <= i < |refs| ==> Some(refs[i].citation) == Find(a.sources, refs[i].citation.key))
      && InFirstOrder(cited, CitedKeys(a, v))
      && (forall i :: 0 <= i < |refs| ==> refs[i].citation.key == CitedKeys(a, v)[i])
      && (forall k :: k in CitedKeys(a, v) <==> k in cited && InPool(a.sources, k))
  {
    var cited := CiteKeys(Kept(a, v));
    DistinctInFirstOrder(cited);
    SelectKeepsOrder(a.sources, Distinct(cited), cited, true);
    var keys := CitedKeys(a, v);
    forall i | 0 <= i < |keys|
      ensures InPool(a.sources, keys[i])
    {
      assert keys[i] in keys;
    }
  }

  /** `number_for`. */
  function NumberFor(refs: seq<Reference>, key: string): Option<nat> {
    if refs == [] then None
    else if refs[0].citation.key == key then Some(refs[0].number)
    else NumberFor(refs[1..], key)
  }

  lemma {:induction false} NumberForIs(refs: seq<Reference>, keys: seq<string>, base: nat, key: string)
    requires |refs| == |keys| && NoRepeats(keys)
    requires forall i :: 0 <= i < |refs| ==> refs[i].citation.key == keys[i] && refs[i].number == base + i + 1
    ensures NumberFor(refs, key).None? <==> key !in keys
    ensures forall i :: 0 <= i < |keys| ==> (NumberFor(refs, key) == Some(base + i + 1) <==> keys[i] == key)
    decreases |refs|
  {
    if refs != [] {
      var tail := keys[1..];
      assert keys == [keys[0]] + tail;
      assert NoRepeats(tail) by {
        forall i, j | 0 <= i < j < |tail| ensures tail[i] != tail[j] { assert keys[i + 1] != keys[j + 1]; }
      }
      NumberForIs(refs[1..], tail, base + 1, key);
      forall i | 0 <= i < |keys|
        ensures NumberFor(refs, key) == Some(base + i + 1) <==> keys[i] == key
      {
        if i > 0 {
          assert keys[i] == tail[i - 1];
          assert NumberFor(refs[1..], key) == Some(base + 1 + (i - 1) + 1) <==> tail[i - 1] == key;
        } else if keys[0] != key {
          NumberAbove(refs[1..], base + 1, key);
        }
      }
    }
  }

  lemma {:induction false} NumberAbove(refs: seq<Reference>, base: nat, key: string)
    requires forall i :: 0 <= i < |refs| ==> refs[i].number == base + i + 1
    ensures NumberFor(refs, key).Some? ==> NumberFor(refs, key).value > base
    decreases |refs|
  {
    if refs != [] { NumberAbove(refs[1..], base + 1, key); }
  }

  /** `cite_marker`. */
  function CiteMarker(refs: seq<Reference>, key: string): string {
    match NumberFor(refs, key)
    case Some(n) => "[" + Decimal.Dec(n) + "]"
    case None => "[?]"
  }

  /** A cited key shows `[?]` exactly when it is not in the pool; two numbered keys show the same marker only when equal. */
  lemma MarkersIdentify(a: Answer, v: Verbosity, k1: string, k2: string)
    requires k1 in CiteKeys(Kept(a, v)) && k2 in CiteKeys(Kept(a, v))
    ensures var refs := Composition(a, v).references;
      && (CiteMarker(refs, k1) == "[?]" <==> !InPool(a.sources, k1))
      && (InPool(a.sources, k1) && InPool(a.sources, k2) ==> (CiteMarker(refs, k1) == CiteMarker(refs, k2) <==> k1 == k2))
  {
    hide CiteKeys, Find, Composition, CiteMarker, InPool;
    var refs, keys := Composition(a, v).references, CitedKeys(a, v);
    Markers(a, v);
    MarkerOf(refs, keys, k1);
    MarkerOf(refs, keys, k2);
    if k1 in keys && k2 in keys {
      var i, j :| 0 <= i < |keys| && keys[i] == k1 && 0 <= j < |keys| && keys[j] == k2;
      SameMarker(i + 1, j + 1);
    }
  }

  lemma MarkerOf(refs: seq<Reference>, keys: seq<string>, key: string)
    requires |refs| == |keys| && NoRepeats(keys)
    requires forall i :: 0 <= i < |refs| ==> refs[i].citation.key == keys[i] && refs[i].number == 0 + i + 1
    ensures CiteMarker(refs, key) == "[?]" <==> key !in keys
    ensures forall i :: 0 <= i < |keys| && keys[i] == key ==> CiteMarker(refs, key) == "[" + Decimal.Dec(i + 1) + "]"
  {
    hide NoRepeats;
    NumberForIs(refs, keys, 0, key);
    if key in keys {
      var i :| 0 <= i < |keys| && keys[i] == key;
      MarkerText(i + 1);
    }
  }

  lemma Markers(a: Answer, v: Verbosity)
    ensures var refs, keys := Composition(a, v).references, CitedKeys(a, v);
      && |refs| == |keys| && NoRepeats(keys)
      && forall i :: 0 <= i < |refs| ==> refs[i].citation.key == keys[i] && refs[i].number == 0 + i + 1
  {
    hide CiteKeys, Find, Select, Distinct;
    ReferencesAreRight(a, v);
  }

  lemma MarkerText(n: nat)
    ensures "[" + Decimal.Dec(n) + "]" != "[?]"
  {
    assert ("[" + Decimal.Dec(n) + "]")[1] == Decimal.Dec(n)[0];
  }

  lemma SameMarker(m: nat, n: nat)
    ensures "[" + Decimal.Dec(m) + "]" == "[" + Decimal.Dec(n) + "]" ==> m == n
  {
    var x, y := "[" + Decimal.Dec(m) + "]", "[" + Decimal.Dec(n) + "]";
    if x == y {
      assert x[1..|x| - 1] == Decimal.Dec(m) && y[1..|y| - 1] == Decimal.Dec(n);
      Decimal.ValueOfDec(m);
      Decimal.ValueOfDec(n);
    }
  }

  // ---- Warnings ----

  function Times(ws: seq<Warning>, w: Warning): nat { multiset(ws)[w] }

  lemma {:induction false} UncitedHolds(sources: seq<Citation>, cited: seq<string>, k: string)
    ensures UncitedSource(k) in Uncited(sources, cited) <==> k !in cited && exists s :: s in sources && s.key == k
    ensures forall w :: w in Uncited(sources, cited) ==> w.UncitedSource?
  {
    if sources != [] {
      var init, last := sources[..|sources| - 1], sources[|sources| - 1];
      assert sources == init + [last];
      UncitedHolds(init, cited, k);
    }
  }

  lemma {:induction false} DanglingOnce(keys: seq<string>, k: string)
    requires NoRepeats(keys)
    ensures Times(Dangling(keys), DanglingCitation(k)) == if k in keys then 1 else 0
    ensures forall w :: w in Dangling(keys) ==> w.DanglingCitation?
    decreases |keys|
  {
    if keys != [] {
      var init, last := keys[..|keys| - 1], keys[|keys| - 1];
      assert keys == init + [last];
      assert NoRepeats(init) && last !in init;
      DanglingOnce(init, k);
      assert Dangling(keys) == Dangling(init) + [DanglingCitation(last)];
    }
  }

  /** How many sources of the pool have the key. */
  function WithKey(sources: seq<Citation>, k: string): nat {
    if sources == [] then 0
    else WithKey(sources[..|sources| - 1], k) + if sources[|sources| - 1].key == k then 1 else 0
  }

  /** No earlier source has the key of the one at `i`. */
  ghost predicate FirstWithKey(sources: seq<Citation>, i: nat) {
    i < |sources| && forall j :: 0 <= j < i ==> sources[j].key != sources[i].key
  }

  /** Some reference carries the source. */
  ghost predicate Numbered(refs: seq<Reference>, c: Citation) {
    exists r :: r in refs && r.citation == c
  }

  lemma {:induction false} UncitedTimes(sources: seq<Citation>, cited: seq<string>, k: string)
    ensures Times(Uncited(sources, cited), UncitedSource(k)) == if k in cited then 0 else WithKey(sources, k)
  {
    if sources != [] { UncitedTimes(sources[..|sources| - 1], cited, k); }
  }

  lemma {:induction false} FindsFirst(sources: seq<Citation>, i: nat)
    requires FirstWithKey(sources, i)
    ensures Find(sources, sources[i].key) == Some(sources[i])
  {
    if i > 0 {
      assert sources[0].key != sources[i].key && FirstWithKey(sources[1..], i - 1);
      FindsFirst(sources[1..], i - 1);
    }
  }

  /**
   * A cited key is not warned of, and an uncited one is warned of once for every source of the pool that has it. Of the
   * sources with a cited key the first is numbered, and no other one.
   */
  lemma PoolIsAccountedFor(a: Answer, v: Verbosity, i: nat, j: nat)
    requires i < |a.sources| && FirstWithKey(a.sources, j) && a.sources[j].key == a.sources[i].key
    ensures var (k, out, cited) := (a.sources[i].key, Composition(a, v), a.sources[i].key in CiteKeys(Kept(a, v)));
      && Times(out.warnings, UncitedSource(k)) == (if cited then 0 else WithKey(a.sources, k))
      && (Numbered(out.references, a.sources[i]) <==> cited && a.sources[i] == a.sources[j])
  {
    hide CiteKeys, Find, WithKey, Kept, Numbered, Number, Times;
    var k, keys := a.sources[i].key, CitedKeys(a, v);
    NumberedIff(a.sources, keys, i, j);
    UncitedTimes(a.sources, keys, k);
    NoneUncited(DanglingKeys(a, v), k);
    LastOnly(Cuts(a, v), Dangling(DanglingKeys(a, v)), Uncited(a.sources, keys), UncitedSource(k));
  }

  lemma NoneUncited(keys: seq<string>, k: string)
    ensures UncitedSource(k) !in Dangling(keys)
  {}

  lemma NumberedIff(sources: seq<Citation>, keys: seq<string>, i: nat, j: nat)
    requires i < |sources| && FirstWithKey(sources, j) && sources[j].key == sources[i].key
    requires forall n :: 0 <= n < |keys| ==> Find(sources, keys[n]).Some?
    ensures Numbered(Number(sources, keys), sources[i]) <==> sources[i].key in keys && sources[i] == sources[j]
  {
    hide Find;
    FindsFirst(sources, j);
    var k := sources[i].key;
    if k in keys {
      var n :| 0 <= n < |keys| && keys[n] == k;
      assert Number(sources, keys)[n].citation == sources[j];
    }
  }

  lemma LastOnly(w1: seq<Warning>, w2: seq<Warning>, w3: seq<Warning>, w: Warning)
    requires w !in w1 && w !in w2
    ensures Times(w1 + w2 + w3, w) == Times(w3, w)
  {
    assert w !in multiset(w1) && w !in multiset(w2);
    assert multiset(w1 + w2 + w3) == multiset(w1) + multiset(w2) + multiset(w3);
  }

  /** A dangling key is warned of once, however often it is cited; a key of the pool never. */
  lemma DanglingWarnedOnce(a: Answer, v: Verbosity, k: string)
    ensures Times(Composition(a, v).warnings, DanglingCitation(k)) ==
      if k in CiteKeys(Kept(a, v)) && !InPool(a.sources, k) then 1 else 0
  {
    hide CiteKeys, Find, Number;
    var cited := CiteKeys(Kept(a, v));
    DistinctInFirstOrder(cited);
    SelectKeepsOrder(a.sources, Distinct(cited), cited, false);
    DanglingOnce(DanglingKeys(a, v), k);
    UncitedHolds(a.sources, CitedKeys(a, v), k);
    OnlyIn(Cuts(a, v), Dangling(DanglingKeys(a, v)), Uncited(a.sources, CitedKeys(a, v)), DanglingCitation(k));
  }

  lemma OnlyIn(w1: seq<Warning>, w2: seq<Warning>, w3: seq<Warning>, w: Warning)
    requires w !in w1 && w !in w3
    ensures Times(w1 + w2 + w3, w) == Times(w2, w)
  {
    assert w !in multiset(w1) && w !in multiset(w3);
    assert multiset(w1 + w2 + w3) == multiset(w1) + multiset(w2) + multiset(w3);
  }
}
