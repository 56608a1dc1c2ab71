// Parsing one label out of a model's output.
module LabelParser {
  import opened Ascii
  import opened Labels
  import opened Options

  datatype Classified = Classified(canonical: string, confidence: real, viaAlias: bool, ambiguous: bool)

  const EXACT_CANONICAL := 1.0
  const EXACT_ALIAS := 0.9
  const EMBEDDED_CANONICAL := 0.75
  const EMBEDDED_ALIAS := 0.6
  const AMBIGUITY_FACTOR := 0.6

  function Texts(l: Label): seq<string> { [l.canonical] + l.aliases }

  /** Every surface form is non-empty, and no two labels share one but for letter case. */
  ghost predicate Vocabulary(labels: seq<Label>) {
    && labels != []
    && (forall l, a :: l in labels && a in Texts(l) ==> a != "")
    && (forall i, j :: 0 <= i < j < |labels| ==> !Clash(labels[i], labels[j]))
  }

  ghost predicate Clash(l: Label, m: Label) {
    exists a, b :: a in Texts(l) && b in Texts(m) && Lower(a) == Lower(b)
  }

  // ---- The fast path ----

  /** The output, stripped and lower-cased, is a surface form of the label. */
  predicate Names(l: Label, core: string) {
    core == Lower(l.canonical) || exists a :: a in l.aliases && Lower(a) == core
  }

  function Exact(l: Label, core: string): Classified {
    if core == Lower(l.canonical) then Classified(l.canonical, EXACT_CANONICAL, false, false)
    else Classified(l.canonical, EXACT_ALIAS, true, false)
  }

  function Fast(labels: seq<Label>, core: string): Option<Classified> {
    if labels == [] then None
    else if Names(labels[0], core) then Some(Exact(labels[0], core))
    else Fast(labels[1..], core)
  }

  // ---- The slow path ----

  /** The earliest alias that is a whole token. */
  function AliasPosition(word: CharClass, hay: string, aliases: seq<string>): Option<nat> {
    if aliases == [] then None
    else
      match (AliasPosition(word, hay, aliases[..|aliases| - 1]), FirstToken(word, hay, Lower(aliases[|aliases| - 1]), 0))
      case (None, p) => p
      case (cur, None) => cur
      case (Some(cur), Some(p)) => Some(if p < cur then p else cur)
  }

  /** Where the label first stands in the text, and whether as an alias only. */
  function Place(word: CharClass, hay: string, l: Label): Option<(nat, bool)> {
    match (FirstToken(word, hay, Lower(l.canonical), 0), AliasPosition(word, hay, l.aliases))
    case (None, None) => None
    case (Some(c), None) => Some((c, false))
    case (None, Some(a)) => Some((a, true))
    case (Some(c), Some(a)) => if c <= a then Some((c, false)) else Some((a, true))
  }

  datatype Hit = Hit(order: nat, pos: nat, viaAlias: bool)

  function Hits(word: CharClass, hay: string, labels: seq<Label>): seq<Hit> {
    if labels == [] then []
    else
      var n := |labels| - 1;
      Hits(word, hay, labels[..n]) +
        match Place(word, hay, labels[n])
        case None => []
        case Some((pos, via)) => [Hit(n, pos, via)]
  }

  /** The earliest hit; of equally early ones, the first. */
  function Best(hits: seq<Hit>): Hit
    requires hits != []
  {
    var n := |hits| - 1;
    if n == 0 then hits[0]
    else
      var best := Best(hits[..n]);
      if hits[n].pos < best.pos then hits[n] else best
  }

  function Graded(canonical: string, viaAlias: bool, ambiguous: bool): Classified {
    var base := if viaAlias then EMBEDDED_ALIAS else EMBEDDED_CANONICAL;
    Classified(canonical, if ambiguous then base * AMBIGUITY_FACTOR else base, viaAlias, ambiguous)
  }

  function HitsOf(order: nat, place: Option<(nat, bool)>): (hits: seq<Hit>)
    ensures forall h :: h in hits <==> h.order == order && place == Some((h.pos, h.viaAlias))
    ensures |hits| <= 1
  {
    match place
    case None => []
    case Some((pos, via)) => [Hit(order, pos, via)]
  }

  lemma HitsStep(word: CharClass, hay: string, labels: seq<Label>)
    requires labels != []
    ensures var n := |labels| - 1;
      Hits(word, hay, labels) == Hits(word, hay, labels[..n]) + HitsOf(n, Place(word, hay, labels[n]))
  {
    hide Place;
  }

  lemma {:induction false} HitsAre(word: CharClass, hay: string, labels: seq<Label>)
    ensures forall h :: h in Hits(word, hay, labels) <==>
      h.order < |labels| && Place(word, hay, labels[h.order]) == Some((h.pos, h.viaAlias))
    ensures Ascending(Hits(word, hay, labels))
  {
    hide Place, Hits, HitsOf;
    if labels != [] {
      var n := |labels| - 1;
      HitsAre(word, hay, labels[..n]);
      HitsStep(word, hay, labels);
      var before, last := Hits(word, hay, labels[..n]), HitsOf(n, Place(word, hay, labels[n]));
      assert forall k :: 0 <= k < n ==> labels[..n][k] == labels[k];
      forall h: Hit
        ensures h in before + last <==> h.order < |labels| && Place(word, hay, labels[h.order]) == Some((h.pos, h.viaAlias))
      {
        assert h in before + last <==> h in before || h in last;
      }
      AscendingPlus(before, last, n);
    } else {
      NoHits(word, hay);
    }
  }

  lemma NoHits(word: CharClass, hay: string)
    ensures Hits(word, hay, []) == []
  {}

  ghost predicate Ascending(hits: seq<Hit>) {
    forall i, j :: 0 <= i < j < |hits| ==> hits[i].order < hits[j].order
  }

  lemma AscendingPlus(before: seq<Hit>, last: seq<Hit>, n: nat)
    requires Ascending(before) && |last| <= 1
    requires (forall h :: h in before ==> h.order < n) && (forall h :: h in last ==> h.order == n)
    ensures Ascending(before + last)
  {
    var hs := before + last;
    forall i, j | 0 <= i < j < |hs|
      ensures hs[i].order < hs[j].order
    {
      assert before[i] in before;
      if j >= |before| { assert last[0] in last; }
    }
  }

  lemma {:induction false} BestIs(hits: seq<Hit>)
    requires hits != []
    ensures Best(hits) in hits && forall h :: h in hits ==> Best(hits).pos <= h.pos
    ensures exists w :: 0 <= w < |hits| && hits[w] == Best(hits) && forall i :: 0 <= i < w ==> hits[i].pos > hits[w].pos
  {
    var n := |hits| - 1;
    if n > 0 {
      BestIs(hits[..n]);
      assert hits == hits[..n] + [hits[n]];
      if hits[n].pos < Best(hits[..n]).pos {
        assert forall i :: 0 <= i < n ==> hits[..n][i] in hits[..n];
        assert hits[n] == Best(hits);
      } else {
        var w :| 0 <= w < n && hits[..n][w] == Best(hits[..n]) && forall i :: 0 <= i < w ==> hits[..n][i].pos > hits[..n][w].pos;
        assert hits[w] == Best(hits) && forall i :: 0 <= i < w ==> hits[i] == hits[..n][i];
      }
    }
  }

  function Slow(word: CharClass, hay: string, labels: seq<Label>): Option<Classified> {
    var hits := Hits(word, hay, labels);
    if hits == [] then None
    else
      var best := Best(hits);
      HitsAre(word, hay, labels);
      BestIs(hits);
      Some(Graded(labels[best.order].canonical, best.viaAlias, |hits| > 1))
  }

  /** What `parse_label` returns. */
  function Parsed(word: CharClass, output: string, labels: seq<Label>): Option<Classified> {
    var core := Lower(StripAffixes(word, output));
    if core != "" && Fast(labels, core).Some? then Fast(labels, core) else Slow(word, Lower(output), labels)
  }

  // ---- The parser ----

  method FindPlace(word: CharClass, hay: string, l: Label) returns (r: Option<(nat, bool)>)
    ensures r == Place(word, hay, l)
  {
    hide FirstToken;
    var canonicalPos := FindWholeToken(word, hay, Lower(l.canonical));
    var aliasPos: Option<nat> := None;
    for i := 0 to |l.aliases|
      invariant aliasPos == AliasPosition(word, hay, l.aliases[..i])
    {
      assert l.aliases[..i + 1][..i] == l.aliases[..i];
      var p := FindWholeToken(word, hay, Lower(l.aliases[i]));
      if p.Some? {
        aliasPos := if aliasPos.None? || p.value < aliasPos.value then p else aliasPos;
      }
    }
    assert l.aliases[..|l.aliases|] == l.aliases;
    match (canonicalPos, aliasPos)
    case (Some(c), Some(a)) => r := if c <= a then Some((c, false)) else Some((a, true));
    case (Some(c), None) => r := Some((c, false));
    case (None, Some(a)) => r := Some((a, true));
    case (None, None) => r := None;
  }

  /** The minimum by position, then by declaration order. */
  method Earliest(hits: seq<Hit>) returns (best: Hit)
    requires hits != [] && Ascending(hits)
    ensures best == Best(hits)
  {
    best := hits[0];
    for i := 1 to |hits|
      invariant best == Best(hits[..i]) && best in hits[..i]
    {
      assert hits[..i + 1][..i] == hits[..i];
      if hits[i].pos < best.pos || (hits[i].pos == best.pos && hits[i].order < best.order) {
        best := hits[i];
      }
    }
    assert hits[..|hits|] == hits;
  }

  method FastPath(labels: seq<Label>, core: string) returns (r: Option<Classified>)
    ensures r == Fast(labels, core)
  {
    assert labels[0..] == labels;
    for i := 0 to |labels|
      invariant Fast(labels, core) == Fast(labels[i..], core)
    {
      var l := labels[i];
      assert labels[i..][0] == l && labels[i..][1..] == labels[i + 1..];
      if core == Lower(l.canonical) {
        return Some(Classified(l.canonical, EXACT_CANONICAL, false, false));
      }
      if exists a :: a in l.aliases && Lower(a) == core {
        return Some(Classified(l.canonical, EXACT_ALIAS, true, false));
      }
    }
    r := None;
  }

  /** `parse_label`. */
  method ParseLabel(word: CharClass, output: string, labels: seq<Label>) returns (r: Option<Classified>)
    ensures r == Parsed(word, output, labels)
  {
    hide Fast, Place, Best, StripAffixes;
    var core := Lower(StripAffixes(word, output));
    if core != "" {
      r := FastPath(labels, core);
      if r.Some? {
        return;
      }
    }
    var hay := Lower(output);
    var hits: seq<Hit> := [];
    for order := 0 to |labels|
      invariant hits == Hits(word, hay, labels[..order])
    {
      assert labels[..order + 1][..order] == labels[..order];
      var best := FindPlace(word, hay, labels[order]);
      match best
      case None => continue;
      case Some((pos, via)) => hits := hits + [Hit(order, pos, via)];
    }
    assert labels[..|labels|] == labels;
    if hits == [] {
      return None;
    }
    HitsAre(word, hay, labels);
    var winner := Earliest(hits);
    BestIs(hits);
    var base := if winner.viaAlias then EMBEDDED_ALIAS else EMBEDDED_CANONICAL;
    var ambiguous := |hits| > 1;
    var confidence := if ambiguous then base * AMBIGUITY_FACTOR else base;
    r := Some(Classified(labels[winner.order].canonical, confidence, winner.viaAlias, ambiguous));
  }

  // ---- What it means ----

  /** Some surface form of the label is a whole token at `p`. */
  ghost predicate LabelAt(word: CharClass, hay: string, l: Label, p: nat) {
    exists a :: a in Texts(l) && TokenAt(word, hay, Lower(a), p)
  }

  lemma {:induction false} AliasPositionIs(word: CharClass, hay: string, aliases: seq<string>)
    ensures var r := AliasPosition(word, hay, aliases);
      && (r.Some? ==> exists a :: a in aliases && TokenAt(word, hay, Lower(a), r.value))
      && forall a, p: nat :: a in aliases && (r.None? || p < r.value) ==> !TokenAt(word, hay, Lower(a), p)
  {
    hide TokenAt;
    if aliases != [] {
      var init, last := aliases[..|aliases| - 1], aliases[|aliases| - 1];
      assert aliases == init + [last];
      AliasPositionIs(word, hay, init);
      assert last in aliases;
    }
  }

  /** A label's place is the least position where one of its surface forms is a whole token. */
  lemma PlaceIs(word: CharClass, hay: string, l: Label)
    ensures var r := Place(word, hay, l);
      && (r.Some? ==> LabelAt(word, hay, l, r.value.0))
      && (r.Some? ==> (r.value.1 <==> !TokenAt(word, hay, Lower(l.canonical), r.value.0)))
      && forall p: nat :: r.None? || p < r.value.0 ==> !LabelAt(word, hay, l, p)
  {
    hide TokenAt, FirstToken, AliasPosition;
    AliasPositionIs(word, hay, l.aliases);
    FirstTokenFacts(word, hay, Lower(l.canonical));
    assert forall a :: a in Texts(l) <==> a == l.canonical || a in l.aliases;
    assert l.canonical in Texts(l);
  }

  lemma FirstTokenFacts(word: CharClass, hay: string, needle: string)
    ensures var r := FirstToken(word, hay, needle, 0);
      && (r.Some? ==> TokenAt(word, hay, needle, r.value))
      && forall p: nat :: r.None? || p < r.value ==> !TokenAt(word, hay, needle, p)
  {}

  ghost predicate Present(word: CharClass, hay: string, l: Label) { Place(word, hay, l).Some? }

  /** More than one label is present. */
  ghost predicate SeveralPresent(word: CharClass, hay: string, labels: seq<Label>) {
    exists i, j :: 0 <= i < j < |labels| && Present(word, hay, labels[i]) && Present(word, hay, labels[j])
  }

  lemma ManyHits(word: CharClass, hay: string, labels: seq<Label>)
    ensures |Hits(word, hay, labels)| > 1 <==> SeveralPresent(word, hay, labels)
    ensures |Hits(word, hay, labels)| == 0 <==> forall l :: l in labels ==> !Present(word, hay, l)
  {
    hide Place, Hits;
    var hs := Hits(word, hay, labels);
    HitsAre(word, hay, labels);
    if |hs| > 1 {
      assert hs[0] in hs && hs[1] in hs;
      assert Present(word, hay, labels[hs[0].order]) && Present(word, hay, labels[hs[1].order]);
    }
    if SeveralPresent(word, hay, labels) {
      var i, j :| 0 <= i < j < |labels| && Present(word, hay, labels[i]) && Present(word, hay, labels[j]);
      assert HitOf(word, hay, labels, i) in hs && HitOf(word, hay, labels, j) in hs;
    }
    forall i | 0 <= i < |labels| && Present(word, hay, labels[i])
      ensures |hs| > 0
    {
      assert HitOf(word, hay, labels, i) in hs;
    }
    if |hs| > 0 {
      assert hs[0] in hs && Present(word, hay, labels[hs[0].order]);
    }
  }

  ghost function HitOf(word: CharClass, hay: string, labels: seq<Label>, i: nat): Hit
    requires i < |labels| && Present(word, hay, labels[i])
  {
    Hit(i, Place(word, hay, labels[i]).value.0, Place(word, hay, labels[i]).value.1)
  }

  /** Nothing stands earlier than label `w`, nor a label declared before it equally early. */
  ghost predicate Wins(word: CharClass, hay: string, labels: seq<Label>, w: nat) {
    && w < |labels| && Present(word, hay, labels[w])
    && forall i :: 0 <= i < |labels| && Present(word, hay, labels[i]) ==>
      var (p, q) := (Place(word, hay, labels[w]).value.0, Place(word, hay, labels[i]).value.0);
      p < q || (p == q && w <= i)
  }

  /** The slow path takes the earliest label, and is ambiguous exactly when several are present. */
  lemma SlowIs(word: CharClass, hay: string, labels: seq<Label>)
    ensures Slow(word, hay, labels).None? <==> forall l :: l in labels ==> !Present(word, hay, l)
    ensures forall w: nat :: Wins(word, hay, labels, w) ==>
      Slow(word, hay, labels) ==
        Some(Graded(labels[w].canonical, Place(word, hay, labels[w]).value.1, SeveralPresent(word, hay, labels)))
    ensures Slow(word, hay, labels).Some? ==> exists w: nat :: Wins(word, hay, labels, w)
  {
    hide Place, Hits, Best, Graded, SeveralPresent;
    ManyHits(word, hay, labels);
    var hs := Hits(word, hay, labels);
    if hs != [] {
      var w := WinnerIndex(word, hay, labels);
      forall v: nat | Wins(word, hay, labels, v)
        ensures v == w
      {
        assert Present(word, hay, labels[v]) && Present(word, hay, labels[w]);
      }
    } else {
      forall v: nat ensures !Wins(word, hay, labels, v) {
        if v < |labels| { assert labels[v] in labels; }
      }
    }
  }

  lemma WinnerIndex(word: CharClass, hay: string, labels: seq<Label>) returns (w: nat)
    requires Hits(word, hay, labels) != []
    ensures Wins(word, hay, labels, w)
    ensures var best := Best(Hits(word, hay, labels));
      best.order == w && best.viaAlias == Place(word, hay, labels[w]).value.1
  {
    hide Place, Hits, Best;
    var hs := Hits(word, hay, labels);
    HitsAre(word, hay, labels);
    BestIs(hs);
    var at :| 0 <= at < |hs| && hs[at] == Best(hs) && forall i :: 0 <= i < at ==> hs[i].pos > hs[at].pos;
    w := hs[at].order;
    forall i | 0 <= i < |labels| && Present(word, hay, labels[i])
      ensures var (p, q) := (Place(word, hay, labels[w]).value.0, Place(word, hay, labels[i]).value.0);
        p < q || (p == q && w <= i)
    {
      var h := HitOf(word, hay, labels, i);
      assert h in hs;
      var k :| 0 <= k < |hs| && hs[k] == h;
    }
  }

  lemma {:induction false} FastIs(labels: seq<Label>, core: string)
    ensures Fast(labels, core).None? <==> forall l :: l in labels ==> !Names(l, core)
    ensures Fast(labels, core).Some? ==> exists l :: l in labels && Names(l, core) && Fast(labels, core) == Some(Exact(l, core))
  {
    hide Names, Exact;
    if labels != [] {
      FastIs(labels[1..], core);
      assert labels == [labels[0]] + labels[1..];
    }
  }

  // ---- What a validated vocabulary guarantees ----

  lemma {:induction false} SurfacesLocate(labels: seq<Label>, i: nat, a: string) returns (p: nat)
    requires i < |labels| && a in Texts(Cleaned(labels[i]))
    ensures |FirstSurfaces(labels, i)| <= p < |FirstSurfaces(labels, i + 1)| <= |Surfaces(labels)|
    ensures Surfaces(labels)[p].text == a
  {
    hide FirstSurfaces, SurfacesOf, Texts, Cleaned;
    SurfacesStep(labels, i);
    var l := labels[i];
    var k: nat :| k < |Texts(Cleaned(l))| && Texts(Cleaned(l))[k] == a;
    SurfaceText(l, k);
    p := |FirstSurfaces(labels, i)| + k;
  }

  lemma SurfaceText(l: Label, k: nat)
    requires k < |Texts(Cleaned(l))|
    ensures k < |SurfacesOf(l)| && SurfacesOf(l)[k].text == Texts(Cleaned(l))[k]
  {}

  lemma {:induction false} SurfacesGrow(labels: seq<Label>, i: nat, j: nat)
    requires i <= j <= |labels|
    ensures |FirstSurfaces(labels, i)| <= |FirstSurfaces(labels, j)|
    decreases j
  {
    hide SurfacesOf;
    if i < j { SurfacesGrow(labels, i, j - 1); }
  }

  /** What `LabelSet::new` accepts is a vocabulary. */
  lemma AcceptedIsVocabulary(labels: seq<Label>)
    requires labels != [] && Sound(Surfaces(labels))
    ensures Vocabulary(CleanedAll(labels))
  {
    hide FirstSurfaces, Cleaned, Texts;
    var clean, all := CleanedAll(labels), Surfaces(labels);
    forall l, a | l in clean && a in Texts(l)
      ensures a != ""
    {
      var i :| 0 <= i < |clean| && clean[i] == l;
      var p := SurfacesLocate(labels, i, a);
      assert !Faulty(all, p);
    }
    forall i, j | 0 <= i < j < |clean|
      ensures !Clash(clean[i], clean[j])
    {
      forall a, b | a in Texts(clean[i]) && b in Texts(clean[j])
        ensures Lower(a) != Lower(b)
      {
        var p := SurfacesLocate(labels, i, a);
        var q := SurfacesLocate(labels, j, b);
        SurfacesGrow(labels, i + 1, j);
        assert !Faulty(all, q);
      }
    }
  }
}
