// Extracting one label of a validated vocabulary from messy text. Lower-casing is ASCII; which
// characters make up words is a parameter.
module Labels {
  import opened Ascii
  import opened Options
  import Text

  type CharClass = char -> bool

  // ---- Whole tokens ----

  /** The needle stands at `p` between non-word neighbours. */
  predicate TokenAt(word: CharClass, hay: string, needle: string, p: nat) {
    && needle != "" && Occurs(hay, needle, p)
    && (p > 0 ==> !word(hay[p - 1]))
    && (p + |needle| < |hay| ==> !word(hay[p + |needle|]))
  }

  /** The least position from `from` on where the needle is a whole token. */
  function FirstToken(word: CharClass, hay: string, needle: string, from: nat): (r: Option<nat>)
    ensures r.Some? ==> from <= r.value && TokenAt(word, hay, needle, r.value)
    ensures forall p: nat :: from <= p && (r.None? || p < r.value) ==> !TokenAt(word, hay, needle, p)
    decreases |hay| + 1 - from
  {
    if from > |hay| then None
    else if TokenAt(word, hay, needle, from) then Some(from)
    else FirstToken(word, hay, needle, from + 1)
  }

  lemma FirstTokenIs(word: CharClass, hay: string, needle: string, p: nat)
    requires TokenAt(word, hay, needle, p) && forall q: nat :: q < p ==> !TokenAt(word, hay, needle, q)
    ensures FirstToken(word, hay, needle, 0) == Some(p)
  {}

  /** `find_whole_token`. */
  method FindWholeToken(word: CharClass, hay: string, needle: string) returns (r: Option<nat>)
    ensures r == FirstToken(word, hay, needle, 0)
  {
    if needle == "" {
      return None;
    }
    var start: nat := 0;
    while start <= |hay|
      invariant forall q: nat :: q < start ==> !TokenAt(word, hay, needle, q)
      decreases |hay| + 1 - start
    {
      var pos := Find(hay, needle, start);
      if pos == -1 {
        return None;
      }
      var beforeOk := pos == 0 || !word(hay[pos - 1]);
      var after := pos + |needle|;
      var afterOk := after == |hay| || !word(hay[after]);
      if beforeOk && afterOk {
        FirstTokenIs(word, hay, needle, pos);
        return Some(pos);
      }
      start := pos + 1;
    }
    return None;
  }

  /** `strip_affixes`. */
  function StripAffixes(word: CharClass, s: string): (t: string)
    ensures t != "" ==> word(t[0]) && word(t[|t| - 1])
    decreases |s|
  {
    if s == "" then ""
    else if !word(s[0]) then StripAffixes(word, s[1..])
    else if !word(s[|s| - 1]) then StripAffixes(word, s[..|s| - 1])
    else s
  }

  // ---- The vocabulary ----

  datatype Label = Label(canonical: string, aliases: seq<string>)

  datatype LabelError = Empty | EmptyCanonical | EmptyAlias(canonical: string) | DuplicateSurface(surface: string)

  datatype Result<+T, +E> = Ok(value: T) | Err(error: E)

  /** A surface form, trimmed, and the canonical form of its label. */
  datatype Surface = Surface(text: string, owner: string, isAlias: bool)

  function TrimAll(s: seq<string>): (t: seq<string>)
    ensures |t| == |s| && forall i :: 0 <= i < |s| ==> t[i] == Text.Trim(s[i])
  {
    seq(|s|, i requires 0 <= i < |s| => Text.Trim(s[i]))
  }

  function Cleaned(l: Label): Label { Label(Text.Trim(l.canonical), TrimAll(l.aliases)) }

  function CleanedAll(labels: seq<Label>): (c: seq<Label>)
    ensures |c| == |labels|
  {
    seq(|labels|, i requires 0 <= i < |labels| => Cleaned(labels[i]))
  }

  function AliasSurfaces(l: Label): (s: seq<Surface>)
    ensures |s| == |l.aliases|
  {
    seq(|l.aliases|, i requires 0 <= i < |l.aliases| => Surface(Text.Trim(l.aliases[i]), Text.Trim(l.canonical), true))
  }

  function SurfacesOf(l: Label): seq<Surface> {
    [Surface(Text.Trim(l.canonical), Text.Trim(l.canonical), false)] + AliasSurfaces(l)
  }

  /** The surface forms of the first `n` labels, in declaration order. */
  function FirstSurfaces(labels: seq<Label>, n: nat): seq<Surface>
    requires n <= |labels|
  {
    if n == 0 then [] else FirstSurfaces(labels, n - 1) + SurfacesOf(labels[n - 1])
  }

  function Surfaces(labels: seq<Label>): seq<Surface> { FirstSurfaces(labels, |labels|) }

  /** Empty, or the same as an earlier one but for letter case. */
  predicate Faulty(all: seq<Surface>, i: nat)
    requires i < |all|
  {
    all[i].text == "" || exists j :: 0 <= j < i && Lower(all[j].text) == Lower(all[i].text)
  }

  function FaultOf(s: Surface): LabelError {
    if s.text != "" then DuplicateSurface(s.text)
    else if s.isAlias then EmptyAlias(s.owner)
    else EmptyCanonical
  }

  ghost predicate Sound(all: seq<Surface>) {
    forall i :: 0 <= i < |all| ==> !Faulty(all, i)
  }

  /** The first faulty surface form in declaration order, and its error. */
  ghost predicate FirstFault(all: seq<Surface>, e: LabelError) {
    exists i :: 0 <= i < |all| && Faulty(all, i) && e == FaultOf(all[i]) && Sound(all[..i])
  }

  ghost predicate SeenAre(all: seq<Surface>, seen: set<string>) {
    forall k :: k in seen <==> exists j :: 0 <= j < |all| && Lower(all[j].text) == k
  }

  /** One surface form is checked and entered. */
  method Enter(s: Surface, ghost before: seq<Surface>, ghost rest: seq<Surface>, seen0: set<string>)
    returns (seen: set<string>, error: Option<LabelError>)
    requires Sound(before) && SeenAre(before, seen0)
    ensures error.None? ==> Sound(before + [s]) && SeenAre(before + [s], seen)
    ensures error.Some? ==> FirstFault(before + [s] + rest, error.value)
  {
    seen := seen0;
    EnterFacts(s, before, rest);
    if s.text == "" || Lower(s.text) in seen {
      return seen, Some(FaultOf(s));
    }
    seen := seen + {Lower(s.text)};
    error := None;
    NowSeen(s, before, seen0);
  }

  lemma NowSeen(s: Surface, before: seq<Surface>, seen: set<string>)
    requires SeenAre(before, seen)
    ensures SeenAre(before + [s], seen + {Lower(s.text)})
  {
    var all := before + [s];
    forall k
      ensures k in seen + {Lower(s.text)} <==> exists j :: 0 <= j < |all| && Lower(all[j].text) == k
    {
      if k in seen {
        var j :| 0 <= j < |before| && Lower(before[j].text) == k;
        assert all[j] == before[j];
      }
      if k == Lower(s.text) { assert all[|before|] == s; }
      if j :| 0 <= j < |all| && Lower(all[j].text) == k {
        if j < |before| { assert Lower(before[j].text) == k; }
      }
    }
  }

  lemma EnterFacts(s: Surface, before: seq<Surface>, rest: seq<Surface>)
    requires Sound(before)
    ensures var bad := s.text == "" || exists j :: 0 <= j < |before| && Lower(before[j].text) == Lower(s.text);
      && (!bad ==> Sound(before + [s]))
      && (bad ==> FirstFault(before + [s] + rest, FaultOf(s)))
  {
    var all := before + [s];
    forall i | 0 <= i < |before|
      ensures !Faulty(all, i)
    {
      assert !Faulty(before, i);
      assert forall j :: 0 <= j <= i ==> all[j] == before[j];
    }
    var full := all + rest;
    assert full[..|before|] == before && full[|before|] == s;
    assert forall j :: 0 <= j < |before| ==> full[j] == before[j] == all[j];
    assert all[|before|] == s;
    assert Faulty(full, |before|) <==> Faulty(all, |before|);
  }

  /** The aliases of one label are checked and entered. */
  method EnterAliases(l: Label, canonical: string, ghost before: seq<Surface>, ghost rest: seq<Surface>, seen0: set<string>)
    returns (aliases: seq<string>, seen: set<string>, error: Option<LabelError>)
    requires Sound(before) && SeenAre(before, seen0) && canonical == Text.Trim(l.canonical)
    ensures error.None? ==>
      Sound(before + AliasSurfaces(l)) && SeenAre(before + AliasSurfaces(l), seen) && aliases == TrimAll(l.aliases)
    ensures error.Some? ==> FirstFault(before + AliasSurfaces(l) + rest, error.value)
  {
    hide Sound, SeenAre, FirstFault, Text.Trim;
    ghost var all := AliasSurfaces(l);
    aliases, seen, error := [], seen0, None;
    assert before + all[..0] == before;
    for i := 0 to |l.aliases|
      invariant Sound(before + all[..i]) && SeenAre(before + all[..i], seen) && error == None
      invariant aliases == TrimAll(l.aliases)[..i]
    {
      var alias := Text.Trim(l.aliases[i]);
      seen, error := Enter(Surface(alias, canonical, true), before + all[..i], all[i + 1..] + rest, seen);
      assert before + all[..i] + [all[i]] == before + all[..i + 1];
      if error.Some? {
        assert before + all[..i] + [all[i]] + (all[i + 1..] + rest) == before + all + rest;
        return;
      }
      aliases := aliases + [alias];
    }
    assert all[..|all|] == all;
  }

  /** The surface forms of one label are checked and entered. */
  method EnterLabel(l: Label, ghost before: seq<Surface>, ghost rest: seq<Surface>, seen0: set<string>)
    returns (clean: Label, seen: set<string>, error: Option<LabelError>)
    requires Sound(before) && SeenAre(before, seen0)
    ensures error.None? ==> Sound(before + SurfacesOf(l)) && SeenAre(before + SurfacesOf(l), seen) && clean == Cleaned(l)
    ensures error.Some? ==> FirstFault(before + SurfacesOf(l) + rest, error.value)
  {
    hide Sound, SeenAre, FirstFault, Text.Trim, AliasSurfaces;
    var canonical := Text.Trim(l.canonical);
    var first := Surface(canonical, canonical, false);
    seen, error := Enter(first, before, AliasSurfaces(l) + rest, seen0);
    assert before + [first] + (AliasSurfaces(l) + rest) == before + SurfacesOf(l) + rest;
    clean := Label(canonical, []);
    if error.Some? {
      return;
    }
    var aliases;
    aliases, seen, error := EnterAliases(l, canonical, before + [first], rest, seen);
    assert before + [first] + AliasSurfaces(l) == before + SurfacesOf(l);
    clean := Label(canonical, aliases);
  }

  /** What building a vocabulary returns. */
  ghost predicate Built(labels: seq<Label>, r: Result<seq<Label>, LabelError>) {
    match r
    case Ok(clean) => labels != [] && Sound(Surfaces(labels)) && clean == CleanedAll(labels)
    case Err(e) => if labels == [] then e == Empty else FirstFault(Surfaces(labels), e)
  }

  /** `LabelSet::new`: accepted iff there is a label and no surface form is empty or repeated. */
  method NewLabelSet(labels: seq<Label>) returns (r: Result<seq<Label>, LabelError>)
    ensures Built(labels, r)
    ensures r.Ok? <==> labels != [] && Sound(Surfaces(labels))
  {
    hide Sound, SeenAre, FirstFault, Text.Trim, FirstSurfaces;
    if labels == [] {
      return Err(Empty);
    }
    FaultOrSound(Surfaces(labels));
    var seen: set<string> := {};
    var clean: seq<Label> := [];
    NothingSeen(labels);
    for n := 0 to |labels|
      invariant Sound(FirstSurfaces(labels, n)) && SeenAre(FirstSurfaces(labels, n), seen)
      invariant clean == CleanedAll(labels)[..n]
    {
      var label', error;
      SurfacesStep(labels, n);
      label', seen, error := EnterLabel(labels[n], FirstSurfaces(labels, n), SurfacesAfter(labels, n + 1), seen);
      if error.Some? {
        return Err(error.value);
      }
      clean := clean + [label'];
    }
    r := Ok(clean);
  }

  lemma NothingSeen(labels: seq<Label>)
    ensures Sound(FirstSurfaces(labels, 0)) && SeenAre(FirstSurfaces(labels, 0), {})
  {}

  lemma FaultOrSound(all: seq<Surface>)
    ensures forall e :: FirstFault(all, e) ==> !Sound(all)
  {}

  ghost function SurfacesAfter(labels: seq<Label>, n: nat): seq<Surface>
    requires n <= |labels|
    decreases |labels| - n
  {
    if n == |labels| then [] else SurfacesOf(labels[n]) + SurfacesAfter(labels, n + 1)
  }

  lemma {:induction false} SurfacesSplit(labels: seq<Label>, n: nat)
    requires n <= |labels|
    ensures Surfaces(labels) == FirstSurfaces(labels, n) + SurfacesAfter(labels, n)
    decreases |labels| - n
  {
    hide SurfacesOf;
    if n < |labels| { SurfacesSplit(labels, n + 1); }
  }

  lemma SurfacesStep(labels: seq<Label>, n: nat)
    requires n < |labels|
    ensures FirstSurfaces(labels, n + 1) == FirstSurfaces(labels, n) + SurfacesOf(labels[n])
    ensures Surfaces(labels) == FirstSurfaces(labels, n) + SurfacesOf(labels[n]) + SurfacesAfter(labels, n + 1)
  {
    hide SurfacesOf;
    SurfacesSplit(labels, n + 1);
  }
}
