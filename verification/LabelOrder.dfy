// When the declaration order of a vocabulary matters.
module LabelOrder {
  import opened Ascii
  import opened LabelParser
  import opened Labels
  import opened Options

  /** The shorter surface form could stand as a whole token where the longer one begins. */
  predicate BoundaryPrefix(word: CharClass, x: string, y: string) {
    |x| < |y| && x == y[..|x|] && !word(y[|x|])
  }

  ghost predicate MayTie(word: CharClass, l: Label, m: Label) {
    exists a, b :: a in Texts(l) && b in Texts(m) && BoundaryPrefix(word, Lower(a), Lower(b))
  }

  /** No surface form of one label is followed by a word boundary inside a longer one of another label. */
  ghost predicate TieFree(word: CharClass, labels: seq<Label>) {
    forall i, j :: 0 <= i < |labels| && 0 <= j < |labels| && i != j ==> !MayTie(word, labels[i], labels[j])
  }

  /** The same labels, declared in another order. */
  ghost predicate Reordered(a: seq<Label>, b: seq<Label>) {
    Vocabulary(a) && Vocabulary(b) && forall l :: l in a <==> l in b
  }

  // ---- Without possible ties the order does not matter ----

  lemma TokensTie(word: CharClass, hay: string, x: string, y: string, p: nat)
    requires TokenAt(word, hay, x, p) && TokenAt(word, hay, y, p)
    ensures x == y || BoundaryPrefix(word, x, y) || BoundaryPrefix(word, y, x)
  {
    if |x| < |y| {
      assert x == y[..|x|] by { assert hay[p..p + |y|][..|x|] == hay[p..p + |x|]; }
      assert y[|x|] == hay[p..p + |y|][|x|] == hay[p + |x|];
    } else if |y| < |x| {
      assert y == x[..|y|] by { assert hay[p..p + |x|][..|y|] == hay[p..p + |y|]; }
      assert x[|y|] == hay[p..p + |x|][|y|] == hay[p + |y|];
    }
  }

  lemma Separate(labels: seq<Label>, i: nat, j: nat)
    requires Vocabulary(labels) && i < |labels| && j < |labels| && i != j
    ensures !Clash(labels[i], labels[j]) && !Clash(labels[j], labels[i])
  {
    hide Clash;
    ClashSymmetric(labels[i], labels[j]);
  }

  lemma ClashSymmetric(l: Label, m: Label)
    ensures Clash(l, m) <==> Clash(m, l)
  {}

  lemma SelfClash(l: Label)
    ensures Clash(l, l)
  {
    assert l.canonical in Texts(l);
  }

  lemma OneLabelAt(word: CharClass, hay: string, labels: seq<Label>, l: Label, m: Label, p: nat)
    requires Vocabulary(labels) && TieFree(word, labels) && l in labels && m in labels
    requires LabelAt(word, hay, l, p) && LabelAt(word, hay, m, p)
    ensures l == m
  {
    hide TokenAt, BoundaryPrefix, Texts, Vocabulary;
    var i: nat, j: nat :| i < |labels| && labels[i] == l && j < |labels| && labels[j] == m;
    var a :| a in Texts(l) && TokenAt(word, hay, Lower(a), p);
    var b :| b in Texts(m) && TokenAt(word, hay, Lower(b), p);
    if i != j { Separate(labels, i, j); }
    TokensTie(word, hay, Lower(a), Lower(b), p);
  }

  lemma Unrepeated(labels: seq<Label>, i: nat, j: nat)
    requires Vocabulary(labels) && i < |labels| && j < |labels| && labels[i] == labels[j]
    ensures i == j
  {
    hide Clash;
    SelfClash(labels[i]);
  }

  lemma OneName(labels: seq<Label>, l: Label, m: Label, core: string)
    requires Vocabulary(labels) && l in labels && m in labels && Names(l, core) && Names(m, core)
    ensures l == m
  {
    var i: nat, j: nat :| i < |labels| && labels[i] == l && j < |labels| && labels[j] == m;
    var a := NamedText(l, core);
    var b := NamedText(m, core);
    if i != j { Separate(labels, i, j); }
  }

  lemma NamedText(l: Label, core: string) returns (a: string)
    requires Names(l, core)
    ensures a in Texts(l) && Lower(a) == core
  {
    if core == Lower(l.canonical) {
      a := l.canonical;
    } else {
      a :| a in l.aliases && Lower(a) == core;
    }
  }

  lemma FastReordered(a: seq<Label>, b: seq<Label>, core: string)
    requires Reordered(a, b)
    ensures Fast(a, core) == Fast(b, core)
  {
    hide Names, Exact, Fast, Vocabulary;
    FastIs(a, core);
    FastIs(b, core);
    if Fast(a, core).Some? {
      var l :| l in a && Names(l, core) && Fast(a, core) == Some(Exact(l, core));
      var m :| m in b && Names(m, core) && Fast(b, core) == Some(Exact(m, core));
      OneName(a, l, m, core);
    }
  }

  lemma SeveralReordered(word: CharClass, hay: string, a: seq<Label>, b: seq<Label>)
    requires Reordered(a, b) && SeveralPresent(word, hay, a)
    ensures SeveralPresent(word, hay, b)
  {
    hide Present, Vocabulary;
    var i: nat, j: nat :| i < j < |a| && Present(word, hay, a[i]) && Present(word, hay, a[j]);
    assert a[i] in b && a[j] in b;
    var k: nat, n: nat :| k < |b| && b[k] == a[i] && n < |b| && b[n] == a[j];
    if k == n { Unrepeated(a, i, j); }
    if k < n {
      assert Present(word, hay, b[k]) && Present(word, hay, b[n]);
    } else {
      assert Present(word, hay, b[n]) && Present(word, hay, b[k]);
    }
  }

  lemma SlowReordered(word: CharClass, hay: string, a: seq<Label>, b: seq<Label>)
    requires Reordered(a, b) && TieFree(word, a)
    ensures Slow(word, hay, a) == Slow(word, hay, b)
  {
    hide Slow, Place, Graded, SeveralPresent, Vocabulary, TieFree;
    SlowIs(word, hay, a);
    SlowIs(word, hay, b);
    if Slow(word, hay, a).Some? {
      var w: nat :| Wins(word, hay, a, w);
      var v: nat :| Wins(word, hay, b, v);
      SameWinner(word, hay, a, b, w, v);
      if SeveralPresent(word, hay, a) { SeveralReordered(word, hay, a, b); }
      if SeveralPresent(word, hay, b) { SeveralReordered(word, hay, b, a); }
    }
  }

  lemma SameWinner(word: CharClass, hay: string, a: seq<Label>, b: seq<Label>, w: nat, v: nat)
    requires Reordered(a, b) && TieFree(word, a) && Wins(word, hay, a, w) && Wins(word, hay, b, v)
    ensures a[w] == b[v]
  {
    hide Place, Vocabulary, TieFree, LabelAt;
    var l, m := a[w], b[v];
    assert l in b && m in a;
    var k: nat, n: nat :| k < |b| && b[k] == l && n < |a| && a[n] == m;
    assert Present(word, hay, b[k]) && Present(word, hay, a[n]);
    PlaceIs(word, hay, l);
    PlaceIs(word, hay, m);
    assert Place(word, hay, l).value.0 == Place(word, hay, m).value.0;
    OneLabelAt(word, hay, a, l, m, Place(word, hay, l).value.0);
  }

  /** Where no two labels can tie, the result does not depend on declaration order. */
  lemma OrderDoesNotMatter(word: CharClass, output: string, a: seq<Label>, b: seq<Label>)
    requires Reordered(a, b) && TieFree(word, a)
    ensures Parsed(word, output, a) == Parsed(word, output, b)
  {
    hide Fast, Slow, StripAffixes, Vocabulary, TieFree;
    FastReordered(a, b, Lower(StripAffixes(word, output)));
    SlowReordered(word, Lower(output), a, b);
  }

  /** Single-word surface forms never tie. */
  lemma SingleWordsAreTieFree(word: CharClass, labels: seq<Label>)
    requires forall l, a, c :: l in labels && a in Texts(l) && c in Lower(a) ==> word(c)
    ensures TieFree(word, labels)
  {
    forall i, j | 0 <= i < |labels| && 0 <= j < |labels| && i != j
      ensures !MayTie(word, labels[i], labels[j])
    {
      forall a, b | a in Texts(labels[i]) && b in Texts(labels[j])
        ensures !BoundaryPrefix(word, Lower(a), Lower(b))
      {
        if |Lower(a)| < |Lower(b)| { assert Lower(b)[|Lower(a)|] in Lower(b); }
      }
    }
  }

  // ---- With a possible tie it does ----

  function ToFront(labels: seq<Label>, i: nat): seq<Label>
    requires i < |labels|
  {
    [labels[i]] + labels[..i] + labels[i + 1..]
  }

  lemma ToFrontReorders(labels: seq<Label>, i: nat)
    requires Vocabulary(labels) && i < |labels|
    ensures Reordered(labels, ToFront(labels, i)) && ToFront(labels, i)[0] == labels[i]
  {
    hide Clash;
    var b := ToFront(labels, i);
    assert labels == labels[..i] + [labels[i]] + labels[i + 1..];
    forall j, k | 0 <= j < k < |b|
      ensures !Clash(b[j], b[k])
    {
      assert b[k] == if k <= i then labels[k - 1] else labels[k];
      if j == 0 {
        ClashSymmetric(b[j], b[k]);
      } else {
        assert b[j] == if j <= i then labels[j - 1] else labels[j];
      }
    }
  }

  /** The text and a boundary character, `n` times. */
  function Repeat(y: string, c: char, n: nat): (s: string)
    ensures |s| >= n
  {
    if n == 0 then "" else Repeat(y, c, n - 1) + (y + [c])
  }

  lemma {:induction false} RepeatStarts(y: string, c: char, n: nat)
    requires n > 0
    ensures y + [c] <= Repeat(y, c, n)
  {
    if n > 1 { RepeatStarts(y, c, n - 1); }
  }

  lemma {:induction false} RepeatIsLower(y: string, c: char, n: nat)
    requires Lower(y) == y && LowerChar(c) == c
    ensures Lower(Repeat(y, c, n)) == Repeat(y, c, n)
  {
    if n > 0 {
      RepeatIsLower(y, c, n - 1);
      var before, s := Repeat(y, c, n - 1), Repeat(y, c, n);
      forall i | 0 <= i < |s|
        ensures LowerChar(s[i]) == s[i]
      {
        if i < |before| {
          assert s[i] == before[i] == Lower(before)[i];
        } else if i < |before| + |y| {
          assert s[i] == y[i - |before|] == Lower(y)[i - |before|];
        }
      }
    }
  }

  lemma {:induction false} StripKeeps(word: CharClass, s: string, i: nat, j: nat)
    requires i <= j < |s| && word(s[i]) && word(s[j])
    ensures |StripAffixes(word, s)| >= j - i + 1
    decreases |s|
  {
    if !word(s[0]) {
      StripKeeps(word, s[1..], i - 1, j - 1);
    } else if !word(s[|s| - 1]) {
      StripKeeps(word, s[..|s| - 1], i, j);
    }
  }

  lemma {:induction false} StripDrops(word: CharClass, s: string)
    requires forall i :: 0 <= i < |s| ==> !word(s[i])
    ensures StripAffixes(word, s) == ""
  {
    if s != "" { StripDrops(word, s[1..]); }
  }

  lemma {:induction false} RepeatHasNoWord(word: CharClass, y: string, c: char, n: nat)
    requires !word(c) && forall i :: 0 <= i < |y| ==> !word(y[i])
    ensures forall i :: 0 <= i < |Repeat(y, c, n)| ==> !word(Repeat(y, c, n)[i])
  {
    if n > 0 { RepeatHasNoWord(word, y, c, n - 1); }
  }

  /** The stripped repetition is empty or long. */
  lemma StrippedRepeat(word: CharClass, y: string, c: char, n: nat)
    requires n > 0 && !word(c)
    ensures var core := StripAffixes(word, Repeat(y, c, n)); core == "" || |core| >= n
  {
    var s, before := Repeat(y, c, n), Repeat(y, c, n - 1);
    if k: nat :| k < |y| && word(y[k]) {
      RepeatStarts(y, c, n);
      assert s[k] == (y + [c])[k] == y[k];
      assert s[|before| + k] == y[k];
      StripKeeps(word, s, k, |before| + k);
    } else {
      RepeatHasNoWord(word, y, c, n);
      StripDrops(word, s);
    }
  }

  function Longest(texts: seq<string>): (n: nat)
    ensures forall a :: a in texts ==> |a| <= n
  {
    if texts == [] then 0
    else
      assert texts == [texts[0]] + texts[1..];
      var n := Longest(texts[1..]);
      if |texts[0]| > n then |texts[0]| else n
  }

  function LongestSurface(labels: seq<Label>): (n: nat)
    ensures forall l, a :: l in labels && a in Texts(l) ==> |a| <= n
  {
    if labels == [] then 0
    else
      assert labels == [labels[0]] + labels[1..];
      var m, n := LongestSurface(labels[1..]), Longest(Texts(labels[0]));
      if n > m then n else m
  }

  /** In the repetition, both surface forms stand at the very start, and neither is the whole of it. */
  lemma RepeatTies(word: CharClass, x: string, y: string, n: nat)
    requires x != "" && BoundaryPrefix(word, x, y) && n > 0
    ensures TokenAt(word, Repeat(y, y[|x|], n), x, 0) && TokenAt(word, Repeat(y, y[|x|], n), y, 0)
  {
    var c := y[|x|];
    var s := Repeat(y, c, n);
    RepeatStarts(y, c, n);
    assert s[..|y| + 1] == y + [c];
    assert s[0..|y|] == s[..|y| + 1][..|y|] == y;
    assert s[|y|] == s[..|y| + 1][|y|] == c;
    assert s[0..|x|] == s[0..|y|][..|x|] == x;
    assert s[|x|] == s[0..|y|][|x|] == c;
  }

  /** A text that the first declared label starts is given to it. */
  lemma FirstWins(word: CharClass, output: string, labels: seq<Label>)
    requires labels != [] && LabelAt(word, Lower(output), labels[0], 0)
    requires forall l :: l in labels ==> !Names(l, Lower(StripAffixes(word, output))) || StripAffixes(word, output) == ""
    ensures Parsed(word, output, labels).Some? && Parsed(word, output, labels).value.canonical == labels[0].canonical
  {
    hide Place, LabelAt, Fast, Slow, Names, StripAffixes, SeveralPresent;
    var hay, core := Lower(output), Lower(StripAffixes(word, output));
    FastIs(labels, core);
    PlaceIs(word, hay, labels[0]);
    assert Wins(word, hay, labels, 0);
    SlowIs(word, hay, labels);
  }

  lemma LowerTwice(s: string)
    ensures Lower(Lower(s)) == Lower(s)
  {}

  /** A text on which labels `i` and `j` tie, so that each wins when it is declared first. */
  lemma TieText(word: CharClass, labels: seq<Label>, i: nat, j: nat) returns (output: string)
    requires Vocabulary(labels) && i < |labels| && j < |labels| && MayTie(word, labels[i], labels[j])
    ensures LabelAt(word, Lower(output), labels[i], 0) && LabelAt(word, Lower(output), labels[j], 0)
    ensures forall l :: l in labels ==> !Names(l, Lower(StripAffixes(word, output))) || StripAffixes(word, output) == ""
  {
    hide StripAffixes, TokenAt, LongestSurface, Clash, Texts;
    var a, b :| a in Texts(labels[i]) && b in Texts(labels[j]) && BoundaryPrefix(word, Lower(a), Lower(b));
    assert labels[i] in labels && a != "";
    var x, y := Lower(a), Lower(b);
    var c := y[|x|];
    var n := LongestSurface(labels) + 1;
    output := Repeat(y, c, n);
    LowerTwice(b);
    assert LowerChar(y[|x|]) == Lower(y)[|x|];
    RepeatIsLower(y, c, n);
    RepeatTies(word, x, y, n);
    StrippedRepeat(word, y, c, n);
    var core := StripAffixes(word, output);
    forall l | l in labels
      ensures !Names(l, Lower(core)) || core == ""
    {
      if Names(l, Lower(core)) {
        var t := NamedText(l, Lower(core));
        assert |t| <= LongestSurface(labels);
      }
    }
  }

  /** Two labels that may tie have a text that parses to each of them, whichever is declared first. */
  lemma TieMatters(word: CharClass, labels: seq<Label>, i: nat, j: nat) returns (output: string)
    requires Vocabulary(labels) && i < |labels| && j < |labels| && i != j && MayTie(word, labels[i], labels[j])
    ensures var (a, b) := (Parsed(word, output, ToFront(labels, i)), Parsed(word, output, ToFront(labels, j)));
      a.Some? && b.Some? && a.value.canonical == labels[i].canonical && b.value.canonical == labels[j].canonical
    ensures labels[i].canonical != labels[j].canonical
  {
    hide LabelAt, Names, StripAffixes, Parsed, Vocabulary, MayTie, ToFront;
    output := TieText(word, labels, i, j);
    ToFrontReorders(labels, i);
    ToFrontReorders(labels, j);
    FrontNotEmpty(labels, i);
    FrontNotEmpty(labels, j);
    FirstWins(word, output, ToFront(labels, i));
    FirstWins(word, output, ToFront(labels, j));
    OwnCanonical(labels, i, j);
  }

  lemma FrontNotEmpty(labels: seq<Label>, i: nat)
    requires i < |labels|
    ensures ToFront(labels, i) != []
  {}

  lemma OwnCanonical(labels: seq<Label>, i: nat, j: nat)
    requires Vocabulary(labels) && i < |labels| && j < |labels| && i != j
    ensures labels[i].canonical != labels[j].canonical
  {
    assert labels[i].canonical in Texts(labels[i]) && labels[j].canonical in Texts(labels[j]);
    Separate(labels, i, j);
  }

  ghost predicate OrderFree(word: CharClass, labels: seq<Label>) {
    forall output, b :: Reordered(labels, b) ==> Parsed(word, output, labels) == Parsed(word, output, b)
  }

  /** Declaration order never matters exactly when no two labels can tie. */
  lemma OrderFreeIff(word: CharClass, labels: seq<Label>)
    requires Vocabulary(labels)
    ensures OrderFree(word, labels) <==> TieFree(word, labels)
  {
    hide Parsed, MayTie, Reordered, Vocabulary;
    if TieFree(word, labels) {
      forall output, b | Reordered(labels, b)
        ensures Parsed(word, output, labels) == Parsed(word, output, b)
      {
        OrderDoesNotMatter(word, output, labels, b);
      }
    } else {
      var i: nat, j: nat :| i < |labels| && j < |labels| && i != j && MayTie(word, labels[i], labels[j]);
      var output := TieMatters(word, labels, i, j);
      ToFrontReorders(labels, i);
      ToFrontReorders(labels, j);
      assert Parsed(word, output, labels) != Parsed(word, output, ToFront(labels, i))
        || Parsed(word, output, labels) != Parsed(word, output, ToFront(labels, j));
    }
  }
}
