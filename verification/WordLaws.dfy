// The words of a text, and what the cache's key normalization keeps of a key.
module WordLaws {
  import opened Text
  import ResponseCache

  predicate Blank(s: string) { forall i :: 0 <= i < |s| ==> IsWhitespace(s[i]) }

  /** Not empty, no white space. */
  predicate IsWord(w: string) { w != "" && forall i :: 0 <= i < |w| ==> !IsWhitespace(w[i]) }

  ghost predicate AreWords(ws: seq<string>) { forall i :: 0 <= i < |ws| ==> IsWord(ws[i]) }

  lemma BlankFirst(s: string)
    requires s != "" && IsWhitespace(s[0])
    ensures Words(s) == Words(s[1..])
  {
    hide IsWhitespace;
  }

  lemma {:induction false} WordLengthIs(s: string, n: nat)
    requires n <= |s| && (forall i :: 0 <= i < n ==> !IsWhitespace(s[i])) && (n < |s| ==> IsWhitespace(s[n]))
    ensures WordLength(s) == n
  {
    hide IsWhitespace;
    if n > 0 { WordLengthIs(s[1..], n - 1); }
  }

  lemma {:induction false} WordLengthStops(s: string)
    ensures forall i :: 0 <= i < WordLength(s) ==> !IsWhitespace(s[i])
    ensures WordLength(s) < |s| ==> IsWhitespace(s[WordLength(s)])
  {
    hide IsWhitespace;
    if s != "" && !IsWhitespace(s[0]) { WordLengthStops(s[1..]); }
  }

  /** A text that begins with a word and then ends or has white space. */
  lemma WordFirst(w: string, rest: string)
    requires IsWord(w) && (rest == "" || IsWhitespace(rest[0]))
    ensures Words(w + rest) == [w] + Words(rest)
  {
    hide IsWhitespace, WordLength;
    var s := w + rest;
    assert s[0] == w[0];
    WordLengthIs(s, |w|);
    assert s[..|w|] == w && s[|w|..] == rest;
  }

  /** No words, one word, and words on both sides of white space: this is all there is to `Words`. */
  lemma NoWords()
    ensures Words("") == []
  {}

  lemma OneWord(w: string)
    requires IsWord(w)
    ensures Words(w) == [w]
  {
    hide Words, IsWhitespace;
    WordFirst(w, "");
    NoWords();
    assert w + "" == w;
  }

  lemma {:induction false} WordsAtBlank(a: string, c: char, b: string)
    requires IsWhitespace(c)
    ensures Words(a + [c] + b) == Words(a) + Words(b)
    decreases |a|
  {
    hide IsWhitespace, Words, WordLength;
    var s := a + [c] + b;
    if a == "" {
      NoWords();
      BlankFirst(s);
      assert s[1..] == b;
    } else if IsWhitespace(a[0]) {
      BlankFirst(a);
      BlankFirst(s);
      assert s[1..] == a[1..] + [c] + b;
      WordsAtBlank(a[1..], c, b);
    } else {
      var n := WordLength(a);
      WordLengthStops(a);
      var w, rest := a[..n], a[n..];
      assert a == w + rest && s == w + (rest + [c] + b);
      WordFirst(w, rest);
      WordFirst(w, rest + [c] + b);
      WordsAtBlank(rest, c, b);
    }
  }

  lemma {:induction false} WordsAreWords(s: string)
    ensures AreWords(Words(s))
    decreases |s|
  {
    hide IsWhitespace, Words, WordLength;
    if s == "" {
      NoWords();
    } else if IsWhitespace(s[0]) {
      BlankFirst(s);
      WordsAreWords(s[1..]);
    } else {
      var n := WordLength(s);
      WordLengthStops(s);
      assert s == s[..n] + s[n..];
      WordFirst(s[..n], s[n..]);
      WordsAreWords(s[n..]);
    }
  }

  lemma {:induction false} WordsOfJoin(ws: seq<string>)
    requires AreWords(ws)
    ensures Words(Join(ws, " ")) == ws
  {
    hide IsWhitespace, Words;
    SpaceIsBlank();
    if ws == [] {
      NoWords();
    } else if |ws| == 1 {
      OneWord(ws[0]);
      assert ws == [ws[0]];
    } else {
      assert AreWords(ws[1..]);
      WordsOfJoin(ws[1..]);
      assert IsWord(ws[0]);
      OneWord(ws[0]);
      WordsAtBlank(ws[0], ' ', Join(ws[1..], " "));
      assert ws == [ws[0]] + ws[1..];
    }
  }

  lemma SpaceIsBlank()
    ensures IsWhitespace(' ') && IsWhitespace('\n') && IsWhitespace('\r')
  {}

  // ---- Key normalization ----

  /** Normalizing lower-cases a text that has the words of the key. */
  lemma NormalizeKeepsWords(lower: string -> string, key: string)
    ensures exists s :: ResponseCache.Normalize(lower, key) == lower(s) && Words(s) == Words(key)
  {
    hide Words;
    WordsAreWords(key);
    WordsOfJoin(Words(key));
    assert ResponseCache.Normalize(lower, key) == lower(Join(Words(key), " "));
  }

  /** Where lower-casing tells texts apart, two keys share an entry exactly when they have the same words. */
  lemma NormalizeIff(lower: string -> string, a: string, b: string)
    requires forall x, y :: lower(x) == lower(y) ==> x == y
    ensures ResponseCache.Normalize(lower, a) == ResponseCache.Normalize(lower, b) <==> Words(a) == Words(b)
  {
    hide Words;
    WordsAreWords(a);
    WordsAreWords(b);
    WordsOfJoin(Words(a));
    WordsOfJoin(Words(b));
  }
}
