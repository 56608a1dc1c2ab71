// The adaptive code fence, and a reader of fenced code blocks (section 4.5 of the CommonMark spec)
// that gets the language tag and the source back.
module CodeFence {
  import opened Options
  import Text

  const TICK := '`'

  function Ticks(n: nat): (s: string)
    ensures |s| == n && forall i :: 0 <= i < n ==> s[i] == TICK
  {
    seq(n, _ => TICK)
  }

  // ---- Runs of backticks ----

  predicate RunAt(s: string, i: nat, k: nat) {
    i + k <= |s| && forall j :: i <= j < i + k ==> s[j] == TICK
  }

  ghost predicate HasRun(s: string, k: nat) {
    exists i: nat :: RunAt(s, i, k)
  }

  /** Backticks at the end. */
  function TrailingRun(s: string): (k: nat)
    ensures k <= |s| && (forall j :: |s| - k <= j < |s| ==> s[j] == TICK) && (k < |s| ==> s[|s| - k - 1] != TICK)
  {
    if s != "" && s[|s| - 1] == TICK then 1 + TrailingRun(s[..|s| - 1]) else 0
  }

  function LongestRun(s: string): nat {
    if s == "" then 0
    else
      var before, here := LongestRun(s[..|s| - 1]), TrailingRun(s);
      if here > before then here else before
  }

  /** The longest run really is one, and no run is longer. */
  lemma {:induction false} LongestRunIs(s: string, k: nat)
    ensures HasRun(s, k) <==> k <= LongestRun(s)
  {
    if s == "" {
      assert RunAt(s, 0, 0);
    } else {
      var init := s[..|s| - 1];
      LongestRunIs(init, k);
      if HasRun(init, k) {
        var i: nat :| RunAt(init, i, k);
        assert RunAt(s, i, k);
      }
      if k <= TrailingRun(s) { assert RunAt(s, |s| - k, k); }
      if HasRun(s, k) {
        var i: nat :| RunAt(s, i, k);
        if i + k < |s| { assert RunAt(init, i, k); }
      }
    }
  }

  /** `code_fence`: at least three backticks, and one more than the longest run inside. */
  method FenceFor(source: string) returns (fence: string)
    ensures fence == Fence(source)
  {
    hide LongestRun, TrailingRun, Ticks;
    NoRun();
    var longest, run := 0, 0;
    for i := 0 to |source|
      invariant longest == LongestRun(source[..i]) && run == TrailingRun(source[..i])
    {
      RunGrows(source, i);
      if source[i] == TICK {
        run := run + 1;
        longest := if run > longest then run else longest;
      } else {
        run := 0;
      }
    }
    assert source[..|source|] == source;
    fence := Ticks((if longest > 2 then longest else 2) + 1);
  }

  lemma NoRun()
    ensures LongestRun("") == 0 && TrailingRun("") == 0
  {}

  lemma RunGrows(s: string, i: nat)
    requires i < |s|
    ensures var run := if s[i] == TICK then 1 + TrailingRun(s[..i]) else 0;
      && TrailingRun(s[..i + 1]) == run
      && LongestRun(s[..i + 1]) == if run > LongestRun(s[..i]) then run else LongestRun(s[..i])
  {
    assert s[..i + 1][..i] == s[..i] && s[..i + 1][i] == s[i];
  }

  function FenceLength(source: string): (n: nat)
    ensures n >= 3
  {
    (if LongestRun(source) > 2 then LongestRun(source) else 2) + 1
  }

  function Fence(source: string): string { Ticks(FenceLength(source)) }

  /** The fence is the shortest of three or more backticks that the source does not contain. */
  lemma FenceIsShortest(source: string, n: nat)
    ensures FenceLength(source) <= n <==> n >= 3 && !HasRun(source, n)
  {
    LongestRunIs(source, n);
  }

  // ---- The language tag ----

  predicate IsLineBreak(c: char) { c == '\n' || c == '\r' }

  /** `one_line`. */
  function OneLine(s: string): (t: string)
    ensures |t| == |s| && forall i :: 0 <= i < |t| ==> !IsLineBreak(t[i])
  {
    seq(|s|, i requires 0 <= i < |s| => if IsLineBreak(s[i]) then ' ' else s[i])
  }

  function WithoutTicks(s: string): (t: string)
    ensures forall c :: c in t <==> c in s && c != TICK
  {
    if s == "" then "" else (if s[0] == TICK then "" else [s[0]]) + WithoutTicks(s[1..])
  }

  /** `sanitize_info_string`: one line, no backtick, no white space at either end. */
  function Sanitize(lang: string): (info: string)
    ensures TagShaped(info)
  {
    FlatIsPlain(lang);
    TrimIsInside(WithoutTicks(OneLine(lang)));
    Text.Trim(WithoutTicks(OneLine(lang)))
  }

  predicate Plain(s: string) {
    forall i :: 0 <= i < |s| ==> !IsLineBreak(s[i]) && s[i] != TICK
  }

  lemma FlatIsPlain(lang: string)
    ensures Plain(WithoutTicks(OneLine(lang)))
  {
    var flat := WithoutTicks(OneLine(lang));
    forall i | 0 <= i < |flat|
      ensures !IsLineBreak(flat[i]) && flat[i] != TICK
    {
      assert flat[i] in OneLine(lang);
    }
  }

  lemma TrimIsInside(s: string)
    requires Plain(s)
    ensures TagShaped(Text.Trim(s))
  {
    var start := Text.TrimStart(s);
    var info := Text.TrimEnd(start);
    assert info != "" ==> info[0] == start[0];
  }

  predicate TagShaped(info: string) {
    && Plain(info)
    && (info != "" ==> Text.Trimmed(info))
  }

  /** A tag that is already fit for an opening fence is kept as it is. */
  lemma SanitizeKeeps(tag: string)
    requires TagShaped(tag)
    ensures Sanitize(tag) == tag
  {
    assert OneLine(tag) == tag;
    NoTicksKept(tag);
    if tag != "" { Text.TrimOfTrimmed(tag); }
  }

  /** The characters that are neither backticks nor white space, in order. */
  function Solid(s: string): string {
    if s == "" then "" else (if s[0] == TICK || Text.IsWhitespace(s[0]) then "" else [s[0]]) + Solid(s[1..])
  }

  /** Whatever the tag, only backticks and white space are lost of it. */
  lemma SanitizeLoses(lang: string)
    ensures Solid(Sanitize(lang)) == Solid(lang)
  {
    hide Text.TrimStart, Text.TrimEnd, Solid, WithoutTicks;
    SolidOneLine(lang);
    SolidTicks(OneLine(lang));
    SolidTrimStart(WithoutTicks(OneLine(lang)));
    SolidTrimEnd(Text.TrimStart(WithoutTicks(OneLine(lang))));
  }

  lemma {:induction false} SolidOneLine(s: string)
    ensures Solid(OneLine(s)) == Solid(s)
  {
    if s != "" {
      SolidOneLine(s[1..]);
      assert OneLine(s)[1..] == OneLine(s[1..]);
      assert Text.IsWhitespace('\n') && Text.IsWhitespace('\r') && Text.IsWhitespace(' ');
    }
  }

  lemma {:induction false} SolidTicks(s: string)
    ensures Solid(WithoutTicks(s)) == Solid(s)
  {
    hide Text.IsWhitespace;
    if s != "" {
      SolidTicks(s[1..]);
      var rest := WithoutTicks(s[1..]);
      assert WithoutTicks(s) == (if s[0] == TICK then "" else [s[0]]) + rest;
      if s[0] == TICK {
        assert "" + rest == rest;
      } else {
        assert ([s[0]] + rest)[1..] == rest;
      }
    }
  }

  lemma {:induction false} SolidTrimStart(s: string)
    ensures Solid(Text.TrimStart(s)) == Solid(s)
  {
    hide Text.IsWhitespace;
    if s != "" { SolidTrimStart(s[1..]); }
  }

  lemma {:induction false} SolidPlus(a: string, b: string)
    ensures Solid(a + b) == Solid(a) + Solid(b)
    decreases |a|
  {
    hide Text.IsWhitespace;
    if a == "" {
      assert a + b == b;
    } else {
      assert (a + b)[1..] == a[1..] + b;
      SolidPlus(a[1..], b);
    }
  }

  lemma {:induction false} SolidTrimEnd(s: string)
    ensures Solid(Text.TrimEnd(s)) == Solid(s)
  {
    hide Text.IsWhitespace, Solid;
    if s != "" && Text.IsWhitespace(s[|s| - 1]) {
      SolidTrimEnd(s[..|s| - 1]);
      SolidPlus(s[..|s| - 1], [s[|s| - 1]]);
      BlankIsNotSolid(s[|s| - 1]);
      assert s[..|s| - 1] + [s[|s| - 1]] == s;
    }
  }

  lemma BlankIsNotSolid(c: char)
    requires Text.IsWhitespace(c)
    ensures Solid([c]) == ""
  {
    assert [c][1..] == "";
  }

  lemma {:induction false} NoTicksKept(s: string)
    requires TICK !in s
    ensures WithoutTicks(s) == s
  {
    if s != "" { NoTicksKept(s[1..]); }
  }

  /** The `Code` arm of `render_body_markdown`. */
  method RenderCode(language: Option<string>, source: string) returns (block: string)
    ensures block == CodeBlock(language, source)
  {
    var fence := FenceFor(source);
    var lang := if language.Some? then Sanitize(language.value) else "";
    block := fence + lang + "\n" + source + "\n" + fence;
  }

  function Tag(language: Option<string>): (info: string)
    ensures TagShaped(info)
  {
    if language.Some? then Sanitize(language.value) else ""
  }

  function CodeBlock(language: Option<string>, source: string): string {
    Fence(source) + Tag(language) + "\n" + source + "\n" + Fence(source)
  }

  // ---- A reader of fenced code blocks ----

  /** Length of the first line, without its ending. */
  function LineLength(s: string): (k: nat)
    ensures k <= |s| && (forall i :: 0 <= i < k ==> !IsLineBreak(s[i])) && (k < |s| ==> IsLineBreak(s[k]))
  {
    if s == "" || IsLineBreak(s[0]) then 0 else 1 + LineLength(s[1..])
  }

  /** A line feed, a carriage return, or both. */
  function EndingLength(s: string, k: nat): (n: nat)
    requires k <= |s|
    ensures k + n <= |s| && (k < |s| ==> n > 0)
  {
    if k == |s| then 0
    else if s[k] == '\r' && k + 1 < |s| && s[k + 1] == '\n' then 2
    else 1
  }

  /** Leading occurrences of `c`, at most `most`. */
  function Leading(s: string, c: char, most: nat): (n: nat)
    ensures n <= |s| && n <= most && forall i :: 0 <= i < n ==> s[i] == c
    ensures n < |s| && n < most ==> s[n] != c
  {
    if s == "" || most == 0 || s[0] != c then 0 else 1 + Leading(s[1..], c, most - 1)
  }

  predicate IsBlank(c: char) { c == ' ' || c == '\t' }

  predicate AllBlank(s: string) { forall i :: 0 <= i < |s| ==> IsBlank(s[i]) }

  function StripStart(s: string): string {
    if s != "" && IsBlank(s[0]) then StripStart(s[1..]) else s
  }

  function StripEnd(s: string): string {
    if s != "" && IsBlank(s[|s| - 1]) then StripEnd(s[..|s| - 1]) else s
  }

  datatype Opening = Opening(indent: nat, length: nat, info: string)

  /** An opening fence: at most three spaces, three or more backticks, no backtick after them. */
  function ReadOpening(line: string): Option<Opening> {
    var indent := Leading(line, ' ', 3);
    var n := Leading(line[indent..], TICK, |line|);
    var info := line[indent..][n..];
    if n < 3 || TICK in info then None else Some(Opening(indent, n, StripEnd(StripStart(info))))
  }

  /** A closing fence is at least as long as the opening one and stands alone. */
  predicate IsClosing(line: string, length: nat) {
    var indent := Leading(line, ' ', 3);
    var n := Leading(line[indent..], TICK, |line|);
    n >= length && AllBlank(line[indent..][n..])
  }

  /** The lines up to the closing fence or the end, less the opening fence's indentation, and what follows. */
  function ReadLines(s: string, fence: Opening): (string, string)
    decreases |s|
  {
    if s == "" then ("", "")
    else
      var k := LineLength(s);
      var line, end := s[..k], k + EndingLength(s, k);
      if IsClosing(line, fence.length) then ("", s[end..])
      else
        var (more, rest) := ReadLines(s[end..], fence);
        (s[Leading(line, ' ', fence.indent)..end] + more, rest)
  }

  datatype Fenced = Fenced(info: string, content: string, rest: string)

  function ReadFenced(s: string): Option<Fenced> {
    var k := LineLength(s);
    var fence :- ReadOpening(s[..k]);
    var (content, rest) := ReadLines(s[k + EndingLength(s, k)..], fence);
    Some(Fenced(fence.info, content, rest))
  }

  // ---- The round trip ----

  lemma NoCloseWithoutRun(line: string, length: nat)
    requires IsClosing(line, length)
    ensures HasRun(line, length)
  {
    var indent := Leading(line, ' ', 3);
    var n := Leading(line[indent..], TICK, |line|);
    assert forall j :: indent <= j < indent + n ==> line[j] == line[indent..][j - indent];
    assert RunAt(line, indent, length);
  }

  lemma RunInside(s: string, from: nat, end: nat, k: nat)
    requires from <= end <= |s| && HasRun(s[from..end], k)
    ensures HasRun(s, k)
  {
    var i: nat :| RunAt(s[from..end], i, k);
    assert forall j :: from + i <= j < from + i + k ==> s[j] == s[from..end][j - from];
    assert RunAt(s, from + i, k);
  }

  /** Blocks are joined by a blank line, so a line break or nothing follows the closing fence. */
  predicate Follows(rest: string) { rest == "" || rest[0] == '\n' }

  lemma ClosingLine(n: nat, rest: string)
    requires n >= 3 && Follows(rest)
    ensures var s := Ticks(n) + rest;
      s != "" && LineLength(s) == n && IsClosing(s[..n], n) && s[n + EndingLength(s, n)..] == if rest == "" then "" else rest[1..]
  {
    var s := Ticks(n) + rest;
    assert forall i :: 0 <= i < n ==> s[i] == TICK;
    var line := s[..n];
    assert line == Ticks(n);
    assert line[0..] == line;
  }

  /** The first line of text that ends in a line feed lies within it, with its ending. */
  lemma FirstLine(u: string, tail: string)
    requires u != "" && u[|u| - 1] == '\n'
    ensures var s, k := u + tail, LineLength(u + tail);
      k < |u| && s[..k] == u[..k] && k + EndingLength(s, k) <= |u| && EndingLength(s, k) > 0
  {
    var s := u + tail;
    assert s[|u| - 1] == '\n';
  }

  lemma LineStays(u: string, k: nat, end: nat, length: nat)
    requires k <= |u| && end <= |u| && !HasRun(u, length)
    ensures !IsClosing(u[..k], length) && !HasRun(u[end..], length)
  {
    hide HasRun, IsClosing;
    if IsClosing(u[..k], length) {
      NoCloseWithoutRun(u[..k], length);
      assert u[0..k] == u[..k];
      RunInside(u, 0, k, length);
    }
    assert u[end..|u|] == u[end..];
    if HasRun(u[end..], length) { RunInside(u, end, |u|, length); }
  }

  lemma ContentLine(s: string, fence: Opening, end: nat)
    requires fence.indent == 0 && s != "" && end == LineLength(s) + EndingLength(s, LineLength(s))
    requires !IsClosing(s[..LineLength(s)], fence.length)
    ensures ReadLines(s, fence) == (s[..end] + ReadLines(s[end..], fence).0, ReadLines(s[end..], fence).1)
  {
    hide IsClosing, LineLength;
    assert s[0..end] == s[..end];
  }

  /** Some line of the text is a closing fence. */
  predicate HasClosing(u: string, length: nat)
    decreases |u|
  {
    u != "" &&
    var k := LineLength(u);
    IsClosing(u[..k], length) || HasClosing(u[k + EndingLength(u, k)..], length)
  }

  lemma {:induction false} RunlessNeverCloses(u: string, length: nat)
    requires !HasRun(u, length)
    ensures !HasClosing(u, length)
    decreases |u|
  {
    hide HasRun, IsClosing;
    if u != "" {
      var k := LineLength(u);
      LineStays(u, k, k + EndingLength(u, k), length);
      RunlessNeverCloses(u[k + EndingLength(u, k)..], length);
    }
  }

  /** The text is read as content up to its first closing fence, and all of it when it has none. */
  lemma {:induction false} LinesRoundTrip(u: string, fence: Opening, rest: string)
    requires fence.indent == 0 && fence.length >= 3 && Follows(rest)
    requires u == "" || u[|u| - 1] == '\n'
    ensures var (content, left) := ReadLines(u + (Ticks(fence.length) + rest), fence);
      if HasClosing(u, fence.length) then |content| < |u| else content == u && left == if rest == "" then "" else rest[1..]
    decreases |u|
  {
    hide IsClosing, EndingLength, ReadLines, LineLength;
    var tail := Ticks(fence.length) + rest;
    var s := u + tail;
    if u == "" {
      assert s == tail;
      CloseHere(fence, rest);
    } else {
      FirstLine(u, tail);
      var k := LineLength(s);
      var end := k + EndingLength(s, k);
      SameFirstLine(u, tail);
      if IsClosing(s[..k], fence.length) {
        ClosedHere(s, fence);
      } else {
        ContentLine(s, fence, end);
        LinesRoundTrip(u[end..], fence, rest);
        assert s[end..] == u[end..] + tail && s[..end] + u[end..] == u;
      }
    }
  }

  lemma SameFirstLine(u: string, tail: string)
    requires u != "" && u[|u| - 1] == '\n'
    ensures LineLength(u + tail) == LineLength(u)
    ensures EndingLength(u + tail, LineLength(u)) == EndingLength(u, LineLength(u))
  {
    FirstLine(u, tail);
  }

  lemma ClosedHere(s: string, fence: Opening)
    requires s != "" && IsClosing(s[..LineLength(s)], fence.length)
    ensures ReadLines(s, fence).0 == ""
  {
    hide IsClosing, LineLength;
  }

  lemma CloseHere(fence: Opening, rest: string)
    requires fence.length >= 3 && Follows(rest)
    ensures ReadLines(Ticks(fence.length) + rest, fence) == ("", if rest == "" then "" else rest[1..])
  {
    hide IsClosing, EndingLength, LineLength;
    ClosingLine(fence.length, rest);
  }

  lemma {:induction false} StripsNothing(info: string)
    requires info == "" || Text.Trimmed(info)
    ensures StripEnd(StripStart(info)) == info
  {}

  lemma OpeningLine(n: nat, info: string, after: string)
    requires n >= 3 && TagShaped(info)
    ensures var s := Ticks(n) + info + "\n" + after;
      var k := n + |info|;
      && LineLength(s) == k && EndingLength(s, k) == 1 && s[k + 1..] == after
      && ReadOpening(s[..k]) == Some(Opening(0, n, info))
  {
    hide ReadOpening, LineLength;
    OpeningReads(n, info);
    OneLineFirst(Ticks(n) + info, after);
  }

  lemma OneLineFirst(line: string, after: string)
    requires forall i :: 0 <= i < |line| ==> !IsLineBreak(line[i])
    ensures var s := line + "\n" + after;
      LineLength(s) == |line| && EndingLength(s, |line|) == 1 && s[..|line|] == line && s[|line| + 1..] == after
  {
    var s := line + "\n" + after;
    assert s[|line|] == '\n';
  }

  lemma OpeningReads(n: nat, info: string)
    requires n >= 3 && TagShaped(info)
    ensures ReadOpening(Ticks(n) + info) == Some(Opening(0, n, info))
  {
    var line := Ticks(n) + info;
    assert line[0] == TICK && line[0..] == line;
    assert Leading(line, TICK, |line|) == n by {
      assert forall i :: 0 <= i < n ==> line[i] == TICK;
      if info != "" { assert line[n] == info[0]; }
    }
    assert line[n..] == info;
    StripsNothing(info);
  }

  lemma RunMisses(s: string, i: nat, k: nat, at: nat)
    requires RunAt(s, i, k) && at < |s| && s[at] != TICK
    ensures at < i || i + k <= at
  {}

  lemma EndsRunless(source: string, n: nat)
    requires n > 0 && !HasRun(source, n)
    ensures !HasRun(source + "\n", n)
  {
    if HasRun(source + "\n", n) {
      var i: nat :| RunAt(source + "\n", i, n);
      RunMisses(source + "\n", i, n, |source|);
      assert forall j :: i <= j < i + n ==> source[j] == (source + "\n")[j];
      assert RunAt(source, i, n);
      assert false;
    }
  }

  function Fencing(n: nat, info: string, source: string): string {
    Ticks(n) + info + "\n" + source + "\n" + Ticks(n)
  }

  /** What the reader should find: the tag, the source and what follows the block. */
  function Whole(info: string, source: string, rest: string): Option<Fenced>
    requires Follows(rest)
  {
    Some(Fenced(info, source + "\n", if rest == "" then "" else rest[1..]))
  }

  /** A fence of `n` backticks gives the source back exactly when no line of it is a closing fence for `n`. */
  lemma FencingReadsIff(n: nat, info: string, source: string, rest: string)
    requires n >= 3 && TagShaped(info) && Follows(rest)
    ensures ReadFenced(Fencing(n, info, source) + rest) == Whole(info, source, rest) <==> !HasClosing(source + "\n", n)
  {
    hide LineLength, EndingLength, ReadOpening, ReadLines, TagShaped, HasClosing;
    var u := source + "\n";
    var after := u + (Ticks(n) + rest);
    assert Fencing(n, info, source) + rest == Ticks(n) + info + "\n" + after;
    OpeningLine(n, info, after);
    LinesRoundTrip(u, Opening(0, n, info), rest);
  }

  /** For every tag and source, a reader of the rendered block gets the sanitized tag and the source, verbatim. */
  lemma CodeRoundTrip(language: Option<string>, source: string, rest: string)
    requires Follows(rest)
    ensures ReadFenced(CodeBlock(language, source) + rest) == Whole(Tag(language), source, rest)
  {
    hide ReadFenced, HasRun, FenceLength, Tag, TagShaped, HasClosing;
    var n := FenceLength(source);
    FenceIsShortest(source, n);
    EndsRunless(source, n);
    RunlessNeverCloses(source + "\n", n);
    FencingReadsIff(n, Tag(language), source, rest);
  }

  /** Any shorter fence occurs in the source as a run, and a source that is such a run alone does not read back. */
  lemma ShorterFenceBreaks(source: string, n: nat, info: string, rest: string)
    requires 3 <= n < FenceLength(source) && TagShaped(info) && Follows(rest)
    ensures HasRun(source, n)
    ensures ReadFenced(Fencing(n, info, Ticks(n)) + rest) != Whole(info, Ticks(n), rest)
  {
    hide HasRun, FenceLength, ReadFenced, TagShaped, IsClosing;
    FenceIsShortest(source, n);
    ClosingLine(n, "\n");
    FencingReadsIff(n, info, Ticks(n), rest);
  }
}
