// Structuring text loses no word of it: every block holds the words of its paragraph, in order, less its marks.
module MarkdownWords {
  import opened Ascii
  import opened Document
  import opened Markdown
  import opened Options
  import opened Text
  import opened WordLaws

  /** The words of several texts, one after another. */
  function WordsAll(texts: seq<string>): seq<string> {
    if texts == [] then [] else Words(texts[0]) + WordsAll(texts[1..])
  }

  /** A mark before each text, as one more word. */
  function MarkedWords(marks: seq<string>, texts: seq<string>): seq<string>
    requires |marks| == |texts|
  {
    if texts == [] then [] else [marks[0]] + Words(texts[0]) + MarkedWords(marks[1..], texts[1..])
  }

  predicate AllHashes(s: string) { s != "" && forall i :: 0 <= i < |s| ==> s[i] == '#' }

  predicate AllDigits(s: string) { s != "" && forall i :: 0 <= i < |s| ==> IsDigit(s[i]) }

  /** The marks each kind of block opens its lines with. */
  predicate MarkFits(b: Block, mark: string) {
    match b
    case Heading(level, _) => AllHashes(mark) && |mark| % 256 == level
    case BulletList(_) => mark == "-" || mark == "*"
    case NumberedList(_) => |mark| > 1 && AllDigits(mark[..|mark| - 1]) && (mark[|mark| - 1] == '.' || mark[|mark| - 1] == ')')
    case _ => false
  }

  function Texts(b: Block): seq<string> {
    match b
    case Heading(_, text) => [text]
    case Paragraph(text) => [text]
    case BulletList(items) => items
    case NumberedList(items) => items
    case _ => []
  }

  /** The words are those of the block's texts, behind one mark each unless it is a paragraph. */
  ghost predicate Holds(b: Block, words: seq<string>) {
    if b.Paragraph? then words == Words(b.text)
    else exists marks: seq<string> :: HoldsMarked(b, marks, words)
  }

  ghost predicate HoldsMarked(b: Block, marks: seq<string>, words: seq<string>) {
    && |marks| == |Texts(b)| > 0 && (forall i :: 0 <= i < |marks| ==> MarkFits(b, marks[i]))
    && words == MarkedWords(marks, Texts(b))
  }

  // ---- Trimming, lines and paragraphs keep words ----

  lemma {:induction false} TrimStartKeeps(s: string)
    ensures Words(TrimStart(s)) == Words(s)
  {
    hide IsWhitespace, Words;
    if s != "" && IsWhitespace(s[0]) {
      BlankFirst(s);
      TrimStartKeeps(s[1..]);
    }
  }

  lemma {:induction false} TrimEndKeeps(s: string)
    ensures Words(TrimEnd(s)) == Words(s)
  {
    hide IsWhitespace, Words;
    if s != "" && IsWhitespace(s[|s| - 1]) {
      BlankLast(s);
      TrimEndKeeps(s[..|s| - 1]);
    }
  }

  lemma BlankLast(s: string)
    requires s != "" && IsWhitespace(s[|s| - 1])
    ensures Words(s[..|s| - 1]) == Words(s)
  {
    hide IsWhitespace, Words;
    BlankAppended(s[..|s| - 1], s[|s| - 1]);
    assert s[..|s| - 1] + [s[|s| - 1]] == s;
  }

  lemma BlankAppended(s: string, c: char)
    requires IsWhitespace(c)
    ensures Words(s + [c]) == Words(s)
  {
    hide IsWhitespace, Words;
    WordsAtBlank(s, c, "");
    NoWords();
    assert s + [c] + "" == s + [c];
  }

  lemma TrimKeeps(s: string)
    ensures Words(Trim(s)) == Words(s)
  {
    hide TrimStart, TrimEnd, Words;
    TrimStartKeeps(s);
    TrimEndKeeps(TrimStart(s));
  }

  lemma StripKeeps(s: string)
    ensures Words(StripReturn(s)) == Words(s)
  {
    hide IsWhitespace, Words;
    SpaceIsBlank();
    if s != "" && s[|s| - 1] == '\r' { BlankLast(s); }
  }

  lemma {:induction false} LinesKeep(s: string)
    ensures WordsAll(SplitLines(s)) == Words(s)
    decreases |s|
  {
    hide Words, LineFeed, StripReturn, IsWhitespace;
    if s == "" {
      NoWords();
    } else {
      var k := LineFeed(s);
      if k == |s| {
        assert [s][1..] == [];
      } else {
        LinesKeep(s[k + 1..]);
        SpaceIsBlank();
        assert s == s[..k] + [s[k]] + s[k + 1..];
        WordsAtBlank(s[..k], s[k], s[k + 1..]);
        StripKeeps(s[..k]);
      }
    }
  }

  lemma {:induction false} CleanKeeps(lines: seq<string>)
    ensures WordsAll(CleanLines(lines)) == WordsAll(lines)
  {
    hide Words, Trim;
    if lines != [] {
      CleanKeeps(lines[1..]);
      TrimKeeps(lines[0]);
      NoWords();
      var first, rest := Trim(lines[0]), CleanLines(lines[1..]);
      if first == "" {
        assert CleanLines(lines) == rest;
      } else {
        assert CleanLines(lines) == [first] + rest && ([first] + rest)[1..] == rest;
      }
    }
  }

  lemma {:induction false} JoinKeeps(lines: seq<string>)
    ensures Words(Join(lines, " ")) == WordsAll(lines)
  {
    hide Words, IsWhitespace;
    NoWords();
    SpaceIsBlank();
    if |lines| == 1 {
      assert lines[1..] == [];
    } else if |lines| > 1 {
      JoinKeeps(lines[1..]);
      WordsAtBlank(lines[0], ' ', Join(lines[1..], " "));
    }
  }

  /** The lines a block is made of. */
  function LinesOf(para: string): seq<string> { CleanLines(SplitLines(Trim(para))) }

  lemma LinesOfKeep(para: string)
    ensures WordsAll(LinesOf(para)) == Words(para)
  {
    hide Words, Trim, SplitLines, CleanLines, WordsAll;
    TrimKeeps(para);
    LinesKeep(Trim(para));
    CleanKeeps(SplitLines(Trim(para)));
  }

  // ---- Marks ----

  lemma MarkIsWord(mark: string, text: string)
    requires mark != "" && forall i :: 0 <= i < |mark| ==> !IsWhitespace(mark[i])
    ensures Words(mark + " " + text) == [mark] + Words(text)
  {
    hide Words, IsWhitespace;
    SpaceIsBlank();
    OneWord(mark);
    WordsAtBlank(mark, ' ', text);
  }

  ghost predicate Marks(line: string, mark: string, text: string) {
    Words(line) == [mark] + Words(text)
  }

  lemma BulletMark(line: string)
    requires BulletItem(line).Some?
    ensures Marks(line, line[..1], BulletItem(line).value) && (line[..1] == "-" || line[..1] == "*")
  {
    hide Words;
    assert line == line[..1] + " " + line[2..];
    MarkIsWord(line[..1], line[2..]);
  }

  lemma SignThere(line: string, k: nat)
    requires k <= |line| && (". " <= line[k..] || ") " <= line[k..])
    ensures k + 2 <= |line| && (line[k] == '.' || line[k] == ')') && line[k + 1] == ' ' && line[k..][2..] == line[k + 2..]
  {
    assert line[k..][0] == line[k] && line[k..][1] == line[k + 1];
  }

  lemma NumberShape(line: string)
    requires NumberItem(line).Some?
    ensures var k := RunEnd(line, 0, IsDigit);
      && 0 < k && k + 2 <= |line| && (line[k] == '.' || line[k] == ')') && line[k + 1] == ' '
      && NumberItem(line).value == line[k + 2..]
  {
    hide RunEnd, IsDigit;
    SignThere(line, RunEnd(line, 0, IsDigit));
  }

  /** A numeral and a sign, a space, and the text. */
  lemma SignedMark(line: string, k: nat)
    requires 0 < k && k + 2 <= |line| && (line[k] == '.' || line[k] == ')') && line[k + 1] == ' '
    requires forall i :: 0 <= i < k ==> IsDigit(line[i])
    ensures Marks(line, line[..k + 1], line[k + 2..]) && MarkFits(NumberedList([]), line[..k + 1])
  {
    hide Words, IsWhitespace, IsDigit;
    var mark := line[..k + 1];
    assert line == mark + " " + line[k + 2..];
    DigitsAreNotBlank(mark);
    MarkIsWord(mark, line[k + 2..]);
    assert mark[..k] == line[..k];
  }

  lemma NumberMark(line: string)
    requires NumberItem(line).Some?
    ensures var k := RunEnd(line, 0, IsDigit);
      0 < k < |line| && Marks(line, line[..k + 1], NumberItem(line).value) && MarkFits(NumberedList([]), line[..k + 1])
  {
    hide Words, NumberItem, Marks, MarkFits, IsDigit;
    NumberShape(line);
    SignedMark(line, RunEnd(line, 0, IsDigit));
  }

  lemma DigitsAreNotBlank(s: string)
    requires forall i :: 0 <= i < |s| ==> IsDigit(s[i]) || s[i] == '.' || s[i] == ')'
    ensures forall i :: 0 <= i < |s| ==> !IsWhitespace(s[i])
  {}

  lemma HeadingMark(line: string)
    requires HeadingOf(line).Some?
    ensures HeadingOf(line).value.Heading? && Marks(line, line[..HashCount(line)], HeadingOf(line).value.text)
    ensures MarkFits(HeadingOf(line).value, line[..HashCount(line)])
  {
    hide Words, Trim, HashCount;
    var n := HashCount(line);
    assert line == line[..n] + " " + line[n..][1..];
    assert " " + line[n..][1..] == line[n..];
    MarkIsWord(line[..n], line[n..][1..]);
    TrimKeeps(line[n..]);
    SpaceIsBlank();
    BlankFirst(line[n..]);
  }

  function MarksOf(lines: seq<string>, mark: string -> string): (marks: seq<string>)
    ensures |marks| == |lines| && forall i :: 0 <= i < |lines| ==> marks[i] == mark(lines[i])
  {
    seq(|lines|, i requires 0 <= i < |lines| => mark(lines[i]))
  }

  /** The marks of all the lines of a list. */
  lemma {:induction false} ListMarks(b: Block, lines: seq<string>, f: string -> Option<string>, mark: string -> string)
    requires |FilterMap(lines, f)| == |lines|
    requires forall l :: l in lines && f(l).Some? ==> Marks(l, mark(l), f(l).value) && MarkFits(b, mark(l))
    ensures WordsAll(lines) == MarkedWords(MarksOf(lines, mark), FilterMap(lines, f))
    ensures forall i :: 0 <= i < |lines| ==> MarkFits(b, MarksOf(lines, mark)[i])
  {
    hide Words, MarkFits;
    FilterMapShortest(lines, f);
    if lines != [] {
      ListMarks(b, lines[1..], f, mark);
      assert MarksOf(lines, mark)[1..] == MarksOf(lines[1..], mark);
      assert FilterMap(lines, f) == [f(lines[0]).value] + FilterMap(lines[1..], f);
      assert Marks(lines[0], mark(lines[0]), f(lines[0]).value);
    }
    forall i | 0 <= i < |lines| ensures MarkFits(b, MarksOf(lines, mark)[i]) { Each(lines, f, i); }
  }

  /** Only when every line gives an item are there as many items as lines. */
  lemma {:induction false} FilterMapShortest(lines: seq<string>, f: string -> Option<string>)
    ensures |FilterMap(lines, f)| <= |lines|
    ensures |FilterMap(lines, f)| == |lines| && lines != [] ==> f(lines[0]).Some? && |FilterMap(lines[1..], f)| == |lines| - 1
  {
    if lines != [] { FilterMapShortest(lines[1..], f); }
  }

  lemma {:induction false} Each(lines: seq<string>, f: string -> Option<string>, i: nat)
    requires |FilterMap(lines, f)| == |lines| && i < |lines|
    ensures f(lines[i]).Some?
    decreases |lines|
  {
    FilterMapShortest(lines, f);
    if i > 0 { Each(lines[1..], f, i - 1); }
  }

  // ---- One paragraph ----

  lemma ListHolds(b: Block, lines: seq<string>, f: string -> Option<string>, mark: string -> string)
    requires lines != [] && |FilterMap(lines, f)| == |lines| && Texts(b) == FilterMap(lines, f) && !b.Paragraph?
    requires forall l :: l in lines && f(l).Some? ==> Marks(l, mark(l), f(l).value) && MarkFits(b, mark(l))
    ensures Holds(b, WordsAll(lines))
  {
    hide Words, MarkFits, Marks, WordsAll, MarkedWords, Texts;
    ListMarks(b, lines, f, mark);
    assert HoldsMarked(b, MarksOf(lines, mark), WordsAll(lines));
  }

  function BulletMarkOf(line: string): string { if line == "" then "" else line[..1] }

  function NumberMarkOf(line: string): string {
    var k := RunEnd(line, 0, IsDigit);
    if k < |line| then line[..k + 1] else ""
  }

  lemma BulletsHold(lines: seq<string>)
    requires lines != [] && |FilterMap(lines, BulletItem)| == |lines|
    ensures Holds(BulletList(FilterMap(lines, BulletItem)), WordsAll(lines))
  {
    hide FilterMap, WordsAll, Marks, Holds;
    var b := BulletList(FilterMap(lines, BulletItem));
    forall l | l in lines && BulletItem(l).Some?
      ensures Marks(l, BulletMarkOf(l), BulletItem(l).value) && MarkFits(b, BulletMarkOf(l))
    {
      BulletMark(l);
    }
    ListHolds(b, lines, BulletItem, BulletMarkOf);
  }

  lemma NumbersHold(lines: seq<string>)
    requires lines != [] && |FilterMap(lines, NumberItem)| == |lines|
    ensures Holds(NumberedList(FilterMap(lines, NumberItem)), WordsAll(lines))
  {
    hide FilterMap, WordsAll, Marks, Holds, NumberItem;
    var b := NumberedList(FilterMap(lines, NumberItem));
    forall l | l in lines && NumberItem(l).Some?
      ensures Marks(l, NumberMarkOf(l), NumberItem(l).value) && MarkFits(b, NumberMarkOf(l))
    {
      NumberMark(l);
    }
    ListHolds(b, lines, NumberItem, NumberMarkOf);
  }

  lemma HeadingHolds(line: string)
    requires HeadingOf(line).Some?
    ensures Holds(HeadingOf(line).value, WordsAll([line]))
  {
    hide Words, HeadingOf, MarkFits;
    HeadingMark(line);
    var b := HeadingOf(line).value;
    var marks := [line[..HashCount(line)]];
    assert [line][1..] == [] && marks[1..] == [] && Texts(b)[1..] == [];
    assert MarkedWords(marks, Texts(b)) == [marks[0]] + Words(b.text) + MarkedWords(marks[1..], Texts(b)[1..]);
    assert HoldsMarked(b, marks, WordsAll([line]));
  }

  /** A paragraph without words is dropped; any other becomes a block that holds its words. */
  lemma BlockHolds(para: string)
    ensures BlockOf(para).None? <==> Words(para) == []
    ensures BlockOf(para).Some? ==> Holds(BlockOf(para).value, Words(para))
  {
    hide Words, WordsAll, HeadingOf, FilterMap, BulletItem, NumberItem, Join, Trim, SplitLines, CleanLines, HoldsMarked;
    var lines := LinesOf(para);
    LinesOfKeep(para);
    if lines == [] {
      NoneHeld();
    } else {
      LinesHaveWords(SplitLines(Trim(para)));
      if |lines| == 1 && HeadingOf(lines[0]).Some? {
        assert lines == [lines[0]];
        HeadingHolds(lines[0]);
      } else if |FilterMap(lines, BulletItem)| == |lines| {
        BulletsHold(lines);
      } else if |FilterMap(lines, NumberItem)| == |lines| {
        NumbersHold(lines);
      } else {
        JoinKeeps(lines);
      }
    }
  }

  lemma NoneHeld()
    ensures WordsAll([]) == []
  {}

  lemma LinesHaveWords(raw: seq<string>)
    requires CleanLines(raw) != []
    ensures WordsAll(CleanLines(raw)) != []
  {
    hide Words, Trim;
    FirstLine(raw);
    var line := CleanLines(raw)[0];
    WordThere(line);
  }

  lemma {:induction false} FirstLine(raw: seq<string>)
    requires CleanLines(raw) != []
    ensures CleanLines(raw)[0] != "" && exists l :: CleanLines(raw)[0] == Trim(l)
  {
    hide Trim;
    if Trim(raw[0]) == "" { FirstLine(raw[1..]); }
  }

  lemma WordThere(line: string)
    requires line != "" && exists l :: line == Trim(l)
    ensures Words(line) != []
  {
    hide IsWhitespace;
    var l :| line == Trim(l);
    assert line[0] == TrimStart(l)[0];
    assert TrimStart(line) == line;
  }

  // ---- The whole text ----

  /** The words are those of the blocks, one after another. */
  ghost predicate HoldAll(blocks: seq<Block>, parts: seq<seq<string>>, words: seq<string>) {
    |blocks| == |parts| && words == Flat(parts) && forall i :: 0 <= i < |blocks| ==> Holds(blocks[i], parts[i])
  }

  function Flat(parts: seq<seq<string>>): seq<string> {
    if parts == [] then [] else Flat(parts[..|parts| - 1]) + parts[|parts| - 1]
  }

  lemma {:induction false} WordsAllPlus(a: seq<string>, b: seq<string>)
    ensures WordsAll(a + b) == WordsAll(a) + WordsAll(b)
    decreases |a|
  {
    hide Words;
    if a == [] {
      assert a + b == b;
    } else {
      assert (a + b)[1..] == a[1..] + b;
      WordsAllPlus(a[1..], b);
    }
  }

  lemma {:induction false} SplitKeeps(s: string)
    ensures WordsAll(Split(s)) == Words(s)
    decreases |s|
  {
    hide Words, IsWhitespace, Ascii.Find;
    var k := Ascii.Find(s, GAP, 0);
    if k == -1 {
      assert [s][1..] == [];
    } else {
      GapParts(s, k);
      SplitKeeps(s[k + 2..]);
      SpaceIsBlank();
      WordsAtBlank(s[..k], '\n', "\n" + s[k + 2..]);
      BlankFirst("\n" + s[k + 2..]);
      assert ("\n" + s[k + 2..])[1..] == s[k + 2..];
    }
  }

  lemma GapParts(s: string, k: nat)
    requires Occurs(s, GAP, k)
    ensures k + 2 <= |s| && s == s[..k] + ['\n'] + ("\n" + s[k + 2..])
  {
    assert s[k..k + 2] == GAP && s[k..k + 2][0] == s[k] && s[k..k + 2][1] == s[k + 1];
  }

  lemma HoldMore(blocks: seq<Block>, parts: seq<seq<string>>, words: seq<string>, b: Block, more: seq<string>)
    requires HoldAll(blocks, parts, words) && Holds(b, more)
    ensures HoldAll(blocks + [b], parts + [more], words + more)
  {
    hide Holds;
    assert (parts + [more])[..|parts|] == parts;
  }

  lemma {:induction false} BlocksHold(paras: seq<string>) returns (parts: seq<seq<string>>)
    ensures HoldAll(BlocksOf(paras), parts, WordsAll(paras))
  {
    hide BlockOf, Holds, Words, HoldAll, WordsAll;
    if paras == [] {
      parts := [];
      NothingHeld();
    } else {
      var init, last := paras[..|paras| - 1], paras[|paras| - 1];
      parts := BlocksHold(init);
      BlockHolds(last);
      LastWords(init, last);
      assert paras == init + [last];
      if BlockOf(last).Some? {
        HoldMore(BlocksOf(init), parts, WordsAll(init), BlockOf(last).value, Words(last));
        parts := parts + [Words(last)];
      } else {
        assert BlocksOf(paras) == BlocksOf(init) && WordsAll(init) + [] == WordsAll(init);
      }
    }
  }

  lemma NothingHeld()
    ensures HoldAll(BlocksOf([]), [], WordsAll([]))
  {}

  lemma LastWords(init: seq<string>, last: string)
    ensures WordsAll(init + [last]) == WordsAll(init) + Words(last)
  {
    hide Words;
    WordsAllPlus(init, [last]);
    assert [last][1..] == [];
  }

  /** Structuring a text keeps all its words, block by block and in order; only the marks of the blocks are taken off. */
  lemma StructuredHolds(title: string, body: string)
    ensures Structured(title, body).title == title
    ensures exists parts: seq<seq<string>> :: HoldAll(Structured(title, body).blocks, parts, Words(body))
  {
    hide BlocksOf, Split, Words, HoldAll;
    SplitKeeps(body);
    var parts := BlocksHold(Split(body));
  }
}
