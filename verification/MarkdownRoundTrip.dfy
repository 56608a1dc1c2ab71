// Rendering a document as Markdown and structuring the text again: which documents come back.
module MarkdownRoundTrip {
  import opened Ascii
  import opened Decimal
  import opened Document
  import opened Markdown
  import opened Options
  import opened Text

  /** One line, trimmed, not empty. */
  predicate Line(s: string) { Trimmed(s) && '\n' !in s }

  predicate Lines(items: seq<string>) { items != [] && forall i :: 0 <= i < |items| ==> Line(items[i]) }

  /** What is left of a line after a list marker and one space. */
  predicate Item(s: string) { s != "" && !IsWhitespace(s[|s| - 1]) && '\n' !in s }

  predicate Items(items: seq<string>) { items != [] && forall i :: 0 <= i < |items| ==> Item(items[i]) }

  /** What a paragraph of text may become: a heading of level at most 6, a one-line paragraph or a non-empty list. */
  predicate Simple(b: Block) {
    match b
    case Heading(level, text) => level <= 6 && Line(text)
    case Paragraph(text) => Line(text)
    case BulletList(items) => Items(items)
    case NumberedList(items) => Items(items)
    case _ => false
  }

  /** A line that opens like a heading or a list item. */
  predicate MarkedLine(s: string) {
    HeadingOf(s).Some? || BulletItem(s).Some? || NumberItem(s).Some?
  }

  predicate Readable(b: Block) { (b.Heading? ==> b.level > 0) && (b.Paragraph? ==> !MarkedLine(b.text)) }

  /**
   * The blocks that come back: headings of level 1 to 6 and paragraphs of one trimmed line, the latter not opening like
   * another block, and non-empty lists of one-line items that do not end in white space.
   */
  predicate Keeps(b: Block) { Simple(b) && Readable(b) }

  /** The lines a simple block is rendered as. */
  function BodyLines(b: Block): seq<string>
    requires Simple(b)
  {
    match b
    case Heading(level, text) => [Hashes(ClampLevel(level)) + " " + text]
    case Paragraph(text) => [text]
    case BulletList(items) => BulletTexts(items)
    case NumberedList(items) => NumberTexts(items)
  }

  lemma DigitsAreNotBlank(s: string)
    requires s != "" && AllDigits(s)
    ensures !IsWhitespace(s[0]) && '\n' !in s
  {
    assert IsDigit(s[0]);
  }

  lemma LineIsItem(s: string)
    requires Line(s)
    ensures Item(s)
  {}

  lemma MarkedIsLine(mark: string, text: string)
    requires mark != "" && !IsWhitespace(mark[0]) && '\n' !in mark && Item(text)
    ensures Line(mark + text)
  {
    var s := mark + text;
    assert s[0] == mark[0] && s[|s| - 1] == text[|text| - 1];
  }

  lemma BodyLinesAreLines(b: Block)
    requires Simple(b)
    ensures Lines(BodyLines(b))
  {
    hide Line, Item, Dec;
    var lines := BodyLines(b);
    forall i | 0 <= i < |lines|
      ensures Line(lines[i])
    {
      match b
      case Heading(level, text) =>
        LineIsItem(text);
        MarkedIsLine(Hashes(ClampLevel(level)) + " ", text);
      case Paragraph(text) =>
      case BulletList(items) => MarkedIsLine("- ", items[i]);
      case NumberedList(items) =>
        DigitsAreNotBlank(Dec(i + 1));
        MarkedIsLine(Dec(i + 1) + ". ", items[i]);
        assert Dec(i + 1) + ". " + items[i] == lines[i];
    }
  }

  lemma {:induction false} UnlinesIsJoin(lines: seq<string>)
    requires lines != []
    ensures Unlines(lines) == Join(lines, "\n") + "\n"
  {
    var init, last := lines[..|lines| - 1], lines[|lines| - 1];
    if init == [] {
      assert Unlines(init) == "";
    } else {
      UnlinesIsJoin(init);
      JoinAppend(init, last, "\n");
      assert init + [last] == lines;
    }
  }

  lemma {:induction false} JoinAppend(parts: seq<string>, last: string, sep: string)
    requires parts != []
    ensures Join(parts + [last], sep) == Join(parts, sep) + sep + last
    decreases |parts|
  {
    if |parts| == 1 {
      assert (parts + [last])[1..] == [last];
    } else {
      assert (parts + [last])[1..] == parts[1..] + [last];
      JoinAppend(parts[1..], last, sep);
    }
  }

  /** A block's text is its lines joined, and a blank line. */
  lemma BlockTextIs(b: Block)
    requires Simple(b)
    ensures BlockText(b) == Join(BodyLines(b), "\n") + GAP
  {
    hide Unlines, Join;
    match b
    case Heading(level, text) => JoinOne(Hashes(ClampLevel(level)) + " " + text);
    case Paragraph(text) => JoinOne(text);
    case BulletList(items) =>
      UnlinesIsJoin(BulletTexts(items));
      EndTwice(Join(BulletTexts(items), "\n"));
    case NumberedList(items) =>
      UnlinesIsJoin(NumberTexts(items));
      EndTwice(Join(NumberTexts(items), "\n"));
  }

  lemma JoinOne(s: string)
    ensures Join([s], "\n") == s
  {}

  lemma EndTwice(s: string)
    ensures s + "\n" + "\n" == s + GAP
  {}

  /** The text of joined lines: trimmed, no blank line inside. */
  ghost predicate Solid(s: string) {
    Trimmed(s) && forall i :: 0 <= i < |s| - 1 ==> !(s[i] == '\n' && s[i + 1] == '\n')
  }

  lemma {:induction false} JoinIsSolid(lines: seq<string>)
    requires Lines(lines)
    ensures Solid(Join(lines, "\n"))
    ensures Join(lines, "\n")[0] == lines[0][0]
    decreases |lines|
  {
    if |lines| > 1 {
      var tail := lines[1..];
      assert Lines(tail) by {
        forall i | 0 <= i < |tail| ensures Line(tail[i]) { assert Line(lines[i + 1]); }
      }
      JoinIsSolid(tail);
      assert Line(lines[0]);
      SolidConcat(lines[0], Join(tail, "\n"));
    } else {
      assert Line(lines[0]);
    }
  }

  lemma SolidConcat(line: string, rest: string)
    requires Line(line) && Solid(rest)
    ensures Solid(line + "\n" + rest) && (line + "\n" + rest)[0] == line[0]
  {
    var s := line + "\n" + rest;
    assert s[0] == line[0] && s[|s| - 1] == rest[|rest| - 1];
    forall i | 0 <= i < |s| - 1
      ensures !(s[i] == '\n' && s[i + 1] == '\n')
    {
      if i < |line| {
        assert s[i] == line[i] && line[i] in line;
      } else if i == |line| {
        assert s[i + 1] == rest[0];
      } else {
        assert s[i] == rest[i - |line| - 1] && s[i + 1] == rest[i - |line|];
      }
    }
  }

  lemma {:induction false} LinesOfJoin(lines: seq<string>)
    requires Lines(lines)
    ensures SplitLines(Join(lines, "\n")) == lines
    decreases |lines|
  {
    hide Line, SplitLines;
    var line := lines[0];
    if |lines| == 1 {
      LastLine(line);
      assert lines == [line];
    } else {
      var tail := lines[1..];
      assert Lines(tail) by {
        forall i | 0 <= i < |tail| ensures Line(tail[i]) { assert Line(lines[i + 1]); }
      }
      LinesOfJoin(tail);
      FirstLine(line, Join(tail, "\n"));
      assert lines == [line] + tail;
    }
  }

  lemma LastLine(line: string)
    requires Line(line)
    ensures SplitLines(line) == [line]
  {
    LineFeedIs(line, |line|);
  }

  lemma FirstLine(line: string, rest: string)
    requires Line(line)
    ensures SplitLines(line + "\n" + rest) == [line] + SplitLines(rest)
  {
    var s := line + "\n" + rest;
    assert forall i :: 0 <= i < |line| ==> s[i] == line[i] && line[i] in line;
    assert s[|line|] == '\n';
    LineFeedIs(s, |line|);
    assert s[..|line|] == line && s[|line| + 1..] == rest;
  }

  lemma {:induction false} LineFeedIs(s: string, k: nat)
    requires k <= |s| && (forall i :: 0 <= i < k ==> s[i] != '\n') && (k < |s| ==> s[k] == '\n')
    ensures LineFeed(s) == k
  {
    if k > 0 { LineFeedIs(s[1..], k - 1); }
  }

  lemma {:induction false} CleanLinesKept(lines: seq<string>)
    requires forall i :: 0 <= i < |lines| ==> Trimmed(lines[i])
    ensures CleanLines(lines) == lines
  {
    hide Trim, Trimmed, IsWhitespace;
    if lines != [] {
      KeptByTrim(lines[0]);
      CleanLinesKept(lines[1..]);
    }
  }

  lemma KeptByTrim(s: string)
    requires Trimmed(s)
    ensures s != "" && Trim(s) == s
  {
    TrimOfTrimmed(s);
  }

  lemma {:induction false} FilterMapAll(lines: seq<string>, items: seq<string>, f: string -> Option<string>)
    requires |lines| == |items| && forall i :: 0 <= i < |lines| ==> f(lines[i]) == Some(items[i])
    ensures FilterMap(lines, f) == items
    decreases |lines|
  {
    if lines != [] {
      FilterMapAll(lines[1..], items[1..], f);
      assert items == [items[0]] + items[1..];
    }
  }

  lemma FilterMapOne(line: string, f: string -> Option<string>)
    ensures |FilterMap([line], f)| == 1 <==> f(line).Some?
    ensures f(line).Some? ==> FilterMap([line], f) == [f(line).value]
  {
    assert ([line])[1..] == [];
  }

  lemma FilterMapNone(lines: seq<string>, f: string -> Option<string>)
    requires lines != [] && f(lines[0]).None?
    ensures |FilterMap(lines, f)| < |lines|
  {
    FilterMapShort(lines[1..], f);
  }

  lemma {:induction false} FilterMapShort(lines: seq<string>, f: string -> Option<string>)
    ensures |FilterMap(lines, f)| <= |lines|
  {
    if lines != [] { FilterMapShort(lines[1..], f); }
  }

  /** Lines of 256 and more hashes: 257 of them make a heading of level 1, 256 one of level 0. */
  lemma LongHeadingReads(n: nat, text: string)
    requires n > 0 && Line(text)
    ensures HeadingOf(Hashes(n) + " " + text) == if n % 256 <= 6 then Some(Heading(n % 256, text)) else None
    ensures HeadingOf(Hashes(256) + " " + text) == Some(Heading(0, text))
    ensures HeadingOf(Hashes(257) + " " + text) == Some(Heading(1, text))
  {
    hide Line, HeadingOf;
    HeadingOfHashes(n, text);
    HeadingOfHashes(256, text);
    HeadingOfHashes(257, text);
  }

  lemma HeadingOfHashes(n: nat, text: string)
    requires n > 0 && Line(text)
    ensures HeadingOf(Hashes(n) + " " + text) == if n % 256 <= 6 then Some(Heading(n % 256, text)) else None
  {
    hide Line, HashCount, Trim;
    var s := Hashes(n) + " " + text;
    HashesCounted(n, text);
    assert s[n..] == " " + text;
    TrimSpace(text);
  }

  lemma HeadingReads(level: nat, text: string)
    requires 1 <= level <= 6 && Line(text)
    ensures HeadingOf(Hashes(level) + " " + text) == Some(Heading(level, text))
  {
    hide Line, HeadingOf;
    HeadingOfHashes(level, text);
  }

  lemma HashesCounted(level: nat, text: string)
    ensures HashCount(Hashes(level) + " " + text) == level
  {
    var s := Hashes(level) + " " + text;
    assert s[level] == ' ' && forall i :: 0 <= i < level ==> s[i] == '#';
    HashCountIs(s, level);
  }

  lemma TrimSpace(text: string)
    requires Line(text)
    ensures Trim(" " + text) == text
  {
    TrimOfTrimmed(text);
    assert (" " + text)[1..] == text;
  }

  lemma BulletReads(item: string)
    ensures BulletItem(BulletText(item)) == Some(item) && HeadingOf(BulletText(item)).None?
  {
    assert BulletText(item)[2..] == item;
  }

  lemma NumberReads(i: nat, item: string)
    ensures var s := NumberText(i, item);
      NumberItem(s) == Some(item) && HeadingOf(s).None? && BulletItem(s).None?
  {
    hide Dec;
    var d, s := Dec(i + 1), NumberText(i, item);
    assert IsDigit(d[0]) && s[0] == d[0];
    assert forall j :: 0 <= j < |d| ==> s[j] == d[j];
    RunEndUnique(s, 0, IsDigit, |d|);
    assert s[|d|..] == ". " + item && (". " + item)[2..] == item;
  }

  lemma CleanedBody(lines: seq<string>)
    requires Lines(lines)
    ensures CleanLines(SplitLines(Trim(Join(lines, "\n")))) == lines
  {
    hide Join, SplitLines, CleanLines, Trimmed, Solid;
    JoinIsSolid(lines);
    SolidIsTrimmed(Join(lines, "\n"));
    TrimOfTrimmed(Join(lines, "\n"));
    LinesOfJoin(lines);
    LinesAreTrimmed(lines);
    CleanLinesKept(lines);
  }

  lemma BulletsRead(items: seq<string>)
    requires Items(items)
    ensures BlockOf(Join(BulletTexts(items), "\n")) == Some(BulletList(items))
  {
    hide Join, SplitLines, CleanLines, FilterMap, HeadingOf, BulletItem, Line, Item, Trim;
    var lines := BulletTexts(items);
    BodyLinesAreLines(BulletList(items));
    CleanedBody(lines);
    BulletReads(items[0]);
    forall i | 0 <= i < |items| ensures BulletItem(lines[i]) == Some(items[i]) { BulletReads(items[i]); }
    FilterMapAll(lines, items, BulletItem);
  }

  lemma NumbersRead(items: seq<string>)
    requires Items(items)
    ensures BlockOf(Join(NumberTexts(items), "\n")) == Some(NumberedList(items))
  {
    hide Join, SplitLines, CleanLines, FilterMap, HeadingOf, BulletItem, NumberItem, Line, Item, Trim, NumberText;
    var lines := NumberTexts(items);
    BodyLinesAreLines(NumberedList(items));
    CleanedBody(lines);
    NumberReads(0, items[0]);
    forall i | 0 <= i < |items| ensures NumberItem(lines[i]) == Some(items[i]) { NumberReads(i, items[i]); }
    FilterMapNone(lines, BulletItem);
    FilterMapAll(lines, items, NumberItem);
  }

  lemma LineReads(line: string)
    requires Line(line)
    ensures BlockOf(line).Some?
    ensures HeadingOf(line).Some? ==> BlockOf(line) == HeadingOf(line)
    ensures BlockOf(line) == Some(Paragraph(line)) <==> !MarkedLine(line)
  {
    hide Join, SplitLines, CleanLines, FilterMap, HeadingOf, BulletItem, NumberItem, Line, Trim;
    CleanedBody([line]);
    JoinOne(line);
    FilterMapOne(line, BulletItem);
    FilterMapOne(line, NumberItem);
    JoinSingle(line);
    HeadingIsNoParagraph(line);
  }

  lemma HeadingIsNoParagraph(line: string)
    ensures HeadingOf(line) != Some(Paragraph(line))
  {}

  /** The block that the text of a simple block reads back as. */
  lemma BlockReads(b: Block)
    requires Simple(b)
    ensures BlockOf(Join(BodyLines(b), "\n")).Some?
    ensures BlockOf(Join(BodyLines(b), "\n")) == Some(b) <==> Readable(b)
  {
    hide Join, BlockOf, HeadingOf, MarkedLine, BulletTexts, NumberTexts;
    match b
    case Heading(level, text) =>
      var line := Hashes(ClampLevel(level)) + " " + text;
      BodyLinesAreLines(b);
      JoinOne(line);
      LineReads(line);
      HeadingReads(ClampLevel(level), text);
    case Paragraph(text) =>
      JoinOne(text);
      LineReads(text);
    case BulletList(items) => BulletsRead(items);
    case NumberedList(items) => NumbersRead(items);
  }

  lemma JoinSingle(s: string)
    ensures Join([s], " ") == s
  {}

  lemma SolidIsTrimmed(s: string)
    requires Solid(s)
    ensures Trimmed(s)
  {}

  lemma LinesAreTrimmed(lines: seq<string>)
    requires Lines(lines)
    ensures forall i :: 0 <= i < |lines| ==> Trimmed(lines[i])
  {
    forall i | 0 <= i < |lines| ensures Trimmed(lines[i]) { assert Line(lines[i]); }
  }

  // ---- From blocks to the whole text ----

  function Bodies(blocks: seq<Block>): (s: seq<string>)
    requires forall i :: 0 <= i < |blocks| ==> Simple(blocks[i])
    ensures |s| == |blocks|
  {
    seq(|blocks|, i requires 0 <= i < |blocks| => Join(BodyLines(blocks[i]), "\n"))
  }

  lemma {:induction false} BlockTextsAre(blocks: seq<Block>)
    requires blocks != [] && forall i :: 0 <= i < |blocks| ==> Simple(blocks[i])
    ensures BlockTexts(blocks) == Join(Bodies(blocks), GAP) + GAP
  {
    hide Join, BlockText, BodyLines, Simple;
    var init, last := blocks[..|blocks| - 1], blocks[|blocks| - 1];
    BlockTextIs(last);
    var body := Join(BodyLines(last), "\n");
    if init == [] {
      JoinGapOne(body);
      assert Bodies(blocks) == [body];
    } else {
      BlockTextsAre(init);
      assert Bodies(blocks) == Bodies(init) + [body];
      JoinAppend(Bodies(init), body, GAP);
    }
  }

  lemma JoinGapOne(s: string)
    ensures Join([s], GAP) == s
  {}

  lemma {:induction false} TrimEndDrops(s: string, blank: string)
    requires Trimmed(s) && forall i :: 0 <= i < |blank| ==> IsWhitespace(blank[i])
    ensures TrimEnd(s + blank) == s
    decreases |blank|
  {
    if blank == "" {
      assert s + blank == s;
    } else {
      assert (s + blank)[..|s + blank| - 1] == s + blank[..|blank| - 1];
      TrimEndDrops(s, blank[..|blank| - 1]);
    }
  }

  ghost predicate AllSolid(parts: seq<string>) {
    parts != [] && forall i :: 0 <= i < |parts| ==> Solid(parts[i])
  }

  lemma {:induction false} GapJoinTrimmed(parts: seq<string>)
    requires AllSolid(parts)
    ensures Trimmed(Join(parts, GAP))
    decreases |parts|
  {
    assert Solid(parts[0]);
    if |parts| > 1 {
      AllSolidTail(parts);
      GapJoinTrimmed(parts[1..]);
      var rest := Join(parts[1..], GAP);
      var s := parts[0] + GAP + rest;
      assert s[0] == parts[0][0] && s[|s| - 1] == rest[|rest| - 1];
    }
  }

  lemma AllSolidTail(parts: seq<string>)
    requires AllSolid(parts) && |parts| > 1
    ensures AllSolid(parts[1..])
  {
    forall i | 0 <= i < |parts[1..]| ensures Solid(parts[1..][i]) { assert Solid(parts[i + 1]); }
  }

  lemma NoGapAt(s: string, i: nat)
    requires Solid(s)
    ensures !Occurs(s, GAP, i)
  {
    if i + 2 <= |s| {
      assert s[i..i + 2][0] == s[i] && s[i..i + 2][1] == s[i + 1];
      assert GAP[0] == '\n' && GAP[1] == '\n';
      assert i < |s| - 1;
    }
  }

  lemma NoGapBefore(s: string, rest: string, i: nat)
    requires Solid(s) && i < |s|
    ensures !Occurs(s + GAP + rest, GAP, i)
  {
    var t := s + GAP + rest;
    assert t[i] == s[i];
    assert GAP[0] == '\n' && GAP[1] == '\n';
    if i < |s| - 1 {
      assert t[i + 1] == s[i + 1];
    } else {
      assert IsWhitespace('\n');
    }
    assert t[i..i + 2][0] == t[i] && t[i..i + 2][1] == t[i + 1];
  }

  lemma {:induction false} FindIs(s: string, needle: string, from: nat, at: nat)
    requires from <= at <= |s| && Occurs(s, needle, at) && forall i :: from <= i < at ==> !Occurs(s, needle, i)
    ensures Find(s, needle, from) == at
  {}

  /** Splitting at blank lines gives the parts back. */
  lemma {:induction false} SplitOfJoin(parts: seq<string>)
    requires AllSolid(parts)
    ensures Split(Join(parts, GAP)) == parts
    decreases |parts|
  {
    hide Occurs, Find, Solid, GAP;
    var s := parts[0];
    assert Solid(s);
    if |parts| == 1 {
      forall i: nat ensures !Occurs(s, GAP, i) { NoGapAt(s, i); }
      assert Find(s, GAP, 0) == -1;
      assert parts == [s];
    } else {
      AllSolidTail(parts);
      var rest := Join(parts[1..], GAP);
      SplitOfJoin(parts[1..]);
      var t := s + GAP + rest;
      forall i | 0 <= i < |s| ensures !Occurs(t, GAP, i) { NoGapBefore(s, rest, i); }
      GapHere(s, rest);
      FindIs(t, GAP, 0, |s|);
      assert parts == [s] + parts[1..];
    }
  }

  lemma GapHere(s: string, rest: string)
    ensures var t := s + GAP + rest; Occurs(t, GAP, |s|) && t[..|s|] == s && t[|s| + 2..] == rest
  {}

  ghost predicate AllSimple(blocks: seq<Block>) {
    forall i :: 0 <= i < |blocks| ==> Simple(blocks[i])
  }

  lemma BodiesAreSolid(blocks: seq<Block>)
    requires blocks != [] && AllSimple(blocks)
    ensures AllSolid(Bodies(blocks))
  {
    hide Solid, Simple, BodyLines, Join;
    forall i | 0 <= i < |blocks|
      ensures Solid(Bodies(blocks)[i])
    {
      BodyLinesAreLines(blocks[i]);
      JoinIsSolid(BodyLines(blocks[i]));
    }
  }

  lemma {:induction false} BlocksRead(blocks: seq<Block>)
    requires AllSimple(blocks)
    ensures |BlocksOf(Bodies(blocks))| == |blocks|
    ensures forall i :: 0 <= i < |blocks| ==> (BlocksOf(Bodies(blocks))[i] == blocks[i] <==> Readable(blocks[i]))
  {
    hide BlockOf, Simple, Readable, BodyLines, Join;
    if blocks != [] {
      var init, last := blocks[..|blocks| - 1], blocks[|blocks| - 1];
      BlocksRead(init);
      BlockReads(last);
      assert Bodies(blocks)[..|blocks| - 1] == Bodies(init);
    }
  }

  /** The text of simple blocks is their bodies with blank lines between. */
  lemma RenderedIs(blocks: seq<Block>)
    requires AllSimple(blocks)
    ensures Rendered(Document("", blocks)) == if blocks == [] then "" else Join(Bodies(blocks), GAP)
  {
    hide Join, BlockText, Simple, Bodies, Solid, Trimmed;
    assert "" + BlockTexts(blocks) == BlockTexts(blocks);
    if blocks != [] {
      BodiesAreSolid(blocks);
      BlockTextsAre(blocks);
      GapJoinTrimmed(Bodies(blocks));
      TrimEndDrops(Join(Bodies(blocks), GAP), GAP);
    }
  }

  lemma NothingReads()
    ensures BlocksOf(Split("")) == []
  {
    assert Find("", GAP, 0) == -1;
    assert Split("") == [""];
    assert Trim("") == "";
    assert BlockOf("") == None;
    assert [""][..0] == [];
  }

  lemma SimpleReadsIff(blocks: seq<Block>)
    requires AllSimple(blocks)
    ensures Structured("", Rendered(Document("", blocks))) == Document("", blocks)
      <==> forall i :: 0 <= i < |blocks| ==> Readable(blocks[i])
  {
    hide Join, Simple, Readable, Bodies, BlocksOf, Split, Rendered, AllSolid;
    RenderedIs(blocks);
    if blocks == [] {
      NothingReads();
    } else {
      BodiesAreSolid(blocks);
      SplitOfJoin(Bodies(blocks));
      BlocksRead(blocks);
      var back := BlocksOf(Bodies(blocks));
      assert back == blocks <==> forall i :: 0 <= i < |blocks| ==> back[i] == blocks[i];
    }
  }

  // ---- What structuring text can give ----

  lemma {:induction false} LinesHaveNoFeed(s: string)
    ensures forall l :: l in SplitLines(s) ==> '\n' !in l
    decreases |s|
  {
    hide StripReturn, LineFeed;
    if s != "" {
      var k := LineFeed(s);
      StripKeepsNoFeed(s[..k]);
      if k < |s| { LinesHaveNoFeed(s[k + 1..]); }
    }
  }

  lemma StripKeepsNoFeed(line: string)
    requires '\n' !in line
    ensures '\n' !in StripReturn(line)
  {}

  lemma TrimIs(s: string)
    ensures Trim(s) == "" || Trimmed(Trim(s))
    ensures forall c :: c in Trim(s) ==> c in s
  {
    hide IsWhitespace;
    var t := TrimStart(s);
    assert Trim(s) != "" ==> Trim(s)[0] == t[0];
  }

  lemma {:induction false} CleanedAreLines(lines: seq<string>)
    requires forall l :: l in lines ==> '\n' !in l
    ensures forall i :: 0 <= i < |CleanLines(lines)| ==> Line(CleanLines(lines)[i])
  {
    hide Trim, Trimmed;
    if lines != [] {
      TrimIs(lines[0]);
      CleanedAreLines(lines[1..]);
    }
  }

  lemma HeadingIsSimple(line: string)
    requires Line(line) && HeadingOf(line).Some?
    ensures Simple(HeadingOf(line).value) && HeadingOf(line).value.Heading?
  {
    hide HashCount, Trim, IsWhitespace;
    var rest := line[HashCount(line)..];
    TrimIs(rest);
    TrimKeepsLast(rest);
  }

  lemma TrimKeepsLast(s: string)
    requires s != "" && !IsWhitespace(s[|s| - 1])
    ensures Trim(s) != ""
  {
    TrimStartKeeps(s);
  }

  lemma {:induction false} TrimStartKeeps(s: string)
    requires s != "" && !IsWhitespace(s[|s| - 1])
    ensures TrimStart(s) != "" && TrimEnd(TrimStart(s)) == TrimStart(s)
  {
    hide IsWhitespace;
    if IsWhitespace(s[0]) { TrimStartKeeps(s[1..]); }
  }

  lemma BulletIsItem(line: string)
    requires Line(line) && BulletItem(line).Some?
    ensures Item(BulletItem(line).value)
  {
    assert line[1] == ' ';
  }

  lemma NumberIsItem(line: string)
    requires Line(line) && NumberItem(line).Some?
    ensures Item(NumberItem(line).value)
  {
    var k := RunEnd(line, 0, IsDigit);
    assert line[k..][1] == ' ' && line[k..][1] == line[k + 1];
    assert line[k..][2..] == line[k + 2..];
  }

  lemma {:induction false} FilterMapImage(lines: seq<string>, f: string -> Option<string>)
    requires forall l :: l in lines && f(l).Some? ==> Item(f(l).value)
    ensures forall i :: 0 <= i < |FilterMap(lines, f)| ==> Item(FilterMap(lines, f)[i])
  {
    hide Item;
    if lines != [] { FilterMapImage(lines[1..], f); }
  }

  lemma {:induction false} JoinIsLine(lines: seq<string>)
    requires Lines(lines)
    ensures Line(Join(lines, " ")) && Join(lines, " ")[0] == lines[0][0]
    decreases |lines|
  {
    assert Line(lines[0]);
    if |lines| > 1 {
      var tail := lines[1..];
      assert Lines(tail) by {
        forall i | 0 <= i < |tail| ensures Line(tail[i]) { assert Line(lines[i + 1]); }
      }
      JoinIsLine(tail);
      LineIsItem(Join(tail, " "));
      MarkedIsLine(lines[0] + " ", Join(tail, " "));
    }
  }

  /** Whatever a paragraph of text becomes is simple. */
  lemma BlockOfIsSimple(para: string)
    requires BlockOf(para).Some?
    ensures Simple(BlockOf(para).value)
  {
    hide Trim, SplitLines, CleanLines, HeadingOf, BulletItem, NumberItem, FilterMap, Join, Line, Item;
    var lines := CleanLines(SplitLines(Trim(para)));
    LinesHaveNoFeed(Trim(para));
    CleanedAreLines(SplitLines(Trim(para)));
    if |lines| == 1 && HeadingOf(lines[0]).Some? {
      HeadingIsSimple(lines[0]);
    } else {
      forall l | l in lines && BulletItem(l).Some? ensures Item(BulletItem(l).value) { BulletIsItem(l); }
      forall l | l in lines && NumberItem(l).Some? ensures Item(NumberItem(l).value) { NumberIsItem(l); }
      FilterMapImage(lines, BulletItem);
      FilterMapImage(lines, NumberItem);
      JoinIsLine(lines);
    }
  }

  lemma {:induction false} BlocksOfAreSimple(paras: seq<string>)
    ensures AllSimple(BlocksOf(paras))
  {
    hide Simple, BlockOf;
    if paras != [] {
      BlocksOfAreSimple(paras[..|paras| - 1]);
      if BlockOf(paras[|paras| - 1]).Some? { BlockOfIsSimple(paras[|paras| - 1]); }
    }
  }

  // ---- Every document ----

  ghost predicate AllKept(blocks: seq<Block>) {
    forall i :: 0 <= i < |blocks| ==> Keeps(blocks[i])
  }

  /** Structuring the text of a document without a title gives its blocks back exactly when each of them is kept. */
  lemma UntitledIff(blocks: seq<Block>)
    ensures BlocksOf(Split(Rendered(Document("", blocks)))) == blocks <==> AllKept(blocks)
  {
    hide BlocksOf, Split, Rendered, Simple, Readable;
    BlocksOfAreSimple(Split(Rendered(Document("", blocks))));
    if AllSimple(blocks) { SimpleReadsIff(blocks); }
  }

  /** A title is rendered as a heading of level 1 before the blocks. */
  lemma TitleIsHeading(title: string, blocks: seq<Block>)
    requires title != ""
    ensures Rendered(Document(title, blocks)) == Rendered(Document("", [Heading(1, title)] + blocks))
  {
    hide TrimEnd, BlockText, BlockTexts;
    HeadFirst(Heading(1, title), blocks);
    TitleText(title);
    assert "" + BlockTexts([Heading(1, title)] + blocks) == BlockTexts([Heading(1, title)] + blocks);
  }

  lemma TitleText(title: string)
    ensures BlockText(Heading(1, title)) == "# " + title + GAP
  {
    assert Hashes(1) == "#";
    assert "#" + " " + title + GAP == "# " + title + GAP;
  }

  lemma {:induction false} HeadFirst(b: Block, blocks: seq<Block>)
    ensures BlockTexts([b] + blocks) == BlockText(b) + BlockTexts(blocks)
    decreases |blocks|
  {
    hide BlockText;
    if blocks == [] {
      assert [b] + blocks == [b] && [b][..0] == [];
    } else {
      var init, last := blocks[..|blocks| - 1], blocks[|blocks| - 1];
      HeadFirst(b, init);
      assert ([b] + blocks)[..|blocks|] == [b] + init;
    }
  }

  /** So a titled document comes back with its title as an additional first heading, exactly when all of that is kept. */
  lemma TitledIff(title: string, blocks: seq<Block>)
    requires title != ""
    ensures Structured(title, Rendered(Document(title, blocks))) == Document(title, [Heading(1, title)] + blocks)
      <==> Line(title) && AllKept(blocks)
  {
    hide BlocksOf, Split, Rendered, Line;
    var all := [Heading(1, title)] + blocks;
    TitleIsHeading(title, blocks);
    UntitledIff(all);
    assert AllKept(all) <==> Keeps(all[0]) && AllKept(blocks) by {
      forall i | 0 <= i < |blocks| ensures blocks[i] == all[i + 1] {}
    }
  }

  // ---- A title never comes back as a title ----

  lemma {:induction false} HeadPara(para: string, paras: seq<string>)
    ensures |BlocksOf([para] + paras)| == (if BlockOf(para).Some? then 1 else 0) + |BlocksOf(paras)|
    decreases |paras|
  {
    hide BlockOf;
    if paras == [] {
      assert [para] + paras == [para] && [para][..0] == [];
    } else {
      var init := paras[..|paras| - 1];
      HeadPara(para, init);
      assert ([para] + paras)[..|paras|] == [para] + init;
    }
  }

  /** A paragraph that begins with a hash is not blank. */
  lemma HashIsSome(para: string)
    requires para != "" && para[0] == '#'
    ensures BlockOf(para).Some?
  {
    hide HeadingOf, BulletItem, NumberItem, FilterMap, Join, TrimEnd, SplitLines, CleanLines;
    TrimmedHash(para);
    HashLine(Trim(para));
    assert CleanLines(SplitLines(Trim(para))) != [];
  }

  lemma TrimmedHash(s: string)
    requires s != "" && s[0] == '#'
    ensures Trim(s) != "" && Trim(s)[0] == '#'
  {
    assert TrimStart(s) == s;
    HashKept(s);
  }

  lemma {:induction false} HashKept(s: string)
    requires s != "" && s[0] == '#'
    ensures TrimEnd(s) != "" && TrimEnd(s)[0] == '#'
  {
    if |s| > 1 && IsWhitespace(s[|s| - 1]) { HashKept(s[..|s| - 1]); }
  }

  lemma HashLine(s: string)
    requires s != "" && s[0] == '#'
    ensures CleanLines(SplitLines(s)) != []
  {
    hide Trim, CleanLines;
    var line := SplitLines(s)[0];
    assert line != "" && line[0] == '#';
    TrimmedHash(line);
    FirstKept(SplitLines(s));
  }

  lemma FirstKept(lines: seq<string>)
    requires lines != [] && Trim(lines[0]) != ""
    ensures CleanLines(lines) != []
  {}

  ghost predicate AllBlocks(parts: seq<string>) {
    forall i :: 0 <= i < |parts| ==> BlockOf(parts[i]).Some?
  }

  lemma {:induction false} AllCounted(parts: seq<string>)
    requires AllBlocks(parts)
    ensures |BlocksOf(parts)| == |parts|
  {
    hide BlockOf;
    if parts != [] { AllCounted(parts[..|parts| - 1]); }
  }

  /** A line feed before the first part changes nothing but that part. */
  lemma SplitAfterFeed(parts: seq<string>)
    requires AllSolid(parts)
    ensures Split("\n" + Join(parts, GAP)) == ["\n" + parts[0]] + parts[1..]
  {
    hide Occurs, Find, Solid, GAP;
    var s := parts[0];
    assert Solid(s);
    if |parts| == 1 {
      assert "\n" + s + "" == "\n" + s;
      forall i: nat ensures !Occurs("\n" + s, GAP, i) { NoGapAfterFeed(s, "", i); }
      assert Find("\n" + s, GAP, 0) == -1;
    } else {
      AllSolidTail(parts);
      SplitOfJoin(parts[1..]);
      var rest := Join(parts[1..], GAP);
      var t := "\n" + s + GAP + rest;
      assert "\n" + (s + GAP + rest) == t;
      assert t == "\n" + s + (GAP + rest);
      forall i | 0 <= i < |s| + 1 ensures !Occurs(t, GAP, i) { NoGapAfterFeed(s, GAP + rest, i); }
      GapHere("\n" + s, rest);
      FindIs(t, GAP, 0, |s| + 1);
    }
  }

  lemma NoGapAfterFeed(s: string, tail: string, i: nat)
    requires Solid(s) && (tail == "" || i <= |s|)
    ensures !Occurs("\n" + s + tail, GAP, i)
  {
    var t := "\n" + s + tail;
    assert GAP[0] == '\n' && GAP[1] == '\n';
    if i + 2 <= |t| {
      assert t[i..i + 2][0] == t[i] && t[i..i + 2][1] == t[i + 1];
      if i == 0 {
        assert t[1] == s[0] && IsWhitespace('\n');
      } else if i < |s| {
        assert t[i] == s[i - 1] && t[i + 1] == s[i];
      } else {
        assert t[i] == s[|s| - 1] && IsWhitespace('\n');
      }
    }
  }

  lemma FeedKeepsBlock(part: string)
    ensures BlockOf("\n" + part) == BlockOf(part)
  {
    hide Trim, SplitLines, CleanLines, HeadingOf, FilterMap, Join;
    FeedTrimmed(part);
  }

  lemma FeedTrimmed(s: string)
    ensures Trim("\n" + s) == Trim(s)
  {
    hide TrimEnd;
    assert ("\n" + s)[0] == '\n' && ("\n" + s)[1..] == s;
  }

  /** What stands before the parts takes none of them away, and adds a block if it begins with a hash. */
  lemma {:induction false} PartsSurvive(front: string, parts: seq<string>)
    requires AllSolid(parts) && AllBlocks(parts)
    ensures |BlocksOf(Split(front + GAP + Join(parts, GAP)))| >= |parts| + if front != "" && front[0] == '#' then 1 else 0
    decreases |front|
  {
    hide Occurs, Solid, BlockOf, AllSolid;
    var rest := Join(parts, GAP);
    var t := front + GAP + rest;
    GapHere(front, rest);
    var k := Find(t, GAP, 0);
    HeadPara(t[..k], Split(t[k + 2..]));
    GapStarts(t, k);
    if front != "" && front[0] == '#' { HashIsSome(t[..k]); }
    if k + 2 <= |front| {
      assert t[k + 2..] == front[k + 2..] + GAP + rest;
      PartsSurvive(front[k + 2..], parts);
    } else if k == |front| {
      SplitOfJoin(parts);
      AllCounted(parts);
    } else {
      assert t[k + 2..] == "\n" + rest;
      PartsAfterFeed(parts);
    }
  }

  lemma GapStarts(t: string, k: nat)
    requires Occurs(t, GAP, k)
    ensures k + 2 <= |t| && t[k] == '\n'
  {
    OccursHead(t, GAP, k);
  }

  lemma PartsAfterFeed(parts: seq<string>)
    requires AllSolid(parts) && AllBlocks(parts)
    ensures |BlocksOf(Split("\n" + Join(parts, GAP)))| == |parts|
  {
    hide BlockOf, Solid, Split, Join;
    SplitAfterFeed(parts);
    FeedKeepsBlock(parts[0]);
    HeadPara("\n" + parts[0], parts[1..]);
    AllCounted(parts[1..]);
  }

  lemma TitledText(title: string, blocks: seq<Block>)
    requires title != "" && blocks != [] && AllSimple(blocks)
    ensures Rendered(Document(title, blocks)) == "# " + title + GAP + Join(Bodies(blocks), GAP)
  {
    hide Join, BlockText, Simple, Bodies, Solid, TrimEnd;
    BodiesAreSolid(blocks);
    BlockTextsAre(blocks);
    GapJoinTrimmed(Bodies(blocks));
    var rest := Join(Bodies(blocks), GAP);
    var s := "# " + title + GAP + rest;
    assert "# " + title + GAP + (rest + GAP) == s + GAP;
    assert s[|s| - 1] == rest[|rest| - 1] && s[0] == '#';
    TrimEndDrops(s, GAP);
  }

  lemma BodiesAreBlocks(blocks: seq<Block>)
    requires AllSimple(blocks)
    ensures AllBlocks(Bodies(blocks))
  {
    hide Simple, BlockOf, BodyLines, Join;
    forall i | 0 <= i < |blocks| ensures BlockOf(Bodies(blocks)[i]).Some? { BlockReads(blocks[i]); }
  }

  lemma TitleAddsBlock(title: string, blocks: seq<Block>)
    requires title != "" && AllSimple(blocks)
    ensures |BlocksOf(Split(Rendered(Document(title, blocks))))| > |blocks|
  {
    hide BlocksOf, Split, Simple, Bodies, Join, TrimEnd, Solid, AllBlocks;
    if blocks == [] {
      TitleAloneReads(title);
    } else {
      TitledText(title, blocks);
      BodiesAreSolid(blocks);
      BodiesAreBlocks(blocks);
      PartsSurvive("# " + title, Bodies(blocks));
    }
  }

  lemma TitleAloneReads(title: string)
    requires title != ""
    ensures BlocksOf(Split(Rendered(Document(title, [])))) != []
  {
    hide TrimEnd, BlockOf, Find;
    var t := "# " + title + GAP + "";
    HashKept(t);
    var s := TrimEnd(t);
    var k := Find(s, GAP, 0);
    if k == -1 {
      HashIsSome(s);
      HeadPara(s, []);
      assert Split(s) == [s] + [];
    } else {
      GapStarts(s, k);
      HashIsSome(s[..k]);
      HeadPara(s[..k], Split(s[k + 2..]));
    }
  }

  /** A document comes back as itself exactly when it has no title and each of its blocks is kept. */
  lemma RoundTripIff(doc: Document)
    ensures Structured(doc.title, Rendered(doc)) == doc <==> doc.title == "" && AllKept(doc.blocks)
  {
    hide BlocksOf, Split, Rendered, Simple, Readable;
    if doc.title == "" {
      UntitledIff(doc.blocks);
    } else {
      BlocksOfAreSimple(Split(Rendered(doc)));
      if AllSimple(doc.blocks) { TitleAddsBlock(doc.title, doc.blocks); }
    }
  }
}
