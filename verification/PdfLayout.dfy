// What flattening a document gives, stated on the document's own text, and where pages end.
module PdfLayout {
  import opened Ascii
  import opened Decimal
  import opened Document
  import opened Options
  import opened PdfPages
  import opened Rows
  import Text

  // ---- Lines of code ----

  /** What may end a line of text that `str::lines` gives; only the last line may end with the text. */
  ghost predicate Ended(line: string, ending: string, last: bool) {
    && '\n' !in line
    && ((ending == "\n" && (line == "" || line[|line| - 1] != '\r')) || ending == "\r\n" || (ending == "" && last && line != ""))
  }

  function Glue(lines: seq<string>, endings: seq<string>): string
    requires |lines| == |endings|
  {
    if lines == [] then "" else lines[0] + endings[0] + Glue(lines[1..], endings[1..])
  }

  /** The text is these lines, each with its ending. */
  ghost predicate Lined(s: string, lines: seq<string>, endings: seq<string>) {
    && |lines| == |endings| && Glue(lines, endings) == s
    && forall i :: 0 <= i < |lines| ==> Ended(lines[i], endings[i], i == |lines| - 1)
  }

  /** The lines the code block is made of. */
  ghost predicate AreLines(s: string, lines: seq<string>) {
    exists endings: seq<string> :: Lined(s, lines, endings)
  }

  lemma LinedMore(s: string, line: string, ending: string, rest: string, lines: seq<string>, endings: seq<string>)
    requires Lined(rest, lines, endings) && Ended(line, ending, false) && s == line + ending + rest
    ensures Lined(s, [line] + lines, [ending] + endings)
  {
    assert ([line] + lines)[1..] == lines && ([ending] + endings)[1..] == endings;
    forall i | 0 <= i < |lines| + 1
      ensures Ended(([line] + lines)[i], ([ending] + endings)[i], i == |lines|)
    {
      if i > 0 { assert Ended(lines[i - 1], endings[i - 1], i - 1 == |lines| - 1); }
    }
  }

  lemma {:induction false} LinesAreLines(s: string)
    ensures AreLines(s, Text.SplitLines(s))
    decreases |s|
  {
    hide Lined, Ended, Text.StripReturn;
    if s == "" {
      NoLines();
    } else {
      var k := Text.LineFeed(s);
      if k == |s| {
        LastLine(s);
      } else {
        LinesAreLines(s[k + 1..]);
        var endings: seq<string> :| Lined(s[k + 1..], Text.SplitLines(s[k + 1..]), endings);
        var line := Text.StripReturn(s[..k]);
        FirstEnding(s, k);
        var ending := s[|line|..k + 1];
        assert s == line + ending + s[k + 1..];
        LinedMore(s, line, ending, s[k + 1..], Text.SplitLines(s[k + 1..]), endings);
      }
    }
  }

  lemma NoLines()
    ensures Lined("", [], [])
  {}

  lemma LastLine(s: string)
    requires s != "" && '\n' !in s
    ensures Lined(s, [s], [""])
  {
    assert [s][1..] == [] && [""][1..] == [];
    assert Glue([s][1..], [""][1..]) == "";
  }

  lemma FirstEnding(s: string, k: nat)
    requires k < |s| && s[k] == '\n' && forall i :: 0 <= i < k ==> s[i] != '\n'
    ensures var line := Text.StripReturn(s[..k]);
      |line| <= k && Ended(line, s[|line|..k + 1], false) && s[..|line|] == line
  {
    var line := Text.StripReturn(s[..k]);
    if k > 0 && s[k - 1] == '\r' {
      assert s[..k][..k - 1] == s[..k - 1] == line;
      assert s[k - 1..k + 1] == "\r\n";
    } else {
      assert line == s[..k] && s[k..k + 1] == "\n";
    }
  }

  /** No other sequence of lines is. */
  lemma {:induction false} LinesUnique(s: string, a: seq<string>, ea: seq<string>, b: seq<string>, eb: seq<string>)
    requires Lined(s, a, ea) && Lined(s, b, eb)
    ensures a == b
    decreases |a|
  {
    if a == [] {
      if b != [] { NonEmptyLine(s, b, eb); }
    } else {
      NonEmptyLine(s, a, ea);
      if b != [] {
        NonEmptyLine(s, b, eb);
        SameFirst(s, a, ea, b, eb);
        LinesUnique(Glue(a[1..], ea[1..]), a[1..], ea[1..], b[1..], eb[1..]);
        assert a == [a[0]] + a[1..] && b == [b[0]] + b[1..];
      }
    }
  }

  lemma NonEmptyLine(s: string, a: seq<string>, ea: seq<string>)
    requires Lined(s, a, ea) && a != []
    ensures s != "" && |a| == |ea| && Ended(a[0], ea[0], |a| == 1)
    ensures Lined(Glue(a[1..], ea[1..]), a[1..], ea[1..])
    ensures s == a[0] + ea[0] + Glue(a[1..], ea[1..])
  {
    forall i | 0 <= i < |a[1..]|
      ensures Ended(a[1..][i], ea[1..][i], i == |a[1..]| - 1)
    {
      assert Ended(a[i + 1], ea[i + 1], i + 1 == |a| - 1);
    }
    assert Ended(a[0], ea[0], |a| == 1);
  }

  lemma EndedIsLast(a: seq<string>, ea: seq<string>)
    requires |a| == |ea| > 0 && Ended(a[0], ea[0], |a| == 1)
    ensures ea[0] == "" ==> Glue(a[1..], ea[1..]) == ""
  {}

  lemma SameFirst(s: string, a: seq<string>, ea: seq<string>, b: seq<string>, eb: seq<string>)
    requires Lined(s, a, ea) && Lined(s, b, eb) && a != [] && b != []
    ensures a[0] == b[0] && ea[0] == eb[0] && Glue(a[1..], ea[1..]) == Glue(b[1..], eb[1..])
  {
    hide Lined, Ended;
    NonEmptyLine(s, a, ea);
    NonEmptyLine(s, b, eb);
    EndedIsLast(a, ea);
    EndedIsLast(b, eb);
    FirstFeed(s, a[0], ea[0], Glue(a[1..], ea[1..]), |a| == 1);
    FirstFeed(s, b[0], eb[0], Glue(b[1..], eb[1..]), |b| == 1);
    assert a[0] == s[..|a[0]|] && b[0] == s[..|b[0]|];
    assert ea[0] == s[|a[0]|..|a[0]| + |ea[0]|] && eb[0] == s[|b[0]|..|b[0]| + |eb[0]|];
    assert Glue(a[1..], ea[1..]) == s[|a[0]| + |ea[0]|..] && Glue(b[1..], eb[1..]) == s[|b[0]| + |eb[0]|..];
  }

  /** Where the first line ends is decided by the first line feed and what stands before it. */
  lemma FirstFeed(s: string, line: string, ending: string, rest: string, last: bool)
    requires Ended(line, ending, last) && s == line + ending + rest && (ending == "" ==> rest == "")
    ensures var k := Text.LineFeed(s);
      && |line| + |ending| == (if k < |s| then k + 1 else k)
      && |ending| == (if k == |s| then 0 else if k > 0 && s[k - 1] == '\r' then 2 else 1)
  {
    var k := Text.LineFeed(s);
    assert forall i :: 0 <= i < |line| ==> s[i] == line[i] && line[i] in line;
    if ending == "" {
      assert s == line;
    } else {
      var at := |line| + |ending| - 1;
      assert s[at] == ending[|ending| - 1] == '\n';
      assert ending == "\r\n" ==> s[|line|] == '\r';
      assert k == at;
      if ending == "\n" && k > 0 { assert s[k - 1] == line[|line| - 1]; }
    }
  }

  // ---- Blocks ----

  ghost predicate PlainText(item: Item, text: string) {
    item == LineItem(Line(text, false, 0))
  }

  /** A plain line whose text is cells with tabs between: it splits into them where that is possible at all. */
  ghost predicate PlainRow(item: Item, cells: seq<string>) {
    item.LineItem? && item == LineItem(Line(item.line.text, false, 0))
    && (SplitAt(item.line.text, '\t') == cells <==> Cells(cells, '\t'))
    && item.line.text == Text.Join(cells, "\t")
  }

  /** A plain line that reads as a number, a full stop, a space and the text. */
  ghost predicate PlainNumbered(item: Item, n: nat, text: string) {
    && item.LineItem? && item == LineItem(Line(item.line.text, false, 0))
    && ReadNat(item.line.text) == Some((n, ". " + text))
  }

  /** What a reader finds of a block in the items it is laid out as. */
  ghost predicate Lays(b: Block, out: seq<Item>) {
    match b
    case Heading(level, text) =>
      out == [LineItem(Line(text, true, if level < 1 then 1 else if level > 6 then 6 else level))]
    case Paragraph(text) => |out| == 1 && PlainText(out[0], text)
    case BulletList(items) => |out| == |items| && forall i :: 0 <= i < |items| ==> PlainText(out[i], "\U{2022} " + items[i])
    case NumberedList(items) => |out| == |items| && forall i :: 0 <= i < |items| ==> PlainNumbered(out[i], i + 1, items[i])
    case Table(headers, rows) =>
      |out| == 1 + |rows| && PlainRow(out[0], headers) && forall i :: 0 <= i < |rows| ==> PlainRow(out[i + 1], rows[i])
    case Code(_, code) =>
      exists lines: seq<string> :: AreLines(code, lines) && |out| == |lines|
        && forall i :: 0 <= i < |lines| ==> PlainText(out[i], lines[i])
    case PageBreak => out == [Break]
  }

  lemma {:induction false} PlainLinesAt(texts: seq<string>)
    ensures |PlainLines(texts)| == |texts|
    ensures forall i :: 0 <= i < |texts| ==> PlainLines(texts)[i] == LineItem(Line(texts[i], false, 0))
  {
    if texts != [] { PlainLinesAt(texts[..|texts| - 1]); }
  }

  lemma NumberedReads(n: nat, text: string)
    ensures PlainNumbered(Plain(Dec(n) + ". " + text), n, text)
  {
    hide ReadNat, Dec;
    assert (". " + text)[0] == '.';
    ReadNatOf(n, ". " + text);
    assert Dec(n) + ". " + text == Dec(n) + (". " + text);
  }

  lemma RowLays(cells: seq<string>)
    ensures PlainRow(Plain(Text.Join(cells, "\t")), cells)
  {
    hide SplitAt, Text.Join;
    RowReadsIff(cells, '\t');
  }

  lemma TableLays(headers: seq<string>, rows: seq<seq<string>>)
    ensures Lays(Table(headers, rows), [Plain(Text.Join(headers, "\t"))] + PlainLines(Tabbed(rows)))
  {
    hide PlainLines, PlainRow, Text.Join, Plain;
    PlainLinesArePlain(Tabbed(rows));
    RowLays(headers);
    var out := [Plain(Text.Join(headers, "\t"))] + PlainLines(Tabbed(rows));
    forall i | 0 <= i < |rows| ensures PlainRow(out[i + 1], rows[i]) {
      RowLays(rows[i]);
      assert out[i + 1] == PlainLines(Tabbed(rows))[i];
    }
  }

  lemma PlainLinesArePlain(texts: seq<string>)
    ensures |PlainLines(texts)| == |texts| && forall i :: 0 <= i < |texts| ==> PlainLines(texts)[i] == Plain(texts[i])
  {
    hide PlainLines;
    PlainLinesAt(texts);
  }

  lemma NumbersLay(items: seq<string>)
    ensures Lays(NumberedList(items), PlainLines(Numbered(items)))
  {
    hide PlainLines, PlainNumbered, Plain, Dec;
    PlainLinesArePlain(Numbered(items));
    forall i | 0 <= i < |items| ensures PlainNumbered(PlainLines(Numbered(items))[i], i + 1, items[i]) {
      NumberedReads(i + 1, items[i]);
    }
  }

  lemma CodeLays(language: string, code: string)
    ensures Lays(Code(language, code), PlainLines(Text.SplitLines(code)))
  {
    hide PlainLines, AreLines, Text.SplitLines;
    PlainLinesAt(Text.SplitLines(code));
    LinesAreLines(code);
  }

  lemma BlockLays(b: Block)
    ensures Lays(b, BlockItems(b))
  {
    hide PlainLines;
    match b
    case Heading(_, _) =>
    case Paragraph(_) =>
    case BulletList(items) => PlainLinesAt(Bulleted(items));
    case NumberedList(items) => NumbersLay(items);
    case Table(headers, rows) => TableLays(headers, rows);
    case Code(language, code) => CodeLays(language, code);
    case PageBreak =>
  }

  // ---- Documents ----

  /** The items are the title, if there is one, and what each block is laid out as, in order. */
  ghost predicate Laid(doc: Document, parts: seq<seq<Item>>, items: seq<Item>) {
    && |parts| == |doc.blocks| && (forall i :: 0 <= i < |parts| ==> Lays(doc.blocks[i], parts[i]))
    && items == (if doc.title == "" then [] else [LineItem(Line(doc.title, true, 1))]) + Concat(parts)
  }

  ghost function Parts(blocks: seq<Block>): (parts: seq<seq<Item>>)
    ensures |parts| == |blocks| && forall i :: 0 <= i < |blocks| ==> parts[i] == BlockItems(blocks[i])
  {
    seq(|blocks|, i requires 0 <= i < |blocks| => BlockItems(blocks[i]))
  }

  lemma {:induction false} BlocksItemsAre(blocks: seq<Block>)
    ensures BlocksItems(blocks) == Concat(Parts(blocks))
  {
    hide BlockItems;
    if blocks != [] {
      var init := blocks[..|blocks| - 1];
      BlocksItemsAre(init);
      assert Parts(blocks)[..|blocks| - 1] == Parts(init);
    }
  }

  /** Flattening lays out the title and every block in order. */
  lemma FlattenLays(doc: Document)
    ensures Laid(doc, Parts(doc.blocks), Items(doc))
  {
    hide BlockItems, Lays, Parts;
    BlocksItemsAre(doc.blocks);
    forall i | 0 <= i < |doc.blocks| ensures Lays(doc.blocks[i], BlockItems(doc.blocks[i])) { BlockLays(doc.blocks[i]); }
  }

  // ---- Pages ----

  /** The last segment takes a further line; a break opens a new one. */
  function Grown(segs: seq<seq<Line>>, x: Item): seq<seq<Line>>
    requires segs != []
  {
    match x
    case Break => segs + [[]]
    case LineItem(l) => segs[..|segs| - 1] + [segs[|segs| - 1] + [l]]
  }

  lemma SegmentsGrow(items: seq<Item>, x: Item)
    ensures Segments(items + [x]) == Grown(Segments(items), x)
  {
    assert (items + [x])[..|items|] == items;
  }

  lemma GrownAfter(a: seq<seq<Line>>, b: seq<seq<Line>>, x: Item)
    requires b != []
    ensures Grown(a + b, x) == a + Grown(b, x)
  {}

  lemma {:induction false} SegmentsAtBreak(a: seq<Item>, b: seq<Item>)
    ensures Segments(a + [Break] + b) == Segments(a) + Segments(b)
    decreases |b|
  {
    hide Segments, Grown;
    if b == [] {
      NoSegments();
      SegmentsGrow(a, Break);
      GrownByBreak(Segments(a));
      assert a + [Break] + b == a + [Break];
    } else {
      var init, last := b[..|b| - 1], b[|b| - 1];
      assert b == init + [last];
      SegmentsAtBreak(a, init);
      SegmentsGrow(a + [Break] + init, last);
      SegmentsGrow(init, last);
      GrownAfter(Segments(a), Segments(init), last);
      assert a + [Break] + b == a + [Break] + init + [last];
    }
  }

  lemma NoSegments()
    ensures Segments([]) == [[]]
  {}

  lemma GrownByBreak(segs: seq<seq<Line>>)
    requires segs != []
    ensures Grown(segs, Break) == segs + [[]]
  {}

  lemma {:induction false} CutAllPlus(a: seq<seq<Line>>, b: seq<seq<Line>>)
    ensures CutAll(a + b) == CutAll(a) + CutAll(b)
    decreases |b|
  {
    hide Cut;
    if b == [] {
      assert a + b == a;
    } else {
      assert (a + b)[..|a + b| - 1] == a + b[..|b| - 1];
      CutAllPlus(a, b[..|b| - 1]);
    }
  }

  lemma {:induction false} OneSegment(items: seq<Item>)
    requires Break !in items
    ensures Segments(items) == [Lines(items)] && |Lines(items)| == |items|
  {
    hide Segments, Lines;
    if items == [] {
      NoSegments();
      LinesGrow([], Break);
    } else {
      var init, last := items[..|items| - 1], items[|items| - 1];
      assert items == init + [last] && last in items;
      OneSegment(init);
      SegmentsGrow(init, last);
      LinesGrow(init, last);
      GrownOne(Lines(init), last.line);
    }
  }

  lemma GrownOne(seg: seq<Line>, l: Line)
    ensures Grown([seg], LineItem(l)) == [seg + [l]]
  {
    assert [seg][..0] == [];
  }

  lemma LinesGrow(items: seq<Item>, x: Item)
    ensures Lines([]) == [] && Lines(items + [x]) == Lines(items) + if x.LineItem? then [x.line] else []
  {
    assert (items + [x])[..|items|] == items;
  }

  lemma {:induction false} LastNotEmpty(seg: seq<Line>)
    requires seg != []
    ensures Cut(seg)[|Cut(seg)| - 1] != []
    decreases |seg|
  {
    if |seg| > LINES_PER_PAGE { LastNotEmpty(seg[LINES_PER_PAGE..]); }
  }

  /** Without a page break the lines fill one page after another, and only the last may be short. */
  lemma RunFills(items: seq<Item>)
    requires Break !in items && items != []
    ensures var pages := Pages(items);
      && Concat(pages) == Lines(items) && |Lines(items)| == |items|
      && (forall i :: 0 <= i < |pages| - 1 ==> |pages[i]| == 48)
      && 0 < |pages[|pages| - 1]| <= 48
  {
    hide Cut, CutAll, Segments, Lines, Concat, Pages;
    OneSegment(items);
    PagesOfText(items);
    CutOne(Lines(items));
    LastNotEmpty(Lines(items));
    CutHolds(Lines(items));
  }

  lemma CutOne(seg: seq<Line>)
    ensures CutAll([seg]) == Cut(seg)
  {
    assert [seg][..0] == [];
  }

  /** A page break ends the page: what stands before it and after it is paginated apart, when there is text on both sides. */
  lemma BreakEndsPage(a: seq<Item>, b: seq<Item>)
    requires Lines(a) != [] && Lines(b) != []
    ensures Pages(a + [Break] + b) == Pages(a) + Pages(b)
  {
    hide Segments, CutAll, Lines;
    SegmentsAtBreak(a, b);
    CutAllPlus(Segments(a), Segments(b));
    PagesOfText(a);
    PagesOfText(b);
    var pages := CutAll(Segments(a)) + CutAll(Segments(b));
    var i :| 0 <= i < |CutAll(Segments(a))| && CutAll(Segments(a))[i] != [];
    assert pages[i] != [];
  }

  /** A break at either end, or beside another, leaves a blank page. */
  lemma BreakLeavesBlank(a: seq<Item>)
    requires Lines(a) != []
    ensures Pages([Break] + a) == [[]] + Pages(a) && Pages(a + [Break]) == Pages(a) + [[]]
    ensures Lines(a + [Break]) == Lines(a) && Lines([Break] + a) == Lines(a)
  {
    hide Segments, CutAll;
    SegmentsAtBreak([], a);
    SegmentsAtBreak(a, []);
    NoItems();
    CutAllPlus(Segments([]), Segments(a));
    CutAllPlus(Segments(a), Segments([]));
    assert [] + [Break] + a == [Break] + a && a + [Break] + [] == a + [Break];
    PagesOfText(a);
    assert (a + [Break])[..|a|] == a;
    LinesAfterBreak(a);
    PagesOfText([Break] + a);
    PagesOfText(a + [Break]);
  }

  lemma {:induction false} LinesAfterBreak(a: seq<Item>)
    ensures Lines([Break] + a) == Lines(a)
  {
    if a == [] {
      assert ([Break] + a)[..0] == [];
    } else {
      assert ([Break] + a)[..|a|] == [Break] + a[..|a| - 1];
      LinesAfterBreak(a[..|a| - 1]);
    }
  }

  /** Only a text without lines is collapsed to one blank page. */
  lemma PagesOfText(items: seq<Item>)
    ensures Lines(items) == [] ==> Pages(items) == [[]]
    ensures Lines(items) != [] ==> Pages(items) == CutAll(Segments(items)) && !AllEmpty(CutAll(Segments(items)))
  {
    var pages := CutAll(Segments(items));
    SegmentsHold(items);
    CutAllHolds(Segments(items));
    if AllEmpty(pages) { EmptyHolds(pages); }
    if Concat(pages) == [] { NoneHeld(pages); }
  }

  lemma {:induction false} NoneHeld<T>(pages: seq<seq<T>>)
    requires Concat(pages) == []
    ensures forall i :: 0 <= i < |pages| ==> pages[i] == []
  {
    if pages != [] { NoneHeld(pages[..|pages| - 1]); }
  }
}
