// What rendering as Markdown writes: every word of every block, and tables and code that read back.
module MarkdownRendering {
  import opened Ascii
  import opened Decimal
  import opened Document
  import opened Markdown
  import opened MarkdownWords
  import opened Options
  import opened Rows
  import opened Text
  import opened WordLaws
  import CodeFence

  // ---- The words of the text ----

  function HashMark(n: nat): (s: string)
    ensures |s| == n && forall i :: 0 <= i < n ==> s[i] == '#'
  {
    seq(n, _ => '#')
  }

  /** The words of cells with bars between. */
  function Between(cells: seq<string>): seq<string> {
    if cells == [] then []
    else if |cells| == 1 then Words(cells[0])
    else Words(cells[0]) + ["|"] + Between(cells[1..])
  }

  function RowWords(cells: seq<string>): seq<string> { ["|"] + Between(cells) + ["|"] }

  function AllRowWords(rows: seq<seq<string>>): seq<string> {
    if rows == [] then [] else AllRowWords(rows[..|rows| - 1]) + RowWords(rows[|rows| - 1])
  }

  function Dashes(n: nat): string { if n == 0 then "" else "---|" + Dashes(n - 1) }

  /** One run of three dashes for each column, between bars. */
  function Rule(n: nat): string { if n == 0 then "||" else "|" + Dashes(n) }

  function BulletWords(items: seq<string>): seq<string> {
    if items == [] then [] else BulletWords(items[..|items| - 1]) + ["-"] + Words(items[|items| - 1])
  }

  function NumberWords(items: seq<string>): seq<string> {
    if items == [] then [] else NumberWords(items[..|items| - 1]) + [Dec(|items|) + "."] + Words(items[|items| - 1])
  }

  /** The words a block is rendered as: its own, in order, behind the marks of its kind. */
  function BlockWords(b: Block): seq<string> {
    match b
    case Heading(level, text) => [HashMark(if level < 1 then 1 else if level > 6 then 6 else level)] + Words(text)
    case Paragraph(text) => Words(text)
    case BulletList(items) => BulletWords(items)
    case NumberedList(items) => NumberWords(items)
    case Table(headers, rows) => RowWords(headers) + [Rule(|headers|)] + AllRowWords(rows)
    case Code(language, code) => Words("```" + language) + Words(code) + ["```"]
    case PageBreak => ["---"]
  }

  function AllBlockWords(blocks: seq<Block>): seq<string> {
    if blocks == [] then [] else AllBlockWords(blocks[..|blocks| - 1]) + BlockWords(blocks[|blocks| - 1])
  }

  lemma Feed(a: string, b: string)
    ensures Words(a + "\n" + b) == Words(a) + Words(b)
  {
    hide Words, IsWhitespace;
    SpaceIsBlank();
    WordsAtBlank(a, '\n', b);
  }

  lemma FeedLast(a: string)
    ensures Words(a + "\n") == Words(a)
  {
    hide Words;
    Feed(a, "");
    NoWords();
    assert a + "\n" + "" == a + "\n";
  }

  lemma Space(a: string, b: string)
    ensures Words(a + " " + b) == Words(a) + Words(b)
  {
    hide Words, IsWhitespace;
    SpaceIsBlank();
    WordsAtBlank(a, ' ', b);
  }

  lemma {:induction false} LineWords(lines: seq<string>, words: seq<seq<string>>)
    requires |lines| == |words| && forall i :: 0 <= i < |lines| ==> Words(lines[i]) == words[i]
    ensures Words(Unlines(lines)) == Flat(words)
  {
    hide Words;
    if lines == [] {
      NoWords();
    } else {
      var n := |lines| - 1;
      LineWords(lines[..n], words[..n]);
      FeedLast(Unlines(lines[..n]) + lines[n]);
      UnlinesThen(lines[..n], lines[n]);
    }
  }

  /** What lines end with, so nothing after them joins their last word. */
  lemma UnlinesThen(lines: seq<string>, rest: string)
    ensures Words(Unlines(lines) + rest) == Words(Unlines(lines)) + Words(rest)
  {
    hide Words;
    if lines == [] {
      NoWords();
      assert "" + rest == rest;
    } else {
      var front := Unlines(lines[..|lines| - 1]) + lines[|lines| - 1];
      Feed(front, rest);
      FeedLast(front);
    }
  }

  lemma {:induction false} BulletsAre(items: seq<string>)
    ensures Words(Unlines(BulletTexts(items))) == BulletWords(items)
  {
    hide Words, IsWhitespace;
    if items == [] {
      NoWords();
    } else {
      var n := |items| - 1;
      BulletsAre(items[..n]);
      assert BulletTexts(items)[..n] == BulletTexts(items[..n]);
      var line := BulletText(items[n]);
      DashIsWord();
      MarkIsWord("-", items[n]);
      assert line == "-" + " " + items[n];
      UnlinesThen(BulletTexts(items[..n]), line);
      FeedLast(Unlines(BulletTexts(items[..n])) + line);
    }
  }

  lemma DashIsWord()
    ensures forall i :: 0 <= i < |"-"| ==> !IsWhitespace("-"[i])
    ensures IsWord("|") && IsWord("```") && IsWord("---")
  {}

  lemma {:induction false} NumbersAre(items: seq<string>)
    ensures Words(Unlines(NumberTexts(items))) == NumberWords(items)
  {
    hide Words, Dec, IsWhitespace;
    if items == [] {
      NoWords();
    } else {
      var n := |items| - 1;
      NumbersAre(items[..n]);
      assert NumberTexts(items)[..n] == NumberTexts(items[..n]);
      var line := NumberText(n, items[n]);
      NumeralIsWord(n + 1);
      MarkIsWord(Dec(n + 1) + ".", items[n]);
      assert line == (Dec(n + 1) + ".") + " " + items[n];
      UnlinesThen(NumberTexts(items[..n]), line);
      FeedLast(Unlines(NumberTexts(items[..n])) + line);
    }
  }

  lemma NumeralIsWord(n: nat)
    ensures var s := Dec(n) + "."; s != "" && forall i :: 0 <= i < |s| ==> !IsWhitespace(s[i])
  {
    hide Dec, IsWhitespace;
    var s := Dec(n) + ".";
    assert forall i :: 0 <= i < |s| ==> IsDigit(s[i]) || s[i] == '.' || s[i] == ')';
    DigitsAreNotBlank(s);
  }

  lemma {:induction false} CellWords(cells: seq<string>)
    ensures Words(Join(cells, " | ")) == Between(cells)
  {
    hide Words, IsWhitespace;
    if cells == [] {
      NoWords();
    } else if |cells| > 1 {
      CellWords(cells[1..]);
      var rest := Join(cells[1..], " | ");
      DashIsWord();
      OneWord("|");
      Space("|", rest);
      Space(cells[0], "|" + " " + rest);
      assert cells[0] + " | " + rest == cells[0] + " " + ("|" + " " + rest);
    }
  }

  lemma RowIs(cells: seq<string>)
    ensures Words("| " + Join(cells, " | ") + " |") == RowWords(cells)
  {
    hide Words, IsWhitespace, Join;
    var text := Join(cells, " | ");
    CellWords(cells);
    DashIsWord();
    OneWord("|");
    Space("|", text);
    Space("|" + " " + text, "|");
    assert "| " + text + " |" == "|" + " " + text + " " + "|";
  }

  lemma {:induction false} DashesAre(n: nat)
    requires n > 0
    ensures Join(seq(n, _ => "---"), "|") + "|" == Dashes(n)
    ensures forall i :: 0 <= i < |Dashes(n)| ==> Dashes(n)[i] == '-' || Dashes(n)[i] == '|'
  {
    if n > 1 {
      DashesAre(n - 1);
      assert seq(n, _ => "---")[1..] == seq(n - 1, _ => "---");
    } else {
      assert Dashes(0) == "";
    }
  }

  lemma RuleIs(headers: seq<string>)
    ensures RuleRow(headers) == Rule(|headers|) + "\n" && IsWord(Rule(|headers|))
  {
    var n := |headers|;
    if n > 0 {
      DashesAre(n);
      assert seq(|headers|, _ => "---") == seq(n, _ => "---");
      BarsAreWords(Dashes(n));
    }
  }

  lemma BarsAreWords(s: string)
    requires forall i :: 0 <= i < |s| ==> s[i] == '-' || s[i] == '|'
    ensures IsWord("|" + s)
  {}

  lemma {:induction false} RowsAre(rows: seq<seq<string>>)
    ensures Words(Unlines(RowTexts(rows))) == AllRowWords(rows)
  {
    hide Words, RowWords, Join;
    if rows == [] {
      NoWords();
    } else {
      var n := |rows| - 1;
      RowsAre(rows[..n]);
      assert RowTexts(rows)[..n] == RowTexts(rows[..n]);
      var line := RowTexts(rows)[n];
      RowIs(rows[n]);
      UnlinesThen(RowTexts(rows[..n]), line);
      FeedLast(Unlines(RowTexts(rows[..n])) + line);
    }
  }

  lemma TableIs(headers: seq<string>, rows: seq<seq<string>>)
    ensures Words(BlockText(Table(headers, rows))) == BlockWords(Table(headers, rows))
  {
    hide Words, RowWords, AllRowWords, Join, Rule, Unlines, RuleRow, RowTexts;
    var head, body := "| " + Join(headers, " | ") + " |", Unlines(RowTexts(rows));
    RowIs(headers);
    RuleIs(headers);
    RowsAre(rows);
    OneWord(Rule(|headers|));
    FeedLast(body);
    Feed(Rule(|headers|), body + "\n");
    Feed(head, Rule(|headers|) + "\n" + (body + "\n"));
    assert BlockText(Table(headers, rows)) == head + "\n" + (Rule(|headers|) + "\n" + (body + "\n"));
  }

  lemma CodeIs(language: string, code: string)
    ensures Words(BlockText(Code(language, code))) == BlockWords(Code(language, code))
  {
    hide Words;
    DashIsWord();
    OneWord("```");
    FeedLast("```");
    FeedLast("```" + "\n");
    Feed(code, "```" + "\n" + "\n");
    Feed("```" + language, code + "\n" + ("```" + "\n" + "\n"));
    assert BlockText(Code(language, code)) == "```" + language + "\n" + (code + "\n" + ("```" + "\n" + "\n"));
  }

  /** A block's text has the words of the block, whatever it is. */
  lemma BlockTextIs(b: Block)
    ensures Words(BlockText(b)) == BlockWords(b)
  {
    hide Words, BulletWords, NumberWords, RowWords, AllRowWords, Unlines, IsWhitespace;
    match b
    case Heading(level, text) =>
      var mark := Hashes(ClampLevel(level));
      assert mark == HashMark(if level < 1 then 1 else if level > 6 then 6 else level);
      HashesAreWord(mark);
      MarkIsWord(mark, text);
      FeedLast(mark + " " + text);
      FeedLast(mark + " " + text + "\n");
      assert BlockText(b) == mark + " " + text + "\n" + "\n";
    case Paragraph(text) =>
      FeedLast(text);
      FeedLast(text + "\n");
      assert BlockText(b) == text + "\n" + "\n";
    case BulletList(items) =>
      BulletsAre(items);
      FeedLast(Unlines(BulletTexts(items)));
    case NumberedList(items) =>
      NumbersAre(items);
      FeedLast(Unlines(NumberTexts(items)));
    case Table(headers, rows) => TableIs(headers, rows);
    case Code(language, code) => CodeIs(language, code);
    case PageBreak =>
      DashIsWord();
      OneWord("---");
      FeedLast("---");
      FeedLast("---" + "\n");
      assert BlockText(b) == "---" + "\n" + "\n";
  }

  lemma HashesAreWord(s: string)
    requires s != "" && forall i :: 0 <= i < |s| ==> s[i] == '#'
    ensures forall i :: 0 <= i < |s| ==> !IsWhitespace(s[i])
  {}

  lemma EndsInFeed(b: Block)
    ensures BlockText(b) != "" && BlockText(b)[|BlockText(b)| - 1] == '\n'
  {
    hide Unlines, HeaderRow, RuleRow, Hashes;
  }

  lemma {:induction false} BlockTextsAre(blocks: seq<Block>)
    ensures Words(BlockTexts(blocks)) == AllBlockWords(blocks)
    ensures blocks != [] ==> BlockTexts(blocks) != "" && BlockTexts(blocks)[|BlockTexts(blocks)| - 1] == '\n'
  {
    hide Words, BlockText, BlockWords;
    if blocks == [] {
      NoWords();
    } else {
      var init, last := blocks[..|blocks| - 1], blocks[|blocks| - 1];
      BlockTextsAre(init);
      BlockTextIs(last);
      EndsInFeed(last);
      AfterFeed(BlockTexts(init), BlockText(last));
    }
  }

  lemma AfterFeed(a: string, b: string)
    requires a == "" || a[|a| - 1] == '\n'
    ensures Words(a + b) == Words(a) + Words(b)
  {
    hide Words;
    if a == "" {
      NoWords();
      assert a + b == b;
    } else {
      var front := a[..|a| - 1];
      assert a == front + "\n";
      Feed(front, b);
      FeedLast(front);
    }
  }

  /** The rendered text has the words of the title and of every block, in order, and no others but their marks. */
  lemma RenderedHolds(doc: Document)
    ensures Words(Rendered(doc)) == (if doc.title == "" then [] else ["#"] + Words(doc.title)) + AllBlockWords(doc.blocks)
  {
    hide Words, BlockTexts, AllBlockWords, TrimEnd, IsWhitespace;
    var body := BlockTexts(doc.blocks);
    BlockTextsAre(doc.blocks);
    var all := (if doc.title != "" then "# " + doc.title + "\n\n" else "") + body;
    TrimEndKeeps(all);
    if doc.title != "" {
      HashesAreWord("#");
      MarkIsWord("#", doc.title);
      FeedLast("# " + doc.title);
      Feed("# " + doc.title + "\n", body);
      assert all == "# " + doc.title + "\n" + "\n" + body;
      assert "# " + doc.title == "#" + " " + doc.title;
    } else {
      assert all == body;
    }
  }

  // ---- Tables and code read back ----

  function Spaced(cells: seq<string>): (s: seq<string>)
    ensures |s| == |cells| && forall i :: 0 <= i < |cells| ==> s[i] == " " + cells[i] + " "
  {
    seq(|cells|, i requires 0 <= i < |cells| => " " + cells[i] + " ")
  }

  lemma {:induction false} SpacedJoin(cells: seq<string>)
    requires cells != []
    ensures Join(Spaced(cells), "|") == " " + Join(cells, " | ") + " "
  {
    if |cells| > 1 {
      SpacedJoin(cells[1..]);
      assert Spaced(cells)[1..] == Spaced(cells[1..]);
      var rest := Join(cells[1..], " | ");
      assert " " + cells[0] + " " + "|" + (" " + rest + " ") == " " + (cells[0] + " | " + rest) + " ";
    }
  }

  lemma {:induction false} SplitPlus(s: string, sep: char)
    ensures SplitAt(s + [sep], sep) == SplitAt(s, sep) + [""]
  {
    if s == "" {
      assert (s + [sep])[1..] == "";
    } else {
      assert (s + [sep])[1..] == s[1..] + [sep];
      SplitPlus(s[1..], sep);
    }
  }

  /** A table row splits at its bars into its cells, each between spaces, exactly when it has one and no cell holds a bar. */
  lemma RowReads(cells: seq<string>)
    ensures SplitAt("| " + Join(cells, " | ") + " |", '|') == [""] + Spaced(cells) + [""] <==> Cells(cells, '|')
  {
    hide SplitAt, Join;
    var line := "| " + Join(cells, " | ") + " |";
    if cells == [] {
      NoCells();
    } else {
      var inner := " " + Join(cells, " | ") + " ";
      SpacedJoin(cells);
      assert line == "" + "|" + (inner + "|");
      SplitAfter("", inner + "|", '|');
      SplitPlus(inner, '|');
      RowReadsIff(Spaced(cells), '|');
      SpacedCells(cells);
      var parts := SplitAt(inner, '|');
      assert ([""] + parts + [""])[1..|parts| + 1] == parts;
      assert ([""] + Spaced(cells) + [""])[1..|cells| + 1] == Spaced(cells);
    }
  }

  lemma NoCells()
    ensures SplitAt("| " + Join([], " | ") + " |", '|') != [""] + Spaced([]) + [""]
  {
    var line := "| " + Join([], " | ") + " |";
    assert line == "|" + ("  " + "|");
    SplitAfter("", "  " + "|", '|');
    SplitPlus("  ", '|');
    assert "" + "|" + ("  " + "|") == line;
  }

  lemma SpacedCells(cells: seq<string>)
    ensures Cells(Spaced(cells), '|') <==> Cells(cells, '|')
  {
    forall i | 0 <= i < |cells| ensures '|' in cells[i] <==> '|' in Spaced(cells)[i] {
      assert Spaced(cells)[i] == " " + cells[i] + " ";
    }
  }

  /** The line is one row: it splits at its bars into the cells where that is possible. */
  ghost predicate RowLine(line: string, cells: seq<string>) {
    SplitAt(line, '|') == [""] + Spaced(cells) + [""] <==> Cells(cells, '|')
  }

  /** Lines for the header, the rule and each row, in order. */
  ghost predicate TableLines(headers: seq<string>, rows: seq<seq<string>>, lines: seq<string>) {
    && |lines| == 2 + |rows| && RowLine(lines[0], headers) && lines[1] == Rule(|headers|)
    && forall i :: 0 <= i < |rows| ==> RowLine(lines[2 + i], rows[i])
  }

  lemma {:induction false} UnlinesAfter(a: string, b: string, lines: seq<string>)
    ensures Unlines([a, b] + lines) == a + "\n" + b + "\n" + Unlines(lines)
    decreases |lines|
  {
    var all := [a, b] + lines;
    if lines == [] {
      assert all == [a, b] && all[..1] == [a] && [a][..0] == [];
      assert Unlines([a]) == a + "\n";
    } else {
      var n := |lines| - 1;
      assert all[..|all| - 1] == [a, b] + lines[..n];
      UnlinesAfter(a, b, lines[..n]);
      var front := a + "\n" + b + "\n";
      assert front + Unlines(lines[..n]) + lines[n] + "\n" == front + (Unlines(lines[..n]) + lines[n] + "\n");
    }
  }

  function RowText(cells: seq<string>): string { "| " + Join(cells, " | ") + " |" }

  function LinesOfTable(headers: seq<string>, rows: seq<seq<string>>): (lines: seq<string>)
    ensures |lines| == 2 + |rows| && lines[0] == RowText(headers) && lines[1] == Rule(|headers|)
    ensures forall i :: 0 <= i < |rows| ==> lines[2 + i] == RowText(rows[i])
  {
    [RowText(headers), Rule(|headers|)] + RowTexts(rows)
  }

  /** A rendered table is such lines and a blank one. */
  lemma TableReads(headers: seq<string>, rows: seq<seq<string>>)
    ensures TableLines(headers, rows, LinesOfTable(headers, rows))
    ensures BlockText(Table(headers, rows)) == Unlines(LinesOfTable(headers, rows)) + "\n"
  {
    hide Rule, RowText, RowLine, BlockText, Unlines, LinesOfTable;
    RowTextReads(headers);
    forall i | 0 <= i < |rows| ensures RowLine(LinesOfTable(headers, rows)[2 + i], rows[i]) { RowTextReads(rows[i]); }
    TableTextIs(headers, rows);
  }

  lemma TableTextIs(headers: seq<string>, rows: seq<seq<string>>)
    ensures BlockText(Table(headers, rows)) == Unlines(LinesOfTable(headers, rows)) + "\n"
  {
    hide Rule, Join, Unlines, RuleRow, RowTexts;
    RuleIs(headers);
    UnlinesAfter(RowText(headers), Rule(|headers|), RowTexts(rows));
    TableJoined(RowText(headers), Rule(|headers|), Unlines(RowTexts(rows)));
  }

  lemma TableJoined(a: string, b: string, c: string)
    ensures (a + "\n") + (b + "\n") + c + "\n" == a + "\n" + b + "\n" + c + "\n"
  {}

  lemma RowTextReads(cells: seq<string>)
    ensures RowLine(RowText(cells), cells)
  {
    hide SplitAt, Join;
    RowReads(cells);
  }

  /** A rendered code block reads back exactly when no line of the code closes its fence of three backticks. */
  lemma CodeReadsIff(language: string, code: string)
    requires CodeFence.TagShaped(language)
    ensures CodeFence.ReadFenced(BlockText(Code(language, code))) == Some(CodeFence.Fenced(language, code + "\n", "\n"))
      <==> !CodeFence.HasClosing(code + "\n", 3)
  {
    hide CodeFence.ReadFenced, CodeFence.HasClosing, CodeFence.TagShaped;
    CodeFence.FencingReadsIff(3, language, code, "\n\n");
    assert CodeFence.Ticks(3) == "```";
    assert BlockText(Code(language, code)) == CodeFence.Fencing(3, language, code) + "\n\n";
    assert "\n\n"[1..] == "\n";
  }
}
