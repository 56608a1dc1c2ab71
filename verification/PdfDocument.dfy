// What a reader of a rendered file sees, stated on the document's own text.
module PdfDocument {
  import opened Decimal
  import opened Document
  import opened Options
  import opened PdfPages
  import opened PdfText
  import opened PdfFile
  import opened PdfLayout
  import opened PdfReader
  import opened Rows
  import Ascii
  import Text

  /** What is seen of a text: printable ASCII and the upper half of Latin-1 as they are, anything else as a space. */
  function Displayed(text: string): (s: string)
    ensures |s| == |text|
  {
    seq(|text|, i requires 0 <= i < |text| =>
      if ' ' <= text[i] <= '~' || 0xA0 as char <= text[i] <= 0xFF as char then text[i] else ' ')
  }

  lemma {:induction false} VisibleIsDisplayed(s: string)
    ensures Visible(s) == Displayed(s)
  {
    if s != "" {
      VisibleIsDisplayed(s[1..]);
      assert Displayed(s) == [Displayed(s)[0]] + Displayed(s[1..]);
    }
  }

  ghost predicate Body(l: ShownLine, text: string) { l == ShownLine(12, Displayed(text)) }

  ghost predicate Title(l: ShownLine, text: string) { l == ShownLine(16, Displayed(text)) }

  function DisplayedAll(cells: seq<string>): (s: seq<string>)
    ensures |s| == |cells|
  {
    seq(|cells|, i requires 0 <= i < |cells| => Displayed(cells[i]))
  }

  /** A row is seen as its cells with single spaces between, and splits there when no cell holds or shows a space. */
  ghost predicate Row(l: ShownLine, cells: seq<string>) {
    && l.size == 12 && l.text == Text.Join(DisplayedAll(cells), " ")
    && (SplitAt(l.text, ' ') == DisplayedAll(cells) <==> Cells(DisplayedAll(cells), ' '))
  }

  ghost predicate Numbered(l: ShownLine, n: nat, text: string) {
    l.size == 12 && ReadNat(l.text) == Some((n, ". " + Displayed(text)))
  }

  /** What is seen of a block. */
  ghost predicate Shows(b: Block, out: seq<ShownLine>) {
    match b
    case Heading(_, text) => |out| == 1 && Title(out[0], text)
    case Paragraph(text) => |out| == 1 && Body(out[0], text)
    case BulletList(items) => |out| == |items| && forall i :: 0 <= i < |items| ==> Body(out[i], "  " + items[i])
    case NumberedList(items) => |out| == |items| && forall i :: 0 <= i < |items| ==> Numbered(out[i], i + 1, items[i])
    case Table(headers, rows) =>
      |out| == 1 + |rows| && Row(out[0], headers) && forall i :: 0 <= i < |rows| ==> Row(out[i + 1], rows[i])
    case Code(_, code) =>
      exists lines: seq<string> :: AreLines(code, lines) && |out| == |lines|
        && forall i :: 0 <= i < |lines| ==> Body(out[i], lines[i])
    case PageBreak => out == []
  }

  /** The title, if there is one, and what is seen of each block, in order. */
  ghost predicate ShowsDocument(doc: Document, parts: seq<seq<ShownLine>>, lines: seq<ShownLine>) {
    && |parts| == |doc.blocks| && (forall i :: 0 <= i < |parts| ==> Shows(doc.blocks[i], parts[i]))
    && lines == (if doc.title == "" then [] else [ShownLine(16, Displayed(doc.title))]) + Concat(parts)
  }

  // ---- From items to what is seen ----

  ghost function ShownItems(items: seq<Item>): seq<ShownLine> { ShownLines(Lines(items)) }

  lemma {:induction false} ShownLinesPlus(a: seq<Line>, b: seq<Line>)
    ensures ShownLines(a + b) == ShownLines(a) + ShownLines(b)
  {
    hide Visible;
    if a == [] {
      assert a + b == b;
    } else {
      assert (a + b)[1..] == a[1..] + b;
      ShownLinesPlus(a[1..], b);
    }
  }

  lemma {:induction false} LinesPlus(a: seq<Item>, b: seq<Item>)
    ensures Lines(a + b) == Lines(a) + Lines(b)
    decreases |b|
  {
    if b == [] {
      assert a + b == a;
    } else {
      assert (a + b)[..|a + b| - 1] == a + b[..|b| - 1];
      LinesPlus(a, b[..|b| - 1]);
    }
  }

  lemma ShownItemsPlus(a: seq<Item>, b: seq<Item>)
    ensures ShownItems(a + b) == ShownItems(a) + ShownItems(b)
  {
    hide ShownLines, Lines;
    LinesPlus(a, b);
    ShownLinesPlus(Lines(a), Lines(b));
  }

  lemma ShownOne(x: Item)
    ensures ShownItems([x]) ==
      if x.Break? then [] else [ShownLine(if x.line.heading then 16 else 12, Displayed(x.line.text))]
  {
    hide Visible, Displayed;
    assert [x][..0] == [];
    assert Lines([x]) == if x.Break? then [] else [x.line];
    if x.LineItem? {
      VisibleIsDisplayed(x.line.text);
      OneShown(x.line);
    }
  }

  lemma OneShown(l: Line)
    ensures ShownLines([l]) == [ShownLine(if l.heading then 16 else 12, Visible(l.text))]
  {
    hide Visible;
    assert [l][1..] == [];
    NothingShown();
  }

  lemma {:induction false} ShownEach(items: seq<Item>)
    requires Break !in items
    ensures |ShownItems(items)| == |items|
    ensures forall i :: 0 <= i < |items| ==>
      items[i].LineItem? && ShownItems(items)[i] == ShownLine(if items[i].line.heading then 16 else 12, Displayed(items[i].line.text))
    decreases |items|
  {
    hide ShownItems, Displayed;
    if items == [] {
      NoneShown();
    } else {
      var init, last := items[..|items| - 1], items[|items| - 1];
      assert items == init + [last] && last in items;
      ShownEach(init);
      ShownItemsPlus(init, [last]);
      ShownOne(last);
      assert last.LineItem?;
    }
  }

  lemma NoneShown()
    ensures ShownItems([]) == []
  {}

  lemma {:induction false} DisplayedJoin(cells: seq<string>)
    ensures Displayed(Text.Join(cells, "\t")) == Text.Join(DisplayedAll(cells), " ")
  {
    if |cells| > 1 {
      DisplayedJoin(cells[1..]);
      assert DisplayedAll(cells)[1..] == DisplayedAll(cells[1..]);
      var rest := Text.Join(cells[1..], "\t");
      assert Displayed(cells[0] + "\t" + rest) == Displayed(cells[0]) + " " + Displayed(rest);
    }
  }

  lemma RowShown(item: Item, cells: seq<string>)
    requires PlainRow(item, cells)
    ensures Row(ShownLine(12, Displayed(item.line.text)), cells)
  {
    hide Displayed, SplitAt, Text.Join;
    DisplayedJoin(cells);
    RowReadsIff(DisplayedAll(cells), ' ');
  }

  lemma NumberedShown(item: Item, n: nat, text: string)
    requires PlainNumbered(item, n, text)
    ensures Numbered(ShownLine(12, Displayed(item.line.text)), n, text)
  {
    var s := item.line.text;
    var k := Ascii.RunEnd(s, 0, Ascii.IsDigit);
    var shown := Displayed(s);
    assert s[k..] == ". " + text && s[k] == '.';
    assert shown[k..] == ". " + Displayed(text);
    Ascii.RunEndUnique(shown, 0, Ascii.IsDigit, k);
    assert shown[..k] == s[..k];
  }

  lemma BulletShown(text: string)
    ensures Displayed("\U{2022} " + text) == Displayed("  " + text)
  {}

  lemma BlockShows(b: Block, out: seq<Item>)
    requires Lays(b, out)
    ensures Shows(b, ShownItems(out))
  {
    hide ShownItems, Displayed, PlainRow, Row, PlainNumbered, Numbered, AreLines;
    if b.PageBreak? {
      ShownOne(Break);
    } else {
      OnlyLines(b, out);
      ShownEach(out);
      match b
      case Heading(_, _) =>
      case Paragraph(_) =>
      case BulletList(items) =>
        forall i | 0 <= i < |items| ensures Body(ShownItems(out)[i], "  " + items[i]) { BulletShown(items[i]); }
      case NumberedList(items) =>
        forall i | 0 <= i < |items| ensures Numbered(ShownItems(out)[i], i + 1, items[i]) {
          NumberedPlain(out[i], i + 1, items[i]);
          NumberedShown(out[i], i + 1, items[i]);
        }
      case Table(headers, rows) =>
        RowPlain(out[0], headers);
        RowShown(out[0], headers);
        forall i | 0 <= i < |rows| ensures Row(ShownItems(out)[i + 1], rows[i]) {
          RowPlain(out[i + 1], rows[i]);
          RowShown(out[i + 1], rows[i]);
        }
      case Code(_, code) =>
    }
  }

  lemma RowPlain(item: Item, cells: seq<string>)
    requires PlainRow(item, cells)
    ensures item.LineItem? && !item.line.heading
  {}

  lemma NumberedPlain(item: Item, n: nat, text: string)
    requires PlainNumbered(item, n, text)
    ensures item.LineItem? && !item.line.heading
  {}

  lemma OnlyLines(b: Block, out: seq<Item>)
    requires Lays(b, out) && !b.PageBreak?
    ensures Break !in out
  {
    forall i | 0 <= i < |out| ensures out[i].LineItem? {
      match b
      case Table(headers, rows) => if i > 0 { assert PlainRow(out[i - 1 + 1], rows[i - 1]); }
      case NumberedList(items) => assert PlainNumbered(out[i], i + 1, items[i]);
      case BulletList(items) => assert PlainText(out[i], "\U{2022} " + items[i]);
      case Code(_, code) =>
        var lines: seq<string> :| AreLines(code, lines) && |out| == |lines|
          && forall i :: 0 <= i < |lines| ==> PlainText(out[i], lines[i]);
        assert PlainText(out[i], lines[i]);
      case _ =>
    }
  }

  // ---- The whole document ----

  ghost function ShownParts(parts: seq<seq<Item>>): (s: seq<seq<ShownLine>>)
    ensures |s| == |parts| && forall i :: 0 <= i < |parts| ==> s[i] == ShownItems(parts[i])
  {
    seq(|parts|, i requires 0 <= i < |parts| => ShownItems(parts[i]))
  }

  lemma {:induction false} ShownConcat(parts: seq<seq<Item>>)
    ensures ShownItems(Concat(parts)) == Concat(ShownParts(parts))
  {
    hide ShownItems;
    if parts == [] {
      NoneShown();
    } else {
      var init, last := parts[..|parts| - 1], parts[|parts| - 1];
      ShownConcat(init);
      ShownItemsPlus(Concat(init), last);
      assert ShownParts(parts)[..|parts| - 1] == ShownParts(init);
    }
  }

  lemma {:induction false} PagesShown(pages: seq<seq<Line>>)
    ensures Concat(ShownPages(pages)) == ShownLines(Concat(pages))
  {
    hide ShownLines;
    if pages == [] {
      NothingShown();
    } else {
      var init := pages[..|pages| - 1];
      PagesShown(init);
      ShownLinesPlus(Concat(init), pages[|pages| - 1]);
      assert ShownPages(pages)[..|pages| - 1] == ShownPages(init);
    }
  }

  lemma NothingShown()
    ensures ShownLines([]) == []
  {}

  lemma LaidShows(doc: Document, parts: seq<seq<Item>>, items: seq<Item>)
    requires Laid(doc, parts, items)
    ensures ShowsDocument(doc, ShownParts(parts), ShownItems(items))
  {
    hide ShownItems, Lays, Shows, Displayed;
    forall i | 0 <= i < |parts| ensures Shows(doc.blocks[i], ShownParts(parts)[i]) {
      assert Lays(doc.blocks[i], parts[i]);
      BlockShows(doc.blocks[i], parts[i]);
    }
    ShownConcat(parts);
    if doc.title != "" {
      var title := LineItem(Line(doc.title, true, 1));
      ShownItemsPlus([title], Concat(parts));
      ShownOne(title);
    } else {
      assert [] + Concat(parts) == Concat(parts);
      assert [] + Concat(ShownParts(parts)) == Concat(ShownParts(parts));
    }
  }

  /** Whatever a document says, a reader of its rendered file sees it, block by block. */
  lemma RenderShows(doc: Document)
    requires ReadPdf(Render(doc)).Some?
    ensures ShowsDocument(doc, ShownParts(Parts(doc.blocks)), Concat(ReadPdf(Render(doc)).value))
  {
    hide ReadPdf, Render, Items, Laid, ShowsDocument, ShownParts, Parts, Offset, Bodies, Pages, FIELD_LIMIT, Lines, ShownLines;
    RenderRoundTrip(doc);
    PagesHold(Items(doc));
    PagesShown(Pages(Items(doc)));
    FlattenLays(doc);
    LaidShows(doc, Parts(doc.blocks), Items(doc));
  }
}
