// From a document to pages of lines: flattening and pagination.
module PdfPages {
  import opened Document
  import Decimal
  import Text

  datatype Line = Line(text: string, heading: bool, level: nat)

  datatype Item = LineItem(line: Line) | Break

  // ---- Flattening ----

  function Plain(text: string): Item { LineItem(Line(text, false, 0)) }

  function PlainLines(texts: seq<string>): seq<Item> {
    if texts == [] then [] else PlainLines(texts[..|texts| - 1]) + [Plain(texts[|texts| - 1])]
  }

  const BULLET := "\U{2022} "

  function Bulleted(items: seq<string>): seq<string> {
    seq(|items|, i requires 0 <= i < |items| => BULLET + items[i])
  }

  function Numbered(items: seq<string>): seq<string> {
    seq(|items|, i requires 0 <= i < |items| => Decimal.Dec(i + 1) + ". " + items[i])
  }

  function Tabbed(rows: seq<seq<string>>): seq<string> {
    seq(|rows|, i requires 0 <= i < |rows| => Text.Join(rows[i], "\t"))
  }

  /** The lines of one block. */
  function BlockItems(b: Block): seq<Item> {
    match b
    case Heading(level, text) => [LineItem(Line(text, true, ClampLevel(level)))]
    case Paragraph(text) => [Plain(text)]
    case BulletList(items) => PlainLines(Bulleted(items))
    case NumberedList(items) => PlainLines(Numbered(items))
    case Table(headers, rows) => [Plain(Text.Join(headers, "\t"))] + PlainLines(Tabbed(rows))
    case Code(_, code) => PlainLines(Text.SplitLines(code))
    case PageBreak => [Break]
  }

  function BlocksItems(blocks: seq<Block>): seq<Item> {
    if blocks == [] then [] else BlocksItems(blocks[..|blocks| - 1]) + BlockItems(blocks[|blocks| - 1])
  }

  function Items(doc: Document): seq<Item> {
    (if doc.title != "" then [LineItem(Line(doc.title, true, 1))] else []) + BlocksItems(doc.blocks)
  }

  method PushLines(texts: seq<string>, out0: seq<Item>) returns (out: seq<Item>)
    ensures out == out0 + PlainLines(texts)
  {
    out := out0;
    for i := 0 to |texts|
      invariant out == out0 + PlainLines(texts[..i])
    {
      assert texts[..i + 1][..i] == texts[..i];
      out := out + [Plain(texts[i])];
    }
    assert texts[..|texts|] == texts;
  }

  method PushBlock(b: Block, out0: seq<Item>) returns (out: seq<Item>)
    ensures out == out0 + BlockItems(b)
  {
    hide PlainLines;
    out := out0;
    match b
    case Heading(level, text) => out := out + [LineItem(Line(text, true, ClampLevel(level)))];
    case Paragraph(text) => out := out + [Plain(text)];
    case BulletList(items) => out := PushLines(Bulleted(items), out);
    case NumberedList(items) => out := PushLines(Numbered(items), out);
    case Table(headers, rows) =>
      out := out + [Plain(Text.Join(headers, "\t"))];
      out := PushLines(Tabbed(rows), out);
    case Code(_, code) => out := PushLines(Text.SplitLines(code), out);
    case PageBreak => out := out + [Break];
  }

  /** `flatten`. */
  method Flatten(doc: Document) returns (out: seq<Item>)
    ensures out == Items(doc)
  {
    hide BlockItems;
    out := [];
    if doc.title != "" {
      out := out + [LineItem(Line(doc.title, true, 1))];
    }
    ghost var titled := out;
    for i := 0 to |doc.blocks|
      invariant out == titled + BlocksItems(doc.blocks[..i])
    {
      assert doc.blocks[..i + 1][..i] == doc.blocks[..i];
      out := PushBlock(doc.blocks[i], out);
    }
    assert doc.blocks[..|doc.blocks|] == doc.blocks;
  }

  // ---- Pagination ----

  const LINES_PER_PAGE: nat := 48

  /** The runs of lines between page breaks. */
  function Segments(items: seq<Item>): (segs: seq<seq<Line>>)
    ensures segs != []
  {
    if items == [] then [[]]
    else
      var init := Segments(items[..|items| - 1]);
      match items[|items| - 1]
      case Break => init + [[]]
      case LineItem(l) => init[..|init| - 1] + [init[|init| - 1] + [l]]
  }

  /** A run cut into full pages and a last one. */
  function Cut(seg: seq<Line>): (pages: seq<seq<Line>>)
    ensures pages != []
  {
    if |seg| <= LINES_PER_PAGE then [seg] else [seg[..LINES_PER_PAGE]] + Cut(seg[LINES_PER_PAGE..])
  }

  function CutAll(segs: seq<seq<Line>>): seq<seq<Line>> {
    if segs == [] then [] else CutAll(segs[..|segs| - 1]) + Cut(segs[|segs| - 1])
  }

  predicate AllEmpty(pages: seq<seq<Line>>) {
    forall i :: 0 <= i < |pages| ==> pages[i] == []
  }

  /** Each run between breaks fills its own pages; an empty document has one blank page. */
  function Pages(items: seq<Item>): seq<seq<Line>> {
    var pages := CutAll(Segments(items));
    if AllEmpty(pages) then [[]] else pages
  }

  lemma {:induction false} CutAppend(seg: seq<Line>, l: Line)
    ensures var p := Cut(seg);
      Cut(seg + [l]) ==
        if |p[|p| - 1]| >= LINES_PER_PAGE then p + [[l]] else p[..|p| - 1] + [p[|p| - 1] + [l]]
    decreases |seg|
  {
    if |seg| < LINES_PER_PAGE {
    } else if |seg| == LINES_PER_PAGE {
      assert (seg + [l])[..LINES_PER_PAGE] == seg && (seg + [l])[LINES_PER_PAGE..] == [l];
    } else {
      assert (seg + [l])[..LINES_PER_PAGE] == seg[..LINES_PER_PAGE];
      assert (seg + [l])[LINES_PER_PAGE..] == seg[LINES_PER_PAGE..] + [l];
      CutAppend(seg[LINES_PER_PAGE..], l);
    }
  }

  lemma LineOntoPages(items: seq<Item>, l: Line)
    ensures var p := CutAll(Segments(items));
      p != [] && CutAll(Segments(items + [LineItem(l)])) ==
        if |p[|p| - 1]| >= LINES_PER_PAGE then p + [[l]] else p[..|p| - 1] + [p[|p| - 1] + [l]]
  {
    hide Cut;
    var segs := Segments(items);
    assert (items + [LineItem(l)])[..|items|] == items;
    CutAppend(segs[|segs| - 1], l);
  }

  lemma BreakOntoPages(items: seq<Item>)
    ensures CutAll(Segments(items + [Break])) == CutAll(Segments(items)) + [[]]
  {
    assert (items + [Break])[..|items|] == items;
    var segs := Segments(items);
    assert (segs + [[]])[..|segs|] == segs;
  }

  /** The paginating loop of `render_bytes`. */
  method Paginate(items: seq<Item>) returns (pages: seq<seq<Line>>)
    ensures pages == Pages(items)
  {
    hide Segments, CutAll;
    pages := [[]];
    NoItems();
    for i := 0 to |items|
      invariant pages == CutAll(Segments(items[..i])) && pages != []
    {
      assert items[..i] + [items[i]] == items[..i + 1];
      match items[i]
      case Break =>
        BreakOntoPages(items[..i]);
        pages := pages + [[]];
      case LineItem(l) =>
        LineOntoPages(items[..i], l);
        ghost var before := pages;
        if |pages[|pages| - 1]| >= LINES_PER_PAGE {
          pages := pages + [[]];
        }
        ghost var extended := pages;
        pages := pages[|pages| - 1 := pages[|pages| - 1] + [l]];
        if |before[|before| - 1]| >= LINES_PER_PAGE {
          assert extended[|before|] + [l] == [l];
          assert pages == before + [[l]];
        } else {
          assert pages == before[..|before| - 1] + [before[|before| - 1] + [l]];
        }
    }
    assert items[..|items|] == items;
    if AllEmpty(pages) {
      pages := [[]];
    }
  }

  lemma NoItems()
    ensures CutAll(Segments([])) == [[]]
  {
    var blank: seq<seq<Line>> := [[]];
    assert blank[..0] == [] && blank[0] == [];
  }

  // ---- What the pages hold ----

  function Lines(items: seq<Item>): seq<Line> {
    if items == [] then []
    else
      Lines(items[..|items| - 1]) + match items[|items| - 1] case Break => [] case LineItem(l) => [l]
  }

  function Concat<T>(pages: seq<seq<T>>): seq<T> {
    if pages == [] then [] else Concat(pages[..|pages| - 1]) + pages[|pages| - 1]
  }

  lemma {:induction false} ConcatPlus<T>(a: seq<seq<T>>, b: seq<seq<T>>)
    ensures Concat(a + b) == Concat(a) + Concat(b)
    decreases |b|
  {
    hide Concat;
    if b == [] {
      assert a + b == a;
      ConcatMore(a, []);
    } else {
      var init, last := b[..|b| - 1], b[|b| - 1];
      ConcatPlus(a, init);
      ConcatMore(init, last);
      ConcatMore(a + init, last);
      assert init + [last] == b && a + init + [last] == a + b;
    }
  }

  lemma ConcatMore<T>(parts: seq<seq<T>>, last: seq<T>)
    ensures Concat<T>([]) == [] && Concat(parts + [last]) == Concat(parts) + last
  {
    assert (parts + [last])[..|parts|] == parts;
  }

  lemma {:induction false} CutHolds(seg: seq<Line>)
    ensures Concat(Cut(seg)) == seg
    ensures forall p :: p in Cut(seg) ==> |p| <= LINES_PER_PAGE
    ensures forall i :: 0 <= i < |Cut(seg)| - 1 ==> |Cut(seg)[i]| == LINES_PER_PAGE
    decreases |seg|
  {
    if |seg| > LINES_PER_PAGE {
      var head, tail := seg[..LINES_PER_PAGE], seg[LINES_PER_PAGE..];
      CutHolds(tail);
      ConcatPlus([head], Cut(tail));
      assert [head][..0] == [];
      assert Concat([head]) == head;
    } else {
      assert [seg][..0] == [];
    }
  }

  lemma {:induction false} CutAllHolds(segs: seq<seq<Line>>)
    ensures Concat(CutAll(segs)) == Concat(segs)
    ensures forall p :: p in CutAll(segs) ==> |p| <= LINES_PER_PAGE
  {
    if segs != [] {
      var init, last := segs[..|segs| - 1], segs[|segs| - 1];
      CutAllHolds(init);
      CutHolds(last);
      ConcatPlus(CutAll(init), Cut(last));
    }
  }

  lemma {:induction false} SegmentsHold(items: seq<Item>)
    ensures Concat(Segments(items)) == Lines(items)
  {
    if items == [] {
      var blank: seq<seq<Line>> := [[]];
      assert blank[..0] == [] && blank[0] == [];
    } else {
      var init := Segments(items[..|items| - 1]);
      SegmentsHold(items[..|items| - 1]);
      match items[|items| - 1]
      case Break => assert (init + [[]])[..|init|] == init;
      case LineItem(l) =>
        var k := |init| - 1;
        assert (init[..k] + [init[k] + [l]])[..k] == init[..k];
    }
  }

  lemma {:induction false} EmptyHolds(pages: seq<seq<Line>>)
    requires AllEmpty(pages)
    ensures Concat(pages) == []
  {
    if pages != [] { EmptyHolds(pages[..|pages| - 1]); }
  }

  /** There is a page, no page is over-full, and the pages hold the lines in order. */
  lemma PagesHold(items: seq<Item>)
    ensures Pages(items) != [] && Concat(Pages(items)) == Lines(items)
    ensures forall p :: p in Pages(items) ==> |p| <= LINES_PER_PAGE
  {
    var pages := CutAll(Segments(items));
    SegmentsHold(items);
    CutAllHolds(Segments(items));
    if AllEmpty(pages) {
      EmptyHolds(pages);
      EmptyHolds([[]]);
    }
  }
}
