// An independent PDF reader - trailer, cross-reference table, page tree, content streams - and the
// proof that it undoes the writer.
module PdfReader {
  import opened Ascii
  import opened Decimal
  import opened Document
  import opened Options
  import opened PdfFile
  import opened PdfPages
  import opened PdfText

  // ---- The reader ----

  /** The last occurrence of the needle at or before `at`, or -1. */
  function FindLast(s: string, needle: string, at: int): (r: int)
    ensures r == -1 || (0 <= r <= at && Occurs(s, needle, r))
    decreases at + 1
  {
    if at < 0 then -1 else if Occurs(s, needle, at) then at else FindLast(s, needle, at - 1)
  }

  const ENTRY_WIDTH: nat := 20

  /** The offset in one 20-byte entry whose keyword is `kind`. */
  function ReadEntry(s: string, kind: char): Option<nat> {
    if |s| < ENTRY_WIDTH then None
    else if !AllDigits(s[..10]) || s[10] != ' ' || !AllDigits(s[11..16]) || s[16] != ' ' then None
    else if s[17] != kind || s[18..20] !in {" \n", " \r", "\r\n"} then None
    else Some(Value(s[..10]))
  }

  function ReadEntries(s: string, n: nat): Option<(seq<nat>, string)>
    decreases n
  {
    if n == 0 then Some(([], s))
    else
      var offset :- ReadEntry(s, 'n');
      var (more, rest) :- ReadEntries(s[ENTRY_WIDTH..], n - 1);
      Some(([offset] + more, rest))
  }

  /** The offsets of objects 1, 2, … and the number of the document catalog. */
  function ReadXref(s: string): Option<(seq<nat>, nat)> {
    var (size, r1) :- ReadAfter(s, XREF);
    var r2 :- Expect(r1, "\n");
    var _ :- ReadEntry(r2, 'f');
    if size == 0 then None
    else
      var (offsets, r3) :- ReadEntries(r2[ENTRY_WIDTH..], size - 1);
      var (size2, r4) :- ReadAfter(r3, TRAILER);
      var (root, r5) :- ReadAfter(r4, ROOT);
      var _ :- Expect(r5, DICT_END);
      if size2 != size then None else Some((offsets, root))
  }

  /** What follows `num 0 obj` at the offset the table has for object `num`. */
  function ReadObject(buf: string, offsets: seq<nat>, num: nat): Option<string> {
    if num == 0 || num > |offsets| || offsets[num - 1] > |buf| then None
    else
      var (found, rest) :- ReadNat(buf[offsets[num - 1]..]);
      if found != num then None else Expect(rest, OBJ)
  }

  /** References up to the closing bracket of the array. */
  function ReadRefs(s: string): (r: Option<(seq<nat>, string)>)
    decreases |s|
  {
    var (num, r1) :- ReadNat(s);
    var r2 :- Expect(r1, REF);
    if r2 != "" && r2[0] == ' ' then
      var (more, rest) :- ReadRefs(r2[1..]);
      Some(([num] + more, rest))
    else Some(([num], r2))
  }

  function ReadPage(buf: string, offsets: seq<nat>, num: nat): Option<seq<ShownLine>> {
    var page :- ReadObject(buf, offsets, num);
    var (_, r1) :- ReadAfter(page, PAGE);
    var (contents, r2) :- ReadAfter(r1, CONTENTS);
    var r3 :- Expect(r2, REF_CLOSE);
    var _ :- Expect(r3, ENDOBJ);
    var body :- ReadObject(buf, offsets, contents);
    ReadStream(body)
  }

  /** A stream object: exactly `Length` bytes, then `endstream`. */
  function ReadStream(body: string): Option<seq<ShownLine>> {
    var (length, r1) :- ReadAfter(body, LENGTH);
    var r2 :- Expect(r1, STREAM);
    if length > |r2| then None
    else
      var r3 :- Expect(r2[length..], ENDSTREAM);
      var _ :- Expect(r3, ENDOBJ);
      ReadContent(r2[..length])
  }

  function ReadPages(buf: string, offsets: seq<nat>, kids: seq<nat>): Option<seq<seq<ShownLine>>> {
    if kids == [] then Some([])
    else
      var page :- ReadPage(buf, offsets, kids[0]);
      var more :- ReadPages(buf, offsets, kids[1..]);
      Some([page] + more)
  }

  function ReadTree(buf: string, offsets: seq<nat>, root: nat): Option<seq<seq<ShownLine>>> {
    var catalog :- ReadObject(buf, offsets, root);
    var (tree, r1) :- ReadAfter(catalog, CATALOG);
    var r2 :- Expect(r1, REF_CLOSE);
    var _ :- Expect(r2, ENDOBJ);
    var body :- ReadObject(buf, offsets, tree);
    var r3 :- Expect(body, KIDS);
    var (kids, r4) :- ReadRefs(r3);
    var (count, r5) :- ReadAfter(r4, COUNT);
    var r6 :- Expect(r5, CLOSE);
    var _ :- Expect(r6, ENDOBJ);
    if count != |kids| then None else ReadPages(buf, offsets, kids)
  }

  /** The lines each page shows, from the last `startxref` on. */
  function ReadPdf(buf: string): Option<seq<seq<ShownLine>>> {
    var at := FindLast(buf, STARTXREF, |buf|);
    if at < 0 then None
    else
      var (start, rest) :- ReadAfter(buf[at..], STARTXREF);
      var _ :- Expect(rest, EOF);
      if start > |buf| then None
      else
        var (offsets, root) :- ReadXref(buf[start..]);
        ReadTree(buf, offsets, root)
  }

  // ---- Finding the cross-reference table ----

  lemma {:induction false} FindLastIs(s: string, needle: string, at: int, p: nat)
    requires p <= at && Occurs(s, needle, p)
    requires forall q :: p < q <= at ==> !Occurs(s, needle, q)
    ensures FindLast(s, needle, at) == p
    decreases at
  {
    if p < at { FindLastIs(s, needle, at - 1, p); }
  }

  /** After its first letter, no `s` stands in what follows the last `startxref`. */
  lemma NoLaterS(start: nat, q: nat)
    requires 0 < q < |STARTXREF + (Dec(start) + EOF)|
    ensures (STARTXREF + (Dec(start) + EOF))[q] != STARTXREF[0]
  {
    hide Dec;
    var s := STARTXREF + (Dec(start) + EOF);
    if q < |STARTXREF| {
      assert s[q] == STARTXREF[q];
    } else if q < |STARTXREF| + |Dec(start)| {
      assert s[q] == Dec(start)[q - |STARTXREF|];
    } else {
      assert s[q] == EOF[q - |STARTXREF| - |Dec(start)|];
    }
  }

  lemma NoLaterStart(start: nat, q: nat)
    requires 0 < q
    ensures !Occurs(STARTXREF + (Dec(start) + EOF), STARTXREF, q)
  {
    hide Dec, EOF;
    var s := STARTXREF + (Dec(start) + EOF);
    if q < |s| {
      NoLaterS(start, q);
      OccursHead(s, STARTXREF, q);
    }
  }

  lemma StartFound(before: string, start: nat)
    ensures var s := before + (STARTXREF + (Dec(start) + EOF));
      FindLast(s, STARTXREF, |s|) == |before| && s[|before|..] == STARTXREF + (Dec(start) + EOF)
  {
    hide STARTXREF, EOF, Dec, Occurs;
    var tail := STARTXREF + (Dec(start) + EOF);
    var s := before + tail;
    forall q | |before| < q <= |s|
      ensures !Occurs(s, STARTXREF, q)
    {
      NoLaterStart(start, q - |before|);
      OccursShift(before, tail, STARTXREF, q - |before|);
    }
    StartsWith(STARTXREF, Dec(start) + EOF);
    OccursShift(before, tail, STARTXREF, 0);
    FindLastIs(s, STARTXREF, |s|, |before|);
  }

  lemma StartsWith(needle: string, rest: string)
    ensures Occurs(needle + rest, needle, 0)
  {}

  // ---- Reading the table ----

  const FIELD_LIMIT: nat := Pow10(10)

  /** An entry is 20 bytes exactly when its offset fits ten digits, and only then is read. */
  lemma EntryReads(offset: nat, rest: string)
    ensures |Entry(offset)| == ENTRY_WIDTH <==> offset < FIELD_LIMIT
    ensures offset < FIELD_LIMIT ==> ReadEntry(Entry(offset) + rest, 'n') == Some(offset)
    ensures offset >= FIELD_LIMIT ==> ReadEntry(Entry(offset) + rest, 'n') == None
  {
    hide Padded, Value;
    var field := Padded(offset, 10);
    PaddedRoundTrip(offset, 10);
    var s := Entry(offset) + rest;
    if offset < FIELD_LIMIT {
      assert s[..10] == field;
      assert s[10..20] == IN_USE;
      assert s[11..16] == IN_USE[1..6] == "00000";
      assert s[18..20] == IN_USE[8..] == " \n";
      assert s[10] == IN_USE[0] && s[16] == IN_USE[6] && s[17] == IN_USE[7];
    } else {
      assert s[10] == field[10];
    }
  }

  lemma {:induction false} EntriesRead(offsets: seq<nat>, rest: string)
    requires forall i :: 0 <= i < |offsets| ==> offsets[i] < FIELD_LIMIT
    ensures ReadEntries(Entries(offsets, rest), |offsets|) == Some((offsets, rest))
    decreases |offsets|
  {
    hide ReadEntry, Entry, FIELD_LIMIT;
    if offsets != [] {
      var more := Entries(offsets[1..], rest);
      EntryReads(offsets[0], more);
      EntriesRead(offsets[1..], rest);
      assert offsets == [offsets[0]] + offsets[1..];
      assert (Entry(offsets[0]) + more)[ENTRY_WIDTH..] == more;
    }
  }

  lemma {:induction false} EntriesFail(offsets: seq<nat>, rest: string, bad: nat)
    requires bad < |offsets| && offsets[bad] >= FIELD_LIMIT
    ensures ReadEntries(Entries(offsets, rest), |offsets|) == None
    decreases |offsets|
  {
    hide ReadEntry, Entry, FIELD_LIMIT;
    var more := Entries(offsets[1..], rest);
    EntryReads(offsets[0], more);
    if offsets[0] < FIELD_LIMIT {
      EntriesFail(offsets[1..], rest, bad - 1);
      assert (Entry(offsets[0]) + more)[ENTRY_WIDTH..] == more;
    }
  }

  lemma FreeReads(rest: string)
    ensures ReadEntry(FREE + rest, 'f') == Some(0) && (FREE + rest)[ENTRY_WIDTH..] == rest
  {
    var s := FREE + rest;
    assert s[..20] == FREE;
    assert s[..10] == FREE[..10] == Zeros(10) + "";
    assert s[11..16] == FREE[11..16] == "65535";
    assert s[18..20] == FREE[18..] == " \n";
    assert s[10] == FREE[10] && s[16] == FREE[16] && s[17] == FREE[17];
    ValueOfPadded(10, "");
  }

  ghost predicate Addressable(bodies: seq<string>) {
    forall i :: 0 <= i < |bodies| ==> Offsets(bodies)[i] < FIELD_LIMIT
  }

  lemma Breaks(rest: string)
    ensures NoDigitFirst("\n" + rest) && NoDigitFirst(ROOT + rest) && NoDigitFirst(DICT_END + rest) && NoDigitFirst(EOF)
    ensures NoDigitFirst(OBJ + rest) && NoDigitFirst(REF_CLOSE + rest) && NoDigitFirst(CONTENTS + rest)
    ensures NoDigitFirst(STREAM + rest) && NoDigitFirst(CLOSE + rest) && NoDigitFirst(REF + rest)
  {}

  lemma XrefHead(bodies: seq<string>)
    ensures var size := |bodies| + 1;
      var entries := Entries(Offsets(bodies), Trailer(size, |Written(bodies, |bodies|)|));
      && ReadAfter(XrefSection(bodies), XREF) == Some((size, "\n" + (FREE + entries)))
      && Expect("\n" + (FREE + entries), "\n") == Some(FREE + entries)
  {
    hide Entries, Offsets, Trailer, Dec, XREF, FREE, ReadAfter, NoDigitFirst, Expect, Written;
    var size := |bodies| + 1;
    var entries := Entries(Offsets(bodies), Trailer(size, |Written(bodies, |bodies|)|));
    Breaks(FREE + entries);
    ReadAfterOf(XREF, size, "\n" + (FREE + entries));
    ExpectOf("\n", FREE + entries);
  }

  lemma TrailerReads(size: nat, start: nat)
    ensures var end := DICT_END + (STARTXREF + (Dec(start) + EOF));
      && ReadAfter(Trailer(size, start), TRAILER) == Some((size, ROOT + (Dec(1) + end)))
      && ReadAfter(ROOT + (Dec(1) + end), ROOT) == Some((1, end))
      && Expect(end, DICT_END) == Some(STARTXREF + (Dec(start) + EOF))
  {
    hide Dec, TRAILER, ROOT, DICT_END, STARTXREF, EOF, ReadAfter, NoDigitFirst, Expect;
    var last := STARTXREF + (Dec(start) + EOF);
    var end := DICT_END + last;
    Breaks(last);
    Breaks(Dec(1) + end);
    ReadAfterOf(TRAILER, size, ROOT + (Dec(1) + end));
    ReadAfterOf(ROOT, 1, end);
    ExpectOf(DICT_END, last);
  }

  /** The table is read back exactly when every offset fits its ten-digit field. */
  lemma XrefReads(bodies: seq<string>)
    ensures ReadXref(XrefSection(bodies)) == if Addressable(bodies) then Some((Offsets(bodies), 1)) else None
  {
    hide Entries, Trailer, XrefSection, Dec, XREF, FREE, ROOT, DICT_END, STARTXREF, EOF, TRAILER, ReadAfter, Expect,
      Written, ReadEntry, ReadEntries, Offset, FIELD_LIMIT;
    var size, start := |bodies| + 1, |Written(bodies, |bodies|)|;
    var trailer := Trailer(size, start);
    var offsets := Offsets(bodies);
    XrefHead(bodies);
    FreeReads(Entries(offsets, trailer));
    TrailerReads(size, start);
    if Addressable(bodies) {
      EntriesRead(offsets, trailer);
    } else {
      var bad :| 0 <= bad < |bodies| && offsets[bad] >= FIELD_LIMIT;
      EntriesFail(offsets, trailer, bad);
    }
  }

  // ---- Reading objects ----

  lemma {:induction false} WrittenPrefix(bodies: seq<string>, j: nat, k: nat)
    requires j <= k <= |bodies|
    ensures Written(bodies, j) <= Written(bodies, k)
    decreases k
  {
    hide Object;
    if j < k { WrittenPrefix(bodies, j, k - 1); }
  }

  /** Every table entry points at its object. */
  lemma OffsetLands(bodies: seq<string>, k: nat)
    requires 1 <= k <= |bodies|
    ensures Offset(bodies, k) <= |Written(bodies, k)| <= |File(bodies)|
    ensures File(bodies)[Offset(bodies, k)..] == Object(k, bodies[k - 1]) + File(bodies)[|Written(bodies, k)|..]
  {
    hide Object, XrefSection;
    WrittenPrefix(bodies, k, |bodies|);
    var file, before, upTo := File(bodies), Written(bodies, k - 1), Written(bodies, k);
    assert upTo == before + Object(k, bodies[k - 1]);
    assert file[..|upTo|] == upTo;
    assert file[|before|..] == Object(k, bodies[k - 1]) + file[|upTo|..];
  }

  lemma ObjectReads(bodies: seq<string>, k: nat) returns (rest: string)
    requires 1 <= k <= |bodies|
    ensures ReadObject(File(bodies), Offsets(bodies), k) == Some(bodies[k - 1] + (ENDOBJ + rest))
  {
    hide File, Offset, Written, Dec, OBJ, ENDOBJ, ReadNat, Expect, NoDigitFirst;
    OffsetLands(bodies, k);
    rest := File(bodies)[|Written(bodies, k)|..];
    var body := bodies[k - 1];
    var content := body + (ENDOBJ + rest);
    Assoc3(Dec(k), OBJ, body, ENDOBJ, rest);
    Breaks(content);
    ReadNatOf(k, OBJ + content);
    ExpectOf(OBJ, content);
  }

  lemma Assoc3(a: string, b: string, c: string, d: string, x: string)
    ensures (a + (b + (c + d))) + x == a + (b + (c + (d + x)))
  {}

  lemma Assoc4(a: string, b: string, c: string, d: string, e: string, x: string)
    ensures (a + (b + (c + (d + e)))) + x == a + (b + (c + (d + (e + x))))
  {}

  lemma Assoc2(a: string, b: string, c: string, x: string)
    ensures (a + (b + c)) + x == a + (b + (c + x))
  {}

  // ---- Page objects and their streams ----

  lemma StreamReads(lines: seq<Line>, rest: string)
    ensures ReadStream(ContentBody(Content(lines)) + (ENDOBJ + rest)) == Some(ShownLines(lines))
  {
    hide Content, Dec, LENGTH, STREAM, ENDSTREAM, ENDOBJ, ReadAfter, Expect, NoDigitFirst, ReadContent, ShownLines;
    var stream := Content(lines);
    var end := ENDOBJ + rest;
    var after := ENDSTREAM + end;
    Assoc4(LENGTH, Dec(|stream|), STREAM, stream, ENDSTREAM, end);
    Breaks(stream + after);
    ReadAfterOf(LENGTH, |stream|, STREAM + (stream + after));
    ExpectOf(STREAM, stream + after);
    assert (stream + after)[|stream|..] == after && (stream + after)[..|stream|] == stream;
    ExpectOf(ENDSTREAM, end);
    ExpectOf(ENDOBJ, rest);
    ContentRoundTrip(lines);
  }

  lemma PageBodyReads(font: nat, content: nat, end: string)
    ensures var r2 := REF_CLOSE + end;
      var r1 := CONTENTS + (Dec(content) + r2);
      && ReadAfter(PageBody(font, content) + end, PAGE) == Some((font, r1))
      && ReadAfter(r1, CONTENTS) == Some((content, r2)) && Expect(r2, REF_CLOSE) == Some(end)
  {
    hide Dec, PAGE, CONTENTS, REF_CLOSE, ReadAfter, Expect, NoDigitFirst;
    var r2 := REF_CLOSE + end;
    Assoc4(PAGE, Dec(font), CONTENTS, Dec(content), REF_CLOSE, end);
    Breaks(Dec(content) + r2);
    Breaks(end);
    ReadAfterOf(PAGE, font, CONTENTS + (Dec(content) + r2));
    ReadAfterOf(CONTENTS, content, r2);
    ExpectOf(REF_CLOSE, end);
  }

  lemma {:induction false} PageObjectsAre(pages: seq<seq<Line>>, font: nat, k: nat, i: nat)
    requires i < k <= |pages|
    ensures PageObjects(pages, font, k)[2 * i] == PageBody(font, 4 + 2 * i)
    ensures PageObjects(pages, font, k)[2 * i + 1] == ContentBody(Content(pages[i]))
    decreases k
  {
    hide PageBody, ContentBody, Content;
    if i < k - 1 { PageObjectsAre(pages, font, k - 1, i); }
  }

  lemma PageReads(pages: seq<seq<Line>>, i: nat)
    requires i < |pages|
    ensures var bodies := Bodies(pages); ReadPage(File(bodies), Offsets(bodies), 3 + i * 2) == Some(ShownLines(pages[i]))
  {
    hide File, Offsets, PageBody, ContentBody, Content, ReadObject, ReadStream, ReadAfter, Expect, PageObjects, Dec,
      CatalogBody, PagesBody, FONT_OBJECT, PAGE, CONTENTS, REF_CLOSE, ENDOBJ, ShownLines;
    var bodies := Bodies(pages);
    var font := FontNumber(|pages|);
    PageObjectsAre(pages, font, |pages|, i);
    assert bodies[2 + 2 * i] == PageBody(font, 4 + 2 * i);
    assert bodies[3 + 2 * i] == ContentBody(Content(pages[i]));
    var rest := ObjectReads(bodies, 3 + i * 2);
    PageBodyReads(font, 4 + 2 * i, ENDOBJ + rest);
    ExpectOf(ENDOBJ, rest);
    var rest2 := ObjectReads(bodies, 4 + 2 * i);
    StreamReads(pages[i], rest2);
  }

  function ShownPages(pages: seq<seq<Line>>): (s: seq<seq<ShownLine>>)
    ensures |s| == |pages|
  {
    seq(|pages|, i requires 0 <= i < |pages| => ShownLines(pages[i]))
  }

  lemma {:induction false} AllPagesRead(pages: seq<seq<Line>>, i: nat)
    requires i <= |pages|
    ensures var bodies := Bodies(pages);
      ReadPages(File(bodies), Offsets(bodies), PageNumbers(|pages|)[i..]) == Some(ShownPages(pages)[i..])
    decreases |pages| - i
  {
    hide Bodies, File, Offsets, ReadPage, ShownLines;
    if i < |pages| {
      var kids := PageNumbers(|pages|);
      assert kids[i..][0] == 3 + i * 2 && kids[i..][1..] == kids[i + 1..];
      PageReads(pages, i);
      AllPagesRead(pages, i + 1);
      assert ShownPages(pages)[i..] == [ShownLines(pages[i])] + ShownPages(pages)[i + 1..];
    } else {
      assert PageNumbers(|pages|)[i..] == [] && ShownPages(pages)[i..] == [];
    }
  }

  // ---- The page tree ----

  lemma {:induction false} RefsRead(kids: seq<nat>, rest: string)
    requires kids != [] && rest != "" && rest[0] != ' '
    ensures ReadRefs(Refs(kids, rest)) == Some((kids, rest))
    decreases |kids|
  {
    hide Dec, REF, ReadNat, Expect, NoDigitFirst;
    var tail := if |kids| == 1 then rest else " " + Refs(kids[1..], rest);
    Breaks(tail);
    ReadNatOf(kids[0], REF + tail);
    ExpectOf(REF, tail);
    if |kids| > 1 {
      RefsRead(kids[1..], rest);
      assert tail[1..] == Refs(kids[1..], rest);
      assert kids == [kids[0]] + kids[1..];
    } else {
      assert kids == [kids[0]];
    }
  }

  lemma {:induction false} RefsAssoc(kids: seq<nat>, rest: string, x: string)
    ensures Refs(kids, rest) + x == Refs(kids, rest + x)
    decreases |kids|
  {
    hide Dec, REF;
    if kids != [] {
      if |kids| == 1 {
        Assoc2(Dec(kids[0]), REF, rest, x);
      } else {
        RefsAssoc(kids[1..], rest, x);
        Assoc3(Dec(kids[0]), REF, " ", Refs(kids[1..], rest), x);
      }
    }
  }

  lemma PagesBodyText(n: nat, end: string)
    ensures PagesBody(n) + end == KIDS + Refs(PageNumbers(n), COUNT + (Dec(n) + (CLOSE + end)))
  {
    hide Dec, KIDS, COUNT, CLOSE, Refs, PageNumbers;
    var refs := Refs(PageNumbers(n), COUNT + (Dec(n) + CLOSE));
    assert (KIDS + refs) + end == KIDS + (refs + end);
    RefsAssoc(PageNumbers(n), COUNT + (Dec(n) + CLOSE), end);
    Assoc2(COUNT, Dec(n), CLOSE, end);
  }

  lemma CountStarts(rest: string)
    ensures COUNT + rest != "" && (COUNT + rest)[0] != ' '
  {}

  lemma PagesBodyReads(n: nat, end: string)
    requires n > 0
    ensures var r5 := CLOSE + end;
      var r4 := COUNT + (Dec(n) + r5);
      var r3 := Refs(PageNumbers(n), r4);
      && Expect(PagesBody(n) + end, KIDS) == Some(r3) && ReadRefs(r3) == Some((PageNumbers(n), r4))
      && ReadAfter(r4, COUNT) == Some((n, r5)) && Expect(r5, CLOSE) == Some(end)
  {
    hide Dec, KIDS, COUNT, CLOSE, Refs, ReadRefs, ReadAfter, Expect, NoDigitFirst, PagesBody;
    var r5 := CLOSE + end;
    var r4 := COUNT + (Dec(n) + r5);
    PagesBodyText(n, end);
    ExpectOf(KIDS, Refs(PageNumbers(n), r4));
    CountStarts(Dec(n) + r5);
    RefsRead(PageNumbers(n), r4);
    Breaks(end);
    ReadAfterOf(COUNT, n, r5);
    ExpectOf(CLOSE, end);
  }

  lemma CatalogReads(end: string)
    ensures var r1 := REF_CLOSE + end;
      ReadAfter(CatalogBody() + end, CATALOG) == Some((2, r1)) && Expect(r1, REF_CLOSE) == Some(end)
  {
    hide Dec, CATALOG, REF_CLOSE, ReadAfter, Expect, NoDigitFirst;
    Assoc2(CATALOG, Dec(2), REF_CLOSE, end);
    Breaks(end);
    ReadAfterOf(CATALOG, 2, REF_CLOSE + end);
    ExpectOf(REF_CLOSE, end);
  }

  lemma TreeReads(pages: seq<seq<Line>>)
    requires pages != []
    ensures var bodies := Bodies(pages); ReadTree(File(bodies), Offsets(bodies), 1) == Some(ShownPages(pages))
  {
    hide File, Offsets, PageObjects, CatalogBody, PagesBody, FONT_OBJECT, ReadObject, ReadAfter, Expect, ReadRefs, ReadPages,
      Refs, Dec, CATALOG, REF_CLOSE, ENDOBJ, KIDS, COUNT, CLOSE;
    var bodies := Bodies(pages);
    var rest := ObjectReads(bodies, 1);
    assert bodies[0] == CatalogBody() && bodies[1] == PagesBody(|pages|);
    CatalogReads(ENDOBJ + rest);
    ExpectOf(ENDOBJ, rest);
    var rest2 := ObjectReads(bodies, 2);
    PagesBodyReads(|pages|, ENDOBJ + rest2);
    ExpectOf(ENDOBJ, rest2);
    AllPagesRead(pages, 0);
    assert PageNumbers(|pages|)[0..] == PageNumbers(|pages|) && ShownPages(pages)[0..] == ShownPages(pages);
  }

  // ---- The round trip ----

  lemma XrefLands(bodies: seq<string>)
    ensures var start := |Written(bodies, |bodies|)|;
      start <= |File(bodies)| && File(bodies)[start..] == XrefSection(bodies)
  {
    hide Written, XrefSection;
  }

  /** Everything before the last `startxref`. */
  lemma {:induction false} TableSplit(offsets: seq<nat>, a: string, b: string)
    ensures Entries(offsets, a + b) == Entries(offsets, a) + b
    decreases |offsets|
  {
    hide Entry;
    if offsets != [] {
      TableSplit(offsets[1..], a, b);
      assert Entry(offsets[0]) + (Entries(offsets[1..], a) + b) == (Entry(offsets[0]) + Entries(offsets[1..], a)) + b;
    }
  }

  lemma EndSplit(bodies: seq<string>)
    ensures var start := |Written(bodies, |bodies|)|;
      exists before :: File(bodies) == before + (STARTXREF + (Dec(start) + EOF))
  {
    hide Written, Entries, Offsets, Dec, XREF, FREE, TRAILER, ROOT, DICT_END, STARTXREF, EOF;
    var size, start := |bodies| + 1, |Written(bodies, |bodies|)|;
    var last := STARTXREF + (Dec(start) + EOF);
    var dict := TRAILER + (Dec(size) + (ROOT + (Dec(1) + DICT_END)));
    Assoc4(TRAILER, Dec(size), ROOT, Dec(1), DICT_END, last);
    TableSplit(Offsets(bodies), dict, last);
    var table := Entries(Offsets(bodies), dict);
    Assoc4(XREF, Dec(size), "\n", FREE, table, last);
    var section := XREF + (Dec(size) + ("\n" + (FREE + table)));
    assert Written(bodies, |bodies|) + (section + last) == (Written(bodies, |bodies|) + section) + last;
  }

  /** The pages come back, line for line, exactly when every object offset fits its ten-digit field. */
  lemma FileRoundTrip(pages: seq<seq<Line>>)
    requires pages != []
    ensures ReadPdf(File(Bodies(pages))) == if Addressable(Bodies(pages)) then Some(ShownPages(pages)) else None
  {
    hide File, Bodies, Offsets, Written, XrefSection, ReadXref, ReadTree, ReadAfter, Expect, Dec, STARTXREF, EOF, FindLast,
      NoDigitFirst, ShownPages;
    var bodies := Bodies(pages);
    var start := |Written(bodies, |bodies|)|;
    EndSplit(bodies);
    var before :| File(bodies) == before + (STARTXREF + (Dec(start) + EOF));
    StartFound(before, start);
    Breaks("");
    ReadAfterOf(STARTXREF, start, EOF);
    ExpectOf(EOF, "");
    assert EOF + "" == EOF;
    XrefLands(bodies);
    XrefReads(bodies);
    TreeReads(pages);
  }

  lemma OffsetsGrow(bodies: seq<string>, j: nat, k: nat)
    requires 1 <= j <= k <= |bodies|
    ensures Offset(bodies, j) <= Offset(bodies, k)
  {
    WrittenPrefix(bodies, j - 1, k - 1);
  }

  /** Rendering and reading gives the flattened lines page by page iff the font object's offset is below 10^10. */
  lemma RenderRoundTrip(doc: Document)
    ensures var pages := Pages(Items(doc));
      var bodies := Bodies(pages);
      ReadPdf(Render(doc)) ==
        if Offset(bodies, |bodies|) < FIELD_LIMIT then Some(ShownPages(pages)) else None
  {
    hide File, Bodies, Offset, ReadPdf, ShownPages, Pages, Items, FIELD_LIMIT;
    var pages := Pages(Items(doc));
    var bodies := Bodies(pages);
    PagesHold(Items(doc));
    FileRoundTrip(pages);
    forall i | 0 <= i < |bodies|
      ensures Offsets(bodies)[i] <= Offset(bodies, |bodies|)
    {
      OffsetsGrow(bodies, i + 1, |bodies|);
    }
    assert Offsets(bodies)[|bodies| - 1] == Offset(bodies, |bodies|);
  }
}
