// Every character of a rendered file is one byte, so lengths and offsets counted in characters are counted in bytes.
module PdfBytes {
  import opened Decimal
  import opened Document
  import opened PdfPages
  import opened PdfText
  import opened PdfFile

  predicate Bytes(s: string) {
    forall i :: 0 <= i < |s| ==> s[i] < 256 as char
  }

  ghost predicate AllBytes(parts: seq<string>) {
    forall i :: 0 <= i < |parts| ==> Bytes(parts[i])
  }

  lemma Append(a: string, b: string)
    requires Bytes(a) && Bytes(b)
    ensures Bytes(a + b)
  {}

  lemma NumeralIsBytes(s: string)
    requires AllDigits(s)
    ensures Bytes(s)
  {}

  lemma DecThen(n: nat, rest: string)
    requires Bytes(rest)
    ensures Bytes(Dec(n) + rest)
  {
    NumeralIsBytes(Dec(n));
  }

  // ---- Content streams ----

  lemma {:induction false} EscIsBytes(s: string)
    ensures Bytes(Esc(s))
  {
    if s != "" { EscIsBytes(s[1..]); }
  }

  lemma LineIsBytes(l: Line, rest: string)
    requires Bytes(rest)
    ensures Bytes(LineOps(l, rest))
  {
    hide Esc;
    EscIsBytes(l.text);
    Append(Esc(l.text), ")" + NEXT + rest);
    DecThen(Size(l), SHOW + (Esc(l.text) + (")" + (NEXT + rest))));
  }

  lemma {:induction false} OpsAreBytes(lines: seq<Line>)
    ensures Bytes(Ops(lines))
  {
    hide LineOps;
    if lines != [] {
      OpsAreBytes(lines[1..]);
      LineIsBytes(lines[0], Ops(lines[1..]));
    }
  }

  // ---- Objects ----

  lemma {:induction false} RefsAreBytes(kids: seq<nat>, rest: string)
    requires Bytes(rest)
    ensures Bytes(Refs(kids, rest))
  {
    if kids != [] {
      if |kids| == 1 {
        DecThen(kids[0], REF + rest);
      } else {
        RefsAreBytes(kids[1..], rest);
        DecThen(kids[0], REF + (" " + Refs(kids[1..], rest)));
      }
    }
  }

  lemma CatalogIsBytes()
    ensures Bytes(CatalogBody())
  {
    DecThen(2, REF_CLOSE);
  }

  lemma PagesBodyIsBytes(n: nat)
    ensures Bytes(PagesBody(n))
  {
    DecThen(n, CLOSE);
    RefsAreBytes(PageNumbers(n), COUNT + (Dec(n) + CLOSE));
  }

  lemma PageBodyIsBytes(font: nat, content: nat)
    ensures Bytes(PageBody(font, content))
  {
    hide PAGE;
    PageIsBytes();
    DecThen(content, REF_CLOSE);
    DecThen(font, CONTENTS + (Dec(content) + REF_CLOSE));
    Append(PAGE, Dec(font) + (CONTENTS + (Dec(content) + REF_CLOSE)));
  }

  lemma PageIsBytes()
    ensures Bytes(PAGE)
  {
    Append(PAGE_OPEN, MEDIA_BOX);
    Append(PAGE_OPEN + MEDIA_BOX, RESOURCES);
  }

  lemma ContentBodyIsBytes(lines: seq<Line>)
    ensures Bytes(ContentBody(Content(lines)))
  {
    hide Ops;
    OpsAreBytes(lines);
    var stream := Content(lines);
    DecThen(|stream|, STREAM + (stream + ENDSTREAM));
  }

  lemma {:induction false} PageObjectsAreBytes(pages: seq<seq<Line>>, font: nat, k: nat)
    requires k <= |pages|
    ensures AllBytes(PageObjects(pages, font, k))
  {
    hide PageBody, ContentBody, Content, Bytes;
    if k > 0 {
      PageObjectsAreBytes(pages, font, k - 1);
      PageBodyIsBytes(font, 2 + 2 * k);
      ContentBodyIsBytes(pages[k - 1]);
    }
  }

  lemma FontIsBytes()
    ensures Bytes(FONT_OBJECT)
  {
    Append(FONT_OPEN, BASE_FONT);
    Append(FONT_OPEN + BASE_FONT, ENCODING);
  }

  lemma BodiesAreBytes(pages: seq<seq<Line>>)
    ensures AllBytes(Bodies(pages))
  {
    hide PagesBody, PageObjects, CatalogBody, FONT_OBJECT, Bytes;
    CatalogIsBytes();
    PagesBodyIsBytes(|pages|);
    PageObjectsAreBytes(pages, FontNumber(|pages|), |pages|);
    FontIsBytes();
  }

  // ---- The file ----

  lemma ObjectIsBytes(num: nat, body: string)
    requires Bytes(body)
    ensures Bytes(Object(num, body))
  {
    DecThen(num, OBJ + (body + ENDOBJ));
  }

  lemma {:induction false} WrittenIsBytes(bodies: seq<string>, k: nat)
    requires k <= |bodies| && AllBytes(bodies)
    ensures Bytes(Written(bodies, k))
  {
    hide Object;
    if k > 0 {
      WrittenIsBytes(bodies, k - 1);
      ObjectIsBytes(k, bodies[k - 1]);
    }
  }

  lemma {:induction false} EntriesAreBytes(offsets: seq<nat>, rest: string)
    requires Bytes(rest)
    ensures Bytes(Entries(offsets, rest))
  {
    if offsets != [] {
      EntriesAreBytes(offsets[1..], rest);
      NumeralIsBytes(Padded(offsets[0], 10));
    }
  }

  lemma TrailerIsBytes(size: nat, start: nat)
    ensures Bytes(Trailer(size, start))
  {
    DecThen(start, EOF);
    DecThen(1, DICT_END + (STARTXREF + (Dec(start) + EOF)));
    DecThen(size, ROOT + (Dec(1) + (DICT_END + (STARTXREF + (Dec(start) + EOF)))));
  }

  lemma XrefIsBytes(bodies: seq<string>)
    ensures Bytes(XrefSection(bodies))
  {
    hide Trailer, Entries, Offsets, Written;
    var size := |bodies| + 1;
    var trailer := Trailer(size, |Written(bodies, |bodies|)|);
    TrailerIsBytes(size, |Written(bodies, |bodies|)|);
    EntriesAreBytes(Offsets(bodies), trailer);
    DecThen(size, "\n" + (FREE + Entries(Offsets(bodies), trailer)));
  }

  /** A rendered document is a string of bytes, whatever characters its text has. */
  lemma RenderIsBytes(doc: Document)
    ensures Bytes(Render(doc))
  {
    hide Bodies, Written, XrefSection, Bytes;
    var bodies := Bodies(Pages(Items(doc)));
    BodiesAreBytes(Pages(Items(doc)));
    WrittenIsBytes(bodies, |bodies|);
    XrefIsBytes(bodies);
    Append(Written(bodies, |bodies|), XrefSection(bodies));
  }
}
