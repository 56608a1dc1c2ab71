// The PDF file writer: numbered objects, the cross-reference table and the trailer
// (ISO 32000-1 sections 7.3.8, 7.5.4 and 7.5.5).
module PdfFile {
  import opened Decimal
  import opened Document
  import opened PdfPages
  import opened PdfText

  const HEADER := "%PDF-1.7\n%\U{E2}\U{E3}\U{CF}\U{D3}\n"
  const OBJ := " 0 obj\n"
  const ENDOBJ := "\nendobj\n"
  const CATALOG := "<< /Type /Catalog /Pages "
  const REF_CLOSE := " 0 R >>"
  const REF := " 0 R"
  const KIDS := "<< /Type /Pages /Kids ["
  const COUNT := "] /Count "
  const CLOSE := " >>"
  const PAGE_OPEN := "<< /Type /Page /Parent 2 0 R"
  const MEDIA_BOX := " /MediaBox [0 0 612 792]"
  const RESOURCES := " /Resources << /Font << /F1 "
  const PAGE := PAGE_OPEN + MEDIA_BOX + RESOURCES
  const CONTENTS := " 0 R >> >> /Contents "
  const LENGTH := "<< /Length "
  const STREAM := " >>\nstream\n"
  const ENDSTREAM := "\nendstream"
  const FONT_OPEN := "<< /Type /Font /Subtype /Type1"
  const BASE_FONT := " /BaseFont /Helvetica"
  const ENCODING := " /Encoding /WinAnsiEncoding >>"
  const FONT_OBJECT := FONT_OPEN + BASE_FONT + ENCODING
  const XREF := "xref\n0 "
  const FREE := "0000000000 65535 f \n"
  const IN_USE := " 00000 n \n"
  const TRAILER := "trailer\n<< /Size "
  const ROOT := " /Root "
  const DICT_END := " 0 R >>\n"
  const STARTXREF := "startxref\n"
  const EOF := "\n%%EOF\n"

  // ---- Objects ----

  function CatalogBody(): string { CATALOG + (Dec(2) + REF_CLOSE) }

  /** `1 0 R 2 0 R …`: the references from `kids`, single spaces between. */
  function Refs(kids: seq<nat>, rest: string): string {
    if kids == [] then rest
    else Dec(kids[0]) + (REF + if |kids| == 1 then rest else " " + Refs(kids[1..], rest))
  }

  /** The object numbers of the pages. */
  function PageNumbers(n: nat): seq<nat> {
    seq(n, i => 3 + i * 2)
  }

  function PagesBody(n: nat): string { KIDS + Refs(PageNumbers(n), COUNT + (Dec(n) + CLOSE)) }

  function PageBody(font: nat, content: nat): string {
    PAGE + (Dec(font) + (CONTENTS + (Dec(content) + REF_CLOSE)))
  }

  function ContentBody(stream: string): string {
    LENGTH + (Dec(|stream|) + (STREAM + (stream + ENDSTREAM)))
  }

  /** The objects of the first `k` pages: a page object and its content stream each. */
  function PageObjects(pages: seq<seq<Line>>, font: nat, k: nat): (s: seq<string>)
    requires k <= |pages|
    ensures |s| == 2 * k
  {
    if k == 0 then []
    else PageObjects(pages, font, k - 1) + [PageBody(font, 2 + 2 * k), ContentBody(Content(pages[k - 1]))]
  }

  function FontNumber(n: nat): nat { 3 + n * 2 }

  /** The object bodies; the object numbered `k` is at index `k - 1`. */
  function Bodies(pages: seq<seq<Line>>): (s: seq<string>)
    ensures |s| == FontNumber(|pages|)
  {
    [CatalogBody(), PagesBody(|pages|)] + PageObjects(pages, FontNumber(|pages|), |pages|) + [FONT_OBJECT]
  }

  // ---- The file ----

  function Object(num: nat, body: string): string {
    Dec(num) + (OBJ + (body + ENDOBJ))
  }

  /** The file up to the end of object `k`. */
  function Written(bodies: seq<string>, k: nat): string
    requires k <= |bodies|
  {
    if k == 0 then HEADER else Written(bodies, k - 1) + Object(k, bodies[k - 1])
  }

  /** Where object `k` starts. */
  function Offset(bodies: seq<string>, k: nat): nat
    requires 1 <= k <= |bodies|
  {
    |Written(bodies, k - 1)|
  }

  function Offsets(bodies: seq<string>): seq<nat> {
    seq(|bodies|, i requires 0 <= i < |bodies| => Offset(bodies, i + 1))
  }

  /** One line of the cross-reference table. */
  function Entry(offset: nat): string { Padded(offset, 10) + IN_USE }

  function Entries(offsets: seq<nat>, rest: string): string {
    if offsets == [] then rest else Entry(offsets[0]) + Entries(offsets[1..], rest)
  }

  function Trailer(size: nat, start: nat): string {
    TRAILER + (Dec(size) + (ROOT + (Dec(1) + (DICT_END + (STARTXREF + (Dec(start) + EOF))))))
  }

  function XrefSection(bodies: seq<string>): string {
    var size := |bodies| + 1;
    XREF + (Dec(size) + ("\n" + (FREE + Entries(Offsets(bodies), Trailer(size, |Written(bodies, |bodies|)|)))))
  }

  function File(bodies: seq<string>): string {
    Written(bodies, |bodies|) + XrefSection(bodies)
  }

  /** The whole of `render_bytes`. */
  function Render(doc: Document): string { File(Bodies(Pages(Items(doc)))) }

  // ---- The writer ----

  lemma Split3(a: string, b: string, c: string, d: string, e: string)
    ensures a + (b + (c + (d + e))) == a + b + c + d + e
  {}

  /** The numbered objects, in order of their numbers. */
  ghost predicate InOrder(objects: seq<(nat, string)>, bodies: seq<string>) {
    && |objects| <= |bodies|
    && forall k :: 0 <= k < |objects| ==> objects[k] == (k + 1, bodies[k])
  }

  /** Builds the object list. The numbers ascend, so the source's stable sort by number leaves it as it is. */
  method BuildObjects(pages: seq<seq<Line>>) returns (objects: seq<(nat, string)>)
    ensures InOrder(objects, Bodies(pages)) && |objects| == FontNumber(|pages|)
  {
    hide PagesBody, PageBody, ContentBody, Content, Dec;
    var fontObj := 3 + |pages| * 2;
    objects := [(1, "<< /Type /Catalog /Pages 2 0 R >>")];
    CatalogText();
    objects := objects + [(2, PagesBody(|pages|))];
    for i := 0 to |pages|
      invariant |objects| == 2 + 2 * i
      invariant objects[0] == (1, CatalogBody()) && objects[1] == (2, PagesBody(|pages|))
      invariant forall k :: 2 <= k < |objects| ==> objects[k] == (k + 1, PageObjects(pages, fontObj, i)[k - 2])
    {
      var pageObj := 3 + i * 2;
      var contentObj := pageObj + 1;
      objects := objects + [(pageObj, PageBody(fontObj, contentObj))];
      var stream := ContentStream(pages[i]);
      objects := objects + [(contentObj, ContentBody(stream))];
    }
    objects := objects + [(fontObj, FONT_OBJECT)];
  }

  lemma CatalogText()
    ensures "<< /Type /Catalog /Pages 2 0 R >>" == CatalogBody()
  {
    assert Dec(2) == "2";
  }

  /** Serializes the objects, noting where each starts. */
  method WriteObjects(objects: seq<(nat, string)>, ghost bodies: seq<string>) returns (out: string, offsets: seq<nat>)
    requires InOrder(objects, bodies) && |objects| == |bodies|
    ensures out == Written(bodies, |bodies|)
    ensures |offsets| == |bodies| + 1 && offsets[1..] == Offsets(bodies)
  {
    hide Object, HEADER, OBJ, ENDOBJ, Dec;
    out := HEADER;
    var table := new nat[|objects| + 1](_ => 0);
    for k := 0 to |objects|
      invariant out == Written(bodies, k)
      invariant forall j :: 1 <= j <= k ==> table[j] == Offset(bodies, j)
    {
      var (num, body) := objects[k];
      table[num] := |out|;
      ObjectText(out, num, body);
      out := out + Dec(num) + OBJ;
      out := out + body;
      out := out + ENDOBJ;
    }
    offsets := table[..];
  }

  lemma ObjectText(out: string, num: nat, body: string)
    ensures out + Object(num, body) == out + Dec(num) + OBJ + body + ENDOBJ
  {}

  method WriteTable(offsets: seq<nat>, out0: string, ghost rest: string) returns (out: string)
    ensures out + rest == out0 + Entries(offsets, rest)
  {
    hide Entry;
    out := out0;
    for i := 0 to |offsets|
      invariant out + Entries(offsets[i..], rest) == out0 + Entries(offsets, rest)
    {
      assert offsets[i..][0] == offsets[i] && offsets[i..][1..] == offsets[i + 1..];
      TableStep(out, offsets[i], Entries(offsets[i + 1..], rest));
      out := out + Entry(offsets[i]);
    }
    assert offsets[|offsets|..] == [];
  }

  lemma TableStep(out: string, offset: nat, rest: string)
    ensures out + (Entry(offset) + rest) == out + Entry(offset) + rest
  {}

  /** `PdfRenderer::render_bytes`. */
  method RenderBytes(doc: Document) returns (out: string)
    ensures out == Render(doc)
  {
    hide Items, Pages, Bodies, Written, Offsets, Entries, Dec, TRAILER, XREF, FREE, DICT_END, STARTXREF, EOF, ROOT;
    var flat := Flatten(doc);
    var pages := Paginate(flat);
    var objects := BuildObjects(pages);
    ghost var bodies := Bodies(pages);
    var offsets: seq<nat>;
    out, offsets := WriteObjects(objects, bodies);
    var maxObj := 3 + |pages| * 2;
    var xrefStart := |out|;
    ghost var before := out;
    ghost var trailer := Trailer(maxObj + 1, xrefStart);
    out := out + XREF + Dec(maxObj + 1) + "\n";
    out := out + FREE;
    Split3(before, XREF, Dec(maxObj + 1), "\n", FREE + Entries(Offsets(bodies), trailer));
    ghost var start := out;
    out := WriteTable(offsets[1..maxObj + 1], out, trailer);
    assert offsets[1..maxObj + 1] == offsets[1..];
    out := out + Trailer(maxObj + 1, xrefStart);
  }
}
