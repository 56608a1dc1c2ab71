// Markdown: rendering a document, and structuring text into a document.
module Markdown {
  import opened Ascii
  import opened Decimal
  import opened Document
  import opened Options
  import opened Text

  // ---- Rendering ----

  function Hashes(n: nat): (s: string)
    ensures |s| == n && forall i :: 0 <= i < n ==> s[i] == '#'
  {
    seq(n, _ => '#')
  }

  function BulletText(item: string): string { "- " + item }

  function NumberText(i: nat, item: string): string { Dec(i + 1) + ". " + item }

  function BulletTexts(items: seq<string>): seq<string> {
    seq(|items|, i requires 0 <= i < |items| => BulletText(items[i]))
  }

  function NumberTexts(items: seq<string>): seq<string> {
    seq(|items|, i requires 0 <= i < |items| => NumberText(i, items[i]))
  }

  function RowTexts(rows: seq<seq<string>>): seq<string> {
    seq(|rows|, i requires 0 <= i < |rows| => "| " + Join(rows[i], " | ") + " |")
  }

  function HeaderRow(headers: seq<string>): string { "| " + Join(headers, " | ") + " |\n" }

  function RuleRow(headers: seq<string>): string { "|" + Join(seq(|headers|, _ => "---"), "|") + "|\n" }

  /** Each line and a line feed. */
  function Unlines(lines: seq<string>): string {
    if lines == [] then "" else Unlines(lines[..|lines| - 1]) + lines[|lines| - 1] + "\n"
  }

  function BlockText(b: Block): string {
    match b
    case Heading(level, text) => Hashes(ClampLevel(level)) + " " + text + "\n\n"
    case Paragraph(text) => text + "\n\n"
    case BulletList(items) => Unlines(BulletTexts(items)) + "\n"
    case NumberedList(items) => Unlines(NumberTexts(items)) + "\n"
    case Table(headers, rows) => HeaderRow(headers) + RuleRow(headers) + Unlines(RowTexts(rows)) + "\n"
    case Code(language, code) => "```" + language + "\n" + code + "\n```\n\n"
    case PageBreak => "---\n\n"
  }

  function BlockTexts(blocks: seq<Block>): string {
    if blocks == [] then "" else BlockTexts(blocks[..|blocks| - 1]) + BlockText(blocks[|blocks| - 1])
  }

  function Rendered(doc: Document): string {
    TrimEnd((if doc.title != "" then "# " + doc.title + "\n\n" else "") + BlockTexts(doc.blocks))
  }

  method PushLines(lines: seq<string>, out0: string) returns (out: string)
    ensures out == out0 + Unlines(lines)
  {
    out := out0;
    for i := 0 to |lines|
      invariant out == out0 + Unlines(lines[..i])
    {
      assert lines[..i + 1][..i] == lines[..i];
      out := out + lines[i] + "\n";
    }
    assert lines[..|lines|] == lines;
  }

  method PushBlock(b: Block, out0: string) returns (out: string)
    ensures out == out0 + BlockText(b)
  {
    hide Unlines, HeaderRow, RuleRow, RowTexts;
    out := out0;
    match b
    case Heading(level, text) => out := out + (Hashes(ClampLevel(level)) + " " + text + "\n\n");
    case Paragraph(text) => out := out + (text + "\n\n");
    case BulletList(items) =>
      out := PushLines(BulletTexts(items), out);
      out := out + "\n";
    case NumberedList(items) =>
      out := PushLines(NumberTexts(items), out);
      out := out + "\n";
    case Table(headers, rows) =>
      out := out + HeaderRow(headers);
      out := out + RuleRow(headers);
      out := PushLines(RowTexts(rows), out);
      out := out + "\n";
      Regroup(out0, HeaderRow(headers), RuleRow(headers), Unlines(RowTexts(rows)));
    case Code(language, code) => out := out + ("```" + language + "\n" + code + "\n```\n\n");
    case PageBreak => out := out + "---\n\n";
  }

  lemma Regroup(out: string, a: string, b: string, c: string)
    ensures out + (a + b + c + "\n") == out + a + b + c + "\n"
  {}

  /** `MarkdownRenderer::render`. */
  method Render(doc: Document) returns (out: string)
    ensures out == Rendered(doc)
  {
    hide BlockText, TrimEnd;
    out := "";
    if doc.title != "" {
      out := out + ("# " + doc.title + "\n\n");
    }
    ghost var titled := out;
    assert titled == if doc.title != "" then "# " + doc.title + "\n\n" else "";
    for i := 0 to |doc.blocks|
      invariant out == titled + BlockTexts(doc.blocks[..i])
    {
      assert doc.blocks[..i + 1][..i] == doc.blocks[..i];
      out := PushBlock(doc.blocks[i], out);
    }
    assert doc.blocks[..|doc.blocks|] == doc.blocks;
    out := TrimEnd(out);
  }

  // ---- Structuring text ----

  const GAP := "\n\n"

  /** `split("\n\n")`. */
  function Split(s: string): seq<string>
    decreases |s|
  {
    var k := Find(s, GAP, 0);
    if k == -1 then [s] else [s[..k]] + Split(s[k + 2..])
  }

  /** The lines of a paragraph, trimmed, blank ones dropped. */
  function CleanLines(lines: seq<string>): seq<string> {
    if lines == [] then []
    else (if Trim(lines[0]) == "" then [] else [Trim(lines[0])]) + CleanLines(lines[1..])
  }

  /** The leading `#` characters. */
  function HashCount(s: string): (n: nat)
    ensures n <= |s| && (forall i :: 0 <= i < n ==> s[i] == '#') && (n < |s| ==> s[n] != '#')
  {
    if s == "" || s[0] != '#' then 0 else 1 + HashCount(s[1..])
  }

  /** The heading a line stands for; the level is counted in one byte, which wraps. */
  function HeadingOf(line: string): Option<Block> {
    var n := HashCount(line);
    var rest := line[n..];
    if n > 0 && n % 256 <= 6 && " " <= rest then Some(Heading(n % 256, Trim(rest))) else None
  }

  function BulletItem(line: string): Option<string> {
    if "- " <= line || "* " <= line then Some(line[2..]) else None
  }

  function NumberItem(line: string): Option<string> {
    var k := RunEnd(line, 0, IsDigit);
    if k > 0 && (". " <= line[k..] || ") " <= line[k..]) then Some(line[k..][2..]) else None
  }

  /** `filter_map`. */
  function FilterMap(lines: seq<string>, f: string -> Option<string>): seq<string> {
    if lines == [] then []
    else (if f(lines[0]).Some? then [f(lines[0]).value] else []) + FilterMap(lines[1..], f)
  }

  /** The block a paragraph becomes, if it is not blank. */
  function BlockOf(para: string): Option<Block> {
    var lines := CleanLines(SplitLines(Trim(para)));
    if lines == [] then None
    else if |lines| == 1 && HeadingOf(lines[0]).Some? then HeadingOf(lines[0])
    else
      var bulleted, numbered := FilterMap(lines, BulletItem), FilterMap(lines, NumberItem);
      if |bulleted| == |lines| then Some(BulletList(bulleted))
      else if |numbered| == |lines| then Some(NumberedList(numbered))
      else Some(Paragraph(Join(lines, " ")))
  }

  function BlocksOf(paras: seq<string>): seq<Block> {
    if paras == [] then []
    else
      BlocksOf(paras[..|paras| - 1]) + match BlockOf(paras[|paras| - 1]) case None => [] case Some(b) => [b]
  }

  function Structured(title: string, body: string): Document {
    Document(title, BlocksOf(Split(body)))
  }

  /** The loop that counts the hashes. */
  method ReadHeading(line: string) returns (h: Option<Block>)
    ensures h == HeadingOf(line)
  {
    hide HeadingOf, Trim;
    if line == "" || line[0] != '#' {
      NoHeading(line);
      return None;
    }
    var level, rest := 1, line[1..];
    ghost var n := 1;
    while rest != "" && rest[0] == '#'
      invariant 1 <= n <= |line| && rest == line[n..] && level == n % 256
      invariant forall i :: 0 <= i < n ==> line[i] == '#'
      decreases |rest|
    {
      level := (level + 1) % 256;
      rest := rest[1..];
      n := n + 1;
    }
    HeadingIs(line, n);
    if level <= 6 && " " <= rest {
      return Some(Heading(level, Trim(rest)));
    }
    return None;
  }

  lemma NoHeading(line: string)
    requires line == "" || line[0] != '#'
    ensures HeadingOf(line).None?
  {}

  lemma HeadingIs(line: string, n: nat)
    requires 0 < n <= |line| && (forall i :: 0 <= i < n ==> line[i] == '#') && (n < |line| ==> line[n] != '#')
    ensures HeadingOf(line) == if n % 256 <= 6 && " " <= line[n..] then Some(Heading(n % 256, Trim(line[n..]))) else None
  {
    hide HashCount, Trim;
    HashCountIs(line, n);
  }

  /** The documented rule: one to six hashes and a space. */
  function DocumentedHeading(line: string): Option<Block> {
    var n := HashCount(line);
    if 1 <= n <= 6 && " " <= line[n..] then Some(Heading(n, Trim(line[n..]))) else None
  }

  /** The code departs from the documented rule exactly when a wrapped count lands in 0 to 6 and a space follows. */
  lemma DocumentedHeadingIff(line: string)
    ensures HeadingOf(line) == DocumentedHeading(line) <==>
      !(HashCount(line) >= 256 && HashCount(line) % 256 <= 6 && " " <= line[HashCount(line)..])
  {
    hide HashCount, Trim;
    SmallModulo(HashCount(line));
  }

  lemma SmallModulo(n: nat)
    ensures n % 256 == n <==> n < 256
    ensures 0 <= n % 256
  {}

  lemma {:induction false} HashCountIs(s: string, n: nat)
    requires n <= |s| && (forall i :: 0 <= i < n ==> s[i] == '#') && (n < |s| ==> s[n] != '#')
    ensures HashCount(s) == n
  {
    if n > 0 { HashCountIs(s[1..], n - 1); }
  }

  /** What the loop makes of one paragraph. */
  method ReadParagraph(text: string) returns (block: Option<Block>)
    ensures block == BlockOf(text)
  {
    hide HeadingOf, CleanLines, SplitLines, FilterMap, Join, Trim, BulletItem, NumberItem;
    var para := Trim(text);
    var lines := CleanLines(SplitLines(para));
    if lines == [] {
      return None;
    }
    if |lines| == 1 {
      var heading := ReadHeading(lines[0]);
      if heading.Some? {
        return heading;
      }
    }
    var bulleted := FilterMap(lines, BulletItem);
    if |bulleted| == |lines| {
      return Some(BulletList(bulleted));
    }
    var numbered := FilterMap(lines, NumberItem);
    if |numbered| == |lines| {
      return Some(NumberedList(numbered));
    }
    block := Some(Paragraph(Join(lines, " ")));
  }

  /** `Document::from_text`. */
  method FromText(title: string, body: string) returns (doc: Document)
    ensures doc == Structured(title, body)
  {
    hide BlockOf, Split;
    var blocks: seq<Block> := [];
    var paras := Split(body);
    for i := 0 to |paras|
      invariant blocks == BlocksOf(paras[..i])
    {
      assert paras[..i + 1][..i] == paras[..i];
      var block := ReadParagraph(paras[i]);
      if block.None? {
        continue;
      }
      blocks := blocks + [block.value];
    }
    assert paras[..|paras|] == paras;
    doc := Document(title, blocks);
  }
}
