// PDF text: literal strings (ISO 32000-1 section 7.3.4.2) and page content streams. A byte is a
// character below 256.
module PdfText {
  import opened Decimal
  import opened Options
  import opened PdfPages

  // ---- Escaping ----

  /** `is_representable`: the character has a WinAnsi byte of its own. */
  predicate Representable(c: char) {
    || c in "()\\"
    || ' ' <= c <= '~'
    || 0xA0 as char <= c <= 0xFF as char
  }

  function EscChar(c: char): string {
    if c == '(' then "\\("
    else if c == ')' then "\\)"
    else if c == '\\' then "\\\\"
    else if Representable(c) then [c]
    else " "
  }

  function Esc(s: string): string {
    if s == "" then "" else EscChar(s[0]) + Esc(s[1..])
  }

  /** What a reader of the document sees of a character. */
  function Shown(c: char): char { if Representable(c) then c else ' ' }

  function Visible(s: string): string {
    if s == "" then "" else [Shown(s[0])] + Visible(s[1..])
  }

  /** `esc`. */
  method Escape(s: string) returns (out: string)
    ensures out == Esc(s)
  {
    hide Esc, Representable;
    NothingEscaped();
    out := "";
    for i := 0 to |s|
      invariant out + Esc(s[i..]) == Esc(s)
    {
      var c := s[i];
      EscFirst(s, i);
      ghost var before := out;
      if c == '(' {
        out := out + "\\(";
      } else if c == ')' {
        out := out + "\\)";
      } else if c == '\\' {
        out := out + "\\\\";
      } else if Representable(c) {
        out := out + [c];
      } else {
        out := out + " ";
      }
      assert out == before + EscChar(c);
    }
    assert s[0..] == s && s[|s|..] == "";
  }

  lemma NothingEscaped()
    ensures Esc("") == ""
  {}

  lemma EscFirst(s: string, i: nat)
    requires i < |s|
    ensures Esc(s[i..]) == EscChar(s[i]) + Esc(s[i + 1..])
  {
    assert s[i..][1..] == s[i + 1..];
  }

  // ---- Reading a literal string ----

  predicate IsOctal(c: char) { '0' <= c <= '7' }

  function OctalLength(s: string, most: nat): (n: nat)
    ensures n <= |s| && n <= most && forall i :: 0 <= i < n ==> IsOctal(s[i])
  {
    if most == 0 || s == "" || !IsOctal(s[0]) then 0 else 1 + OctalLength(s[1..], most - 1)
  }

  function OctalValue(s: string): nat
    requires forall i :: 0 <= i < |s| ==> IsOctal(s[i])
  {
    if s == "" then 0
    else
      var last := s[|s| - 1];
      assert IsOctal(last);
      8 * OctalValue(s[..|s| - 1]) + (last as int - '0' as int)
  }

  /** The text of the escape sequence after a backslash, and how many bytes it takes. */
  function Unescape(s: string): (r: (string, nat))
    requires s != ""
    ensures r.1 <= |s|
  {
    var c := s[0];
    if c == 'n' then ("\n", 1)
    else if c == 'r' then ("\r", 1)
    else if c == 't' then ("\t", 1)
    else if c == 'b' then ([8 as char], 1)
    else if c == 'f' then ([12 as char], 1)
    else if c in "()\\" then ([c], 1)
    else if c == '\r' && |s| > 1 && s[1] == '\n' then ("", 2)
    else if c == '\r' || c == '\n' then ("", 1)
    else if IsOctal(c) then
      var n := OctalLength(s, 3);
      ([(OctalValue(s[..n]) % 256) as char], n)
    else ("", 0)
  }

  /** The string whose opening parenthesis has been read, and what follows its closing one. */
  function ReadLiteral(s: string, depth: nat): (r: Option<(string, string)>)
    ensures r.Some? ==> |r.value.1| < |s|
    decreases |s|
  {
    if s == "" then None
    else if s[0] == ')' && depth == 0 then Some(("", s[1..]))
    else if s[0] == '\\' then
      if |s| == 1 then None
      else
        var (text, n) := Unescape(s[1..]);
        Before(text, ReadLiteral(s[1..][n..], depth))
    else if s[0] == '\r' then
      Before("\n", ReadLiteral(if |s| > 1 && s[1] == '\n' then s[2..] else s[1..], depth))
    else
      var inner := if s[0] == '(' then depth + 1 else if s[0] == ')' then depth - 1 else depth;
      Before([s[0]], ReadLiteral(s[1..], inner))
  }

  function Before(text: string, r: Option<(string, string)>): Option<(string, string)> {
    match r
    case None => None
    case Some((more, rest)) => Some((text + more, rest))
  }

  lemma EscCharRead(c: char, tail: string)
    ensures ReadLiteral(EscChar(c) + tail, 0) == Before([Shown(c)], ReadLiteral(tail, 0))
  {
    hide ReadLiteral;
    if c in "()\\" {
      assert EscChar(c) == ['\\', c];
      EscapedRead(c, tail);
    } else {
      PlainRead(Shown(c), tail);
    }
  }

  lemma EscapedRead(c: char, tail: string)
    requires c in "()\\"
    ensures ReadLiteral(['\\', c] + tail, 0) == Before([c], ReadLiteral(tail, 0))
  {
    var s := ['\\', c] + tail;
    assert s[1..] == [c] + tail && s[1..][1..] == tail;
    assert Unescape(s[1..]) == ([c], 1);
  }

  lemma PlainRead(c: char, tail: string)
    requires c !in "()\\" && c != '\r'
    ensures ReadLiteral([c] + tail, 0) == Before([c], ReadLiteral(tail, 0))
  {
    assert ([c] + tail)[1..] == tail;
  }

  /** Reading an escaped string gives back its text, with unrepresentable characters as spaces. */
  lemma {:induction false} LiteralRoundTrip(t: string, rest: string)
    ensures ReadLiteral(Esc(t) + (")" + rest), 0) == Some((Visible(t), rest))
    decreases |t|
  {
    hide ReadLiteral;
    if t == "" {
      CloseRead(rest);
      assert Esc(t) + (")" + rest) == ")" + rest;
    } else {
      LiteralRoundTrip(t[1..], rest);
      EscCharRead(t[0], Esc(t[1..]) + (")" + rest));
      assert Esc(t) + (")" + rest) == EscChar(t[0]) + (Esc(t[1..]) + (")" + rest));
    }
  }

  lemma CloseRead(rest: string)
    ensures ReadLiteral(")" + rest, 0) == Some(("", rest))
  {
    assert (")" + rest)[1..] == rest;
  }

  // ---- Content streams ----

  const PROLOG := "BT\n/F1 12 Tf\n14 TL\n54 738 Td\n"
  const FONT := "/F1 "
  const SHOW := " Tf\n("
  const NEXT := " Tj\nT*\n"
  const END_TEXT := "ET\n"

  function Size(l: Line): nat { if l.heading then 16 else 12 }

  /** The operators that show one line, before `rest`. */
  function LineOps(l: Line, rest: string): string {
    FONT + (Dec(Size(l)) + (SHOW + (Esc(l.text) + (")" + (NEXT + rest)))))
  }

  function Ops(lines: seq<Line>): string {
    if lines == [] then END_TEXT else LineOps(lines[0], Ops(lines[1..]))
  }

  function Content(lines: seq<Line>): string { PROLOG + Ops(lines) }

  lemma Regroup(a: string, b: string, c: string, d: string, e: string, f: string, g: string, rest: string)
    ensures a + (b + (c + (d + (e + (f + (g + rest)))))) == a + b + c + d + e + f + g + rest
  {}

  /** `content_stream`. */
  method ContentStream(lines: seq<Line>) returns (s: string)
    ensures s == Content(lines)
  {
    hide Esc, Dec;
    s := "BT\n";
    s := s + "/F1 12 Tf\n";
    s := s + "14 TL\n";
    s := s + "54 738 Td\n";
    assert s == PROLOG;
    s := Shows(lines, s);
  }

  /** The loop over the lines, and the closing operator. */
  method Shows(lines: seq<Line>, s0: string) returns (s: string)
    ensures s == s0 + Ops(lines)
  {
    hide Esc, Dec, FONT, SHOW, NEXT, END_TEXT;
    s := s0;
    for i := 0 to |lines|
      invariant s + Ops(lines[i..]) == s0 + Ops(lines)
    {
      var line := lines[i];
      var size := if line.heading then 16 else 12;
      assert lines[i..][0] == line && lines[i..][1..] == lines[i + 1..];
      var text := Escape(line.text);
      Regroup(s, FONT, Dec(size), SHOW, Esc(line.text), ")", NEXT, Ops(lines[i + 1..]));
      s := s + FONT + Dec(size) + SHOW;
      s := s + text;
      s := s + ")" + NEXT;
    }
    assert lines[|lines|..] == [];
    s := s + END_TEXT;
  }

  // ---- Reading a content stream ----

  datatype ShownLine = ShownLine(size: nat, text: string)

  function ReadOps(s: string): Option<seq<ShownLine>>
    decreases |s|
  {
    if s == END_TEXT then Some([])
    else
      var (size, r1) :- ReadAfter(s, FONT);
      var r2 :- Expect(r1, SHOW);
      var (text, r3) :- ReadLiteral(r2, 0);
      var r4 :- Expect(r3, NEXT);
      var more :- ReadOps(r4);
      Some([ShownLine(size, text)] + more)
  }

  function ReadContent(s: string): Option<seq<ShownLine>> {
    var rest :- Expect(s, PROLOG);
    ReadOps(rest)
  }

  function ShownLines(lines: seq<Line>): seq<ShownLine> {
    if lines == [] then [] else [ShownLine(Size(lines[0]), Visible(lines[0].text))] + ShownLines(lines[1..])
  }

  lemma Literals(rest: string)
    ensures FONT + rest != END_TEXT && NoDigitFirst(SHOW + rest)
  {
    assert (FONT + rest)[0] == '/';
  }

  lemma {:induction false} OpsRoundTrip(lines: seq<Line>)
    ensures ReadOps(Ops(lines)) == Some(ShownLines(lines))
    decreases |lines|
  {
    hide Esc, Dec, ReadLiteral, Visible, FONT, SHOW, NEXT, END_TEXT, ReadAfter, Expect, NoDigitFirst;
    if lines != [] {
      var l, rest := lines[0], Ops(lines[1..]);
      OpsRoundTrip(lines[1..]);
      var afterText := NEXT + rest;
      var afterShow := Esc(l.text) + (")" + afterText);
      Literals(Dec(Size(l)) + (SHOW + afterShow));
      Literals(afterShow);
      ReadAfterOf(FONT, Size(l), SHOW + afterShow);
      ExpectOf(SHOW, afterShow);
      LiteralRoundTrip(l.text, afterText);
      ExpectOf(NEXT, rest);
    }
  }

  /** Reading a page's content stream gives back its lines and their sizes. */
  lemma ContentRoundTrip(lines: seq<Line>)
    ensures ReadContent(Content(lines)) == Some(ShownLines(lines))
  {
    hide PROLOG, ReadOps, Ops, ShownLines;
    ExpectOf(PROLOG, Ops(lines));
    OpsRoundTrip(lines);
  }
}
