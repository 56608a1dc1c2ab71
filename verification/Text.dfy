// Strings as sequences of Unicode scalar values: white space, trimming, words, joining.
module Text {

  /** The characters with the Unicode White_Space property. */
  predicate IsWhitespace(c: char) {
    var u := c as int;
    || 0x09 <= u <= 0x0D || u == 0x20 || u == 0x85 || u == 0xA0 || u == 0x1680
    || 0x2000 <= u <= 0x200A || u == 0x2028 || u == 0x2029 || u == 0x202F || u == 0x205F || u == 0x3000
  }

  function TrimStart(s: string): (t: string)
    ensures |t| <= |s| && t == s[|s| - |t|..]
    ensures t == [] || !IsWhitespace(t[0])
  {
    if s != [] && IsWhitespace(s[0]) then TrimStart(s[1..]) else s
  }

  function TrimEnd(s: string): (t: string)
    ensures |t| <= |s| && t == s[..|t|]
    ensures t == [] || !IsWhitespace(t[|t| - 1])
  {
    if s != [] && IsWhitespace(s[|s| - 1]) then TrimEnd(s[..|s| - 1]) else s
  }

  function Trim(s: string): string { TrimEnd(TrimStart(s)) }

  /** Non-empty with no white space at either end. */
  predicate Trimmed(s: string) {
    s != [] && !IsWhitespace(s[0]) && !IsWhitespace(s[|s| - 1])
  }

  lemma TrimOfTrimmed(s: string)
    requires Trimmed(s)
    ensures TrimStart(s) == s && TrimEnd(s) == s && Trim(s) == s
  {}

  /** Length of the leading run of non-white characters. */
  function WordLength(s: string): (n: nat)
    ensures n <= |s| && (s != [] && !IsWhitespace(s[0]) ==> n > 0)
  {
    if s == [] || IsWhitespace(s[0]) then 0 else 1 + WordLength(s[1..])
  }

  /** `split_whitespace`. */
  function Words(s: string): seq<string>
    decreases |s|
  {
    var t := TrimStart(s);
    if t == [] then []
    else
      var n := WordLength(t);
      [t[..n]] + Words(t[n..])
  }

  function Join(parts: seq<string>, sep: string): string {
    if parts == [] then ""
    else if |parts| == 1 then parts[0]
    else parts[0] + sep + Join(parts[1..], sep)
  }

  /** Position of the first line feed, or the length. */
  function LineFeed(s: string): (k: nat)
    ensures k <= |s| && (forall i :: 0 <= i < k ==> s[i] != '\n') && (k < |s| ==> s[k] == '\n')
  {
    if s == "" || s[0] == '\n' then 0 else 1 + LineFeed(s[1..])
  }

  function StripReturn(s: string): string {
    if s != "" && s[|s| - 1] == '\r' then s[..|s| - 1] else s
  }

  /** `str::lines`: a line ends with a line feed, or a carriage return and a line feed, or the text. */
  function SplitLines(s: string): seq<string>
    decreases |s|
  {
    if s == "" then []
    else
      var k := LineFeed(s);
      if k == |s| then [s] else [StripReturn(s[..k])] + SplitLines(s[k + 1..])
  }
}
