// Spreadsheet column names: bijective base 26.
module Columns {
  import opened Ascii

  function Letter(d: nat): (c: char)
    requires d < 26
    ensures IsUpper(c) && c as int - 'A' as int == d
  {
    ('A' as int + d) as char
  }

  /** A, B, …, Z, AA, AB, … */
  function Name(idx: nat): (s: string)
    ensures IsName(s)
  {
    if idx < 26 then [Letter(idx)] else Name(idx / 26 - 1) + [Letter(idx % 26)]
  }

  predicate IsName(s: string) {
    s != "" && forall i :: 0 <= i < |s| ==> IsUpper(s[i])
  }

  /** Where a name stands in that order. */
  function Index(s: string): nat
    requires IsName(s)
  {
    var d: nat := s[|s| - 1] as int - 'A' as int;
    if |s| == 1 then d else 26 * (Index(s[..|s| - 1]) + 1) + d
  }

  function Reversed(s: string): (r: string)
    ensures |r| == |s|
  {
    if s == "" then "" else Reversed(s[1..]) + [s[0]]
  }

  lemma {:induction false} ReversedAppend(s: string, c: char)
    ensures Reversed(s + [c]) == [c] + Reversed(s)
  {
    if s == "" {
      assert (s + [c])[1..] == "" && s + [c] == [c];
    } else {
      assert (s + [c])[1..] == s[1..] + [c];
      ReversedAppend(s[1..], c);
    }
  }

  /** `XlsxRenderer::col_letter`: letters are pushed last first, then reversed. */
  method ColLetter(index: nat) returns (name: string)
    ensures name == Name(index)
  {
    var idx := index;
    var s := "";
    while true
      invariant Name(idx) + Reversed(s) == Name(index)
      decreases idx
    {
      ghost var before := s;
      s := s + [('A' as int + idx % 26) as char];
      ReversedAppend(before, Letter(idx % 26));
      if idx < 26 {
        break;
      }
      assert Name(idx) + Reversed(before) == Name(idx / 26 - 1) + ([Letter(idx % 26)] + Reversed(before));
      idx := idx / 26 - 1;
    }
    name := Reversed(s);
  }

  /** Different columns have different names … */
  lemma {:induction false} IndexOfName(idx: nat)
    ensures Index(Name(idx)) == idx
  {
    if idx >= 26 {
      IndexOfName(idx / 26 - 1);
      var s := Name(idx);
      assert s[..|s| - 1] == Name(idx / 26 - 1);
    }
  }

  /** … and every name of upper-case letters is some column's. */
  lemma {:induction false} NameOfIndex(s: string)
    requires IsName(s)
    ensures Name(Index(s)) == s
    decreases |s|
  {
    var d: nat := s[|s| - 1] as int - 'A' as int;
    if |s| > 1 {
      var head := s[..|s| - 1];
      NameOfIndex(head);
      var idx := 26 * (Index(head) + 1) + d;
      assert idx / 26 - 1 == Index(head) && idx % 26 == d;
      assert s == head + [s[|s| - 1]];
    } else {
      assert s == [s[0]];
    }
  }
}
