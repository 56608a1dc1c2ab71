// Rows of cells: joining cells with a separator, and splitting them again.
module Rows {
  import Text

  /** The parts between separators. */
  function SplitAt(s: string, sep: char): (parts: seq<string>)
    ensures parts != [] && forall i :: 0 <= i < |parts| ==> sep !in parts[i]
  {
    if s == "" then [""]
    else
      var rest := SplitAt(s[1..], sep);
      if s[0] == sep then [""] + rest else [[s[0]] + rest[0]] + rest[1..]
  }

  /** A row has a cell, and no cell holds the separator. */
  ghost predicate Cells(cells: seq<string>, sep: char) {
    cells != [] && forall i :: 0 <= i < |cells| ==> sep !in cells[i]
  }

  lemma {:induction false} SplitAfter(s: string, rest: string, sep: char)
    requires sep !in s
    ensures SplitAt(s + [sep] + rest, sep) == [s] + SplitAt(rest, sep)
    ensures SplitAt(s, sep) == [s]
  {
    if s == "" {
      assert (s + [sep] + rest)[1..] == rest;
    } else {
      SplitAfter(s[1..], rest, sep);
      assert (s + [sep] + rest)[1..] == s[1..] + [sep] + rest;
      assert [s[0]] + s[1..] == s;
    }
  }

  lemma {:induction false} SplitOfCells(cells: seq<string>, sep: char)
    requires Cells(cells, sep)
    ensures SplitAt(Text.Join(cells, [sep]), sep) == cells
    decreases |cells|
  {
    hide SplitAt;
    if |cells| == 1 {
      SplitAfter(cells[0], "", sep);
      assert cells == [cells[0]];
    } else {
      var tail := cells[1..];
      assert Cells(tail, sep) by {
        forall i | 0 <= i < |tail| ensures sep !in tail[i] { assert tail[i] == cells[i + 1]; }
      }
      SplitOfCells(tail, sep);
      SplitAfter(cells[0], Text.Join(tail, [sep]), sep);
      assert cells == [cells[0]] + tail;
    }
  }

  /** A joined row splits into its cells exactly when it has one and none holds the separator. */
  lemma RowReadsIff(cells: seq<string>, sep: char)
    ensures SplitAt(Text.Join(cells, [sep]), sep) == cells <==> Cells(cells, sep)
  {
    hide SplitAt, Text.Join;
    if Cells(cells, sep) { SplitOfCells(cells, sep); }
  }
}
