// Well-formed UTF-8 and character boundaries (The Unicode Standard, table 3-7).
module Utf8 {
  import opened Ascii

  /** A continuation byte. */
  predicate IsTrail(c: char) { 0x80 as char <= c < 0xC0 as char }

  /** How many bytes the sequence led by `c` has; 0 when `c` leads none. */
  function Width(c: char): nat {
    var u := c as int;
    if u < 0x80 then 1
    else if 0xC2 <= u <= 0xDF then 2
    else if 0xE0 <= u <= 0xEF then 3
    else if 0xF0 <= u <= 0xF4 then 4
    else 0
  }

  /** The lead byte's restriction on the second byte. */
  predicate SecondFits(lead: char, second: char) {
    var u, v := lead as int, second as int;
    && (u == 0xE0 ==> 0xA0 <= v)
    && (u == 0xED ==> v <= 0x9F)
    && (u == 0xF0 ==> 0x90 <= v)
    && (u == 0xF4 ==> v <= 0x8F)
  }

  /** The string begins with one well-formed sequence. */
  predicate LeadsSequence(s: string)
    requires s != []
  {
    var n := Width(s[0]);
    && 0 < n <= |s|
    && (forall i :: 1 <= i < n ==> IsTrail(s[i]))
    && (n > 1 ==> SecondFits(s[0], s[1]))
  }

  predicate Valid(s: string) {
    s == [] || (LeadsSequence(s) && Valid(s[Width(s[0])..]))
  }

  /** `is_char_boundary`. */
  predicate Boundary(s: string, i: nat) {
    i == 0 || i == |s| || (i < |s| && !IsTrail(s[i]))
  }

  /** `&s[from..to]`, which panics off a boundary. */
  function Slice(s: string, from: nat, to: nat): string
    requires from <= to <= |s| && Boundary(s, from) && Boundary(s, to)
  {
    s[from..to]
  }

  /** A sequence that starts inside valid text ends at a boundary inside it. */
  lemma {:induction false} SequenceEnds(s: string, i: nat)
    requires Valid(s) && i < |s| && !IsTrail(s[i])
    ensures Width(s[i]) > 0 && i + Width(s[i]) <= |s| && Boundary(s, i + Width(s[i]))
    decreases |s|
  {
    var n := Width(s[0]);
    var rest := s[n..];
    if i == 0 {
      if rest != [] { assert LeadsSequence(rest); }
    } else {
      assert i >= n;
      SequenceEnds(rest, i - n);
      assert Boundary(rest, i - n + Width(s[i]));
    }
  }

  lemma AsciiEnds(s: string, i: nat)
    requires Valid(s) && i < |s| && IsAscii(s[i])
    ensures Boundary(s, i) && Boundary(s, i + 1)
  {
    SequenceEnds(s, i);
  }

  /** A run of ASCII characters from a boundary ends at a boundary. */
  lemma {:induction false} AsciiRunEnds(s: string, from: nat, to: nat)
    requires Valid(s) && from <= to <= |s| && Boundary(s, from)
    requires forall i :: from <= i < to ==> IsAscii(s[i])
    ensures Boundary(s, to)
  {
    if from < to { AsciiEnds(s, to - 1); }
  }

  lemma {:induction false} ConcatValid(a: string, b: string)
    requires Valid(a) && Valid(b)
    ensures Valid(a + b)
    decreases |a|
  {
    if a == [] {
      assert a + b == b;
    } else {
      var n := Width(a[0]);
      assert (a + b)[n..] == a[n..] + b;
      ConcatValid(a[n..], b);
    }
  }

  lemma {:induction false} SuffixValid(s: string, i: nat)
    requires Valid(s) && i <= |s| && Boundary(s, i)
    ensures Valid(s[i..])
    decreases |s|
  {
    if 0 < i < |s| {
      var n := Width(s[0]);
      assert i >= n;
      assert s[n..][i - n..] == s[i..];
      SuffixValid(s[n..], i - n);
    } else if i == |s| {
      assert s[i..] == [];
    } else {
      assert s[i..] == s;
    }
  }

  lemma {:induction false} PrefixValid(s: string, i: nat)
    requires Valid(s) && i <= |s| && Boundary(s, i)
    ensures Valid(s[..i])
    decreases |s|
  {
    if 0 < i {
      var n := Width(s[0]);
      if i < |s| { assert i >= n; }
      PrefixValid(s[n..], i - n);
      assert s[..i][n..] == s[n..][..i - n];
    }
  }

  lemma SliceValid(s: string, from: nat, to: nat)
    requires Valid(s) && from <= to <= |s| && Boundary(s, from) && Boundary(s, to)
    ensures Valid(s[from..to])
  {
    hide Valid, LeadsSequence, Width;
    SuffixValid(s, from);
    var rest := s[from..];
    assert Boundary(rest, to - from);
    PrefixValid(rest, to - from);
    assert rest[..to - from] == s[from..to];
  }

  lemma {:induction false} AsciiValid(s: string)
    requires forall i :: 0 <= i < |s| ==> IsAscii(s[i])
    ensures Valid(s)
  {
    if s != [] { AsciiValid(s[1..]); }
  }
}
