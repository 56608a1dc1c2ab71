// Decimal numerals: printing, zero padding, reading back.
module Decimal {
  import opened Options
  import opened Ascii


  function Digit(d: nat): (c: char)
    requires d < 10
    ensures IsDigit(c) && c as int - '0' as int == d
  {
    ('0' as int + d) as char
  }

  predicate AllDigits(s: string) {
    forall i :: 0 <= i < |s| ==> IsDigit(s[i])
  }

  /** `format!("{n}")`. */
  function Dec(n: nat): (s: string)
    ensures s != "" && AllDigits(s)
  {
    if n < 10 then [Digit(n)] else Dec(n / 10) + [Digit(n % 10)]
  }

  function Value(s: string): nat
    requires AllDigits(s)
  {
    if s == "" then 0 else 10 * Value(s[..|s| - 1]) + (s[|s| - 1] as int - '0' as int)
  }

  lemma {:induction false} ValueOfDec(n: nat)
    ensures Value(Dec(n)) == n
  {
    var s := Dec(n);
    if n >= 10 {
      assert s[..|s| - 1] == Dec(n / 10);
      ValueOfDec(n / 10);
    }
  }

  function Pow10(k: nat): (p: nat)
    ensures p > 0
  {
    if k == 0 then 1 else 10 * Pow10(k - 1)
  }

  /** A numeral fits `k` digits exactly when the number is below the `k`th power of ten. */
  lemma {:induction false} DecWidth(n: nat, k: nat)
    requires k > 0
    ensures |Dec(n)| <= k <==> n < Pow10(k)
    decreases k
  {
    if k == 1 {
      assert Pow10(1) == 10;
    } else if n >= 10 {
      DecWidth(n / 10, k - 1);
    }
  }

  function Zeros(k: nat): (s: string)
    ensures |s| == k && AllDigits(s)
    ensures forall i :: 0 <= i < k ==> s[i] == '0'
  {
    seq(k, _ => '0')
  }

  /** `format!("{n:0width$}")`: padded, never cut. */
  function Padded(n: nat, width: nat): (s: string)
    ensures AllDigits(s) && |s| >= width
  {
    var d := Dec(n);
    if |d| < width then Zeros(width - |d|) + d else d
  }

  lemma {:induction false} ValueOfPadded(k: nat, s: string)
    requires AllDigits(s)
    ensures Value(Zeros(k) + s) == Value(s)
    decreases |s|, k
  {
    var t := Zeros(k) + s;
    if s == "" {
      if k > 0 {
        assert t[..|t| - 1] == Zeros(k - 1) + s;
        ValueOfPadded(k - 1, s);
      }
    } else {
      assert t[..|t| - 1] == Zeros(k) + s[..|s| - 1];
      ValueOfPadded(k, s[..|s| - 1]);
    }
  }

  lemma PaddedRoundTrip(n: nat, width: nat)
    requires width > 0
    ensures Value(Padded(n, width)) == n
    ensures |Padded(n, width)| == width <==> n < Pow10(width)
  {
    ValueOfDec(n);
    DecWidth(n, width);
    if |Dec(n)| < width { ValueOfPadded(width - |Dec(n)|, Dec(n)); }
  }

  /** The numeral a string begins with, and the rest. */
  function ReadNat(s: string): (r: Option<(nat, string)>)
    ensures r.Some? ==> |r.value.1| < |s|
  {
    var k := RunEnd(s, 0, IsDigit);
    if k == 0 then None else Some((Value(s[..k]), s[k..]))
  }

  predicate NoDigitFirst(s: string) { s == "" || !IsDigit(s[0]) }

  lemma ReadNatOf(n: nat, rest: string)
    requires NoDigitFirst(rest)
    ensures ReadNat(Dec(n) + rest) == Some((n, rest))
  {
    var s := Dec(n) + rest;
    RunEndUnique(s, 0, IsDigit, |Dec(n)|);
    assert s[..|Dec(n)|] == Dec(n) && s[|Dec(n)|..] == rest;
    ValueOfDec(n);
  }

  /** What follows a literal, if the string begins with it. */
  function Expect(s: string, lit: string): (r: Option<string>)
    ensures r.Some? ==> |r.value| + |lit| == |s|
  {
    if lit <= s then Some(s[|lit|..]) else None
  }

  lemma ExpectOf(lit: string, rest: string)
    ensures Expect(lit + rest, lit) == Some(rest)
  {}

  /** A literal and then a numeral. */
  function ReadAfter(s: string, lit: string): (r: Option<(nat, string)>)
    ensures r.Some? ==> |r.value.1| < |s|
  {
    var rest :- Expect(s, lit);
    ReadNat(rest)
  }

  lemma ReadAfterOf(lit: string, n: nat, rest: string)
    requires NoDigitFirst(rest)
    ensures ReadAfter(lit + (Dec(n) + rest), lit) == Some((n, rest))
  {
    hide Dec, ReadNat, NoDigitFirst;
    ExpectOf(lit, Dec(n) + rest);
    ReadNatOf(n, rest);
  }
}
