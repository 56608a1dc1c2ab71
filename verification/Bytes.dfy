// Bytes, little-endian integers and fixed-layout records, as a binary file format stores them.
module Bytes {

  type byte = b: int | 0 <= b < 256

  const U16_LIMIT: nat := 0x1_0000
  const U32_LIMIT: nat := 0x1_0000_0000

  function Pow256(width: nat): (p: nat)
    ensures p > 0
  {
    if width == 0 then 1 else 256 * Pow256(width - 1)
  }

  lemma Limits()
    ensures Pow256(2) == U16_LIMIT && Pow256(4) == U32_LIMIT
  {}

  /** The `width` low bytes of `n`, least significant first: a truncating cast and `to_le_bytes`. */
  function Le(n: nat, width: nat): (s: seq<byte>)
    ensures |s| == width
    decreases width, n
  {
    if width == 0 then [] else [n % 256] + Le(n / 256, width - 1)
  }

  function LeValue(s: seq<byte>): nat {
    if s == [] then 0 else (s[0] as int) + 256 * LeValue(s[1..])
  }

  lemma {:induction false} LeRoundTrip(n: nat, width: nat)
    requires n < Pow256(width)
    ensures LeValue(Le(n, width)) == n
    decreases width
  {
    if width > 0 {
      LeRoundTrip(n / 256, width - 1);
      assert Le(n, width)[1..] == Le(n / 256, width - 1);
    }
  }

  lemma {:induction false} LeValueBound(s: seq<byte>)
    ensures LeValue(s) < Pow256(|s|)
  {
    if s != [] { LeValueBound(s[1..]); }
  }

  /** A truncating cast drops every multiple of its modulus. */
  lemma {:induction false} LeTruncates(n: nat, k: nat, width: nat)
    ensures Le(n + k * Pow256(width), width) == Le(n, width)
    decreases width
  {
    if width > 0 {
      var p := Pow256(width - 1);
      assert k * Pow256(width) == 256 * (k * p);
      LowByte(n, k * p);
      LeTruncates(n / 256, k, width - 1);
    }
  }

  lemma LowByte(n: nat, m: nat)
    ensures (n + 256 * m) % 256 == n % 256 && (n + 256 * m) / 256 == n / 256 + m
  {}

  lemma Le32Truncates(n: nat)
    ensures Le(n % U32_LIMIT, 4) == Le(n, 4)
  {
    Limits();
    LeTruncates(n % U32_LIMIT, n / U32_LIMIT, 4);
    assert n == n % U32_LIMIT + n / U32_LIMIT * U32_LIMIT;
  }

  /** The field of `width` bytes at `at`. */
  function ReadLe(s: seq<byte>, at: nat, width: nat): nat
    requires at + width <= |s|
  {
    LeValue(s[at..at + width])
  }

  lemma FieldIsRead(s: seq<byte>, at: nat, n: nat, width: nat)
    requires at + width <= |s| && s[at..at + width] == Le(n, width) && n < Pow256(width)
    ensures ReadLe(s, at, width) == n
  {
    LeRoundTrip(n, width);
  }
}
