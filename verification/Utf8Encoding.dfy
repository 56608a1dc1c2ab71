// Valid UTF-8 is exactly what encoding scalar values gives (The Unicode Standard, table 3-6).
module Utf8Encoding {
  import opened Utf8

  /** A Unicode scalar value: no surrogate. */
  predicate Scalar(u: nat) { u < 0xD800 || 0xE000 <= u <= 0x10FFFF }

  function Trail(v: nat): char
    requires v < 64
  {
    (0x80 + v) as char
  }

  function Encode(u: nat): (s: string)
    requires Scalar(u)
    ensures 1 <= |s| <= 4
  {
    if u < 0x80 then [u as char]
    else if u < 0x800 then [(0xC0 + u / 64) as char, Trail(u % 64)]
    else if u < 0x1_0000 then [(0xE0 + u / 4096) as char, Trail(u / 64 % 64), Trail(u % 64)]
    else [(0xF0 + u / 0x4_0000) as char, Trail(u / 4096 % 64), Trail(u / 64 % 64), Trail(u % 64)]
  }

  function EncodeAll(us: seq<nat>): string
    requires forall i :: 0 <= i < |us| ==> Scalar(us[i])
  {
    if us == [] then "" else Encode(us[0]) + EncodeAll(us[1..])
  }

  ghost predicate AllScalars(us: seq<nat>) { forall i :: 0 <= i < |us| ==> Scalar(us[i]) }

  lemma EncodeLeads(u: nat, rest: string)
    requires Scalar(u)
    ensures var s := Encode(u) + rest;
      LeadsSequence(s) && Width(s[0]) == |Encode(u)|
  {
    var s := Encode(u) + rest;
    if u < 0x80 {
    } else if u < 0x800 {
      TwoParts(u);
      assert s[1] == Trail(u % 64);
    } else if u < 0x1_0000 {
      ThreeParts(u);
      assert s[1] == Trail(u / 64 % 64) && s[2] == Trail(u % 64);
    } else {
      FourParts(u);
      assert s[1] == Trail(u / 4096 % 64) && s[2] == Trail(u / 64 % 64) && s[3] == Trail(u % 64);
    }
  }

  lemma TwoParts(u: nat)
    requires 0x80 <= u < 0x800
    ensures 2 <= u / 64 < 32
  {}

  /** No over-long form and no surrogate. */
  lemma ThreeParts(u: nat)
    requires 0x800 <= u < 0x1_0000 && Scalar(u)
    ensures u / 4096 < 16 && (u / 4096 == 0 ==> u / 64 % 64 >= 32) && (u / 4096 == 13 ==> u / 64 % 64 < 32)
  {
    assert u / 64 == 64 * (u / 4096) + u / 64 % 64 by { Nested(u); }
  }

  lemma FourParts(u: nat)
    requires 0x1_0000 <= u <= 0x10FFFF
    ensures u / 0x4_0000 <= 4 && (u / 0x4_0000 == 0 ==> u / 4096 % 64 >= 16) && (u / 0x4_0000 == 4 ==> u / 4096 % 64 < 16)
  {
    assert u / 4096 == 64 * (u / 0x4_0000) + u / 4096 % 64 by { assert u / 4096 / 64 == u / 0x4_0000; }
  }

  lemma Nested(u: nat)
    ensures u / 64 / 64 == u / 4096 && u / 4096 / 64 == u / 0x4_0000
  {}

  function Low(c: char): nat
    requires IsTrail(c)
  {
    c as int - 0x80
  }

  /** The scalar value a sequence stands for. */
  function Decode(s: string): (u: nat)
    requires s != "" && LeadsSequence(s)
  {
    var (n, lead) := (Width(s[0]), s[0] as int);
    if n == 1 then lead
    else if n == 2 then (lead - 0xC0) * 64 + Low(s[1])
    else if n == 3 then (lead - 0xE0) * 4096 + Low(s[1]) * 64 + Low(s[2])
    else (lead - 0xF0) * 0x4_0000 + Low(s[1]) * 4096 + Low(s[2]) * 64 + Low(s[3])
  }

  lemma TwoDecoded(s: string)
    requires s != "" && LeadsSequence(s) && Width(s[0]) == 2
    ensures Scalar(Decode(s)) && Encode(Decode(s)) == s[..2]
  {
    Digits(0, 0, s[0] as int - 0xC0, Low(s[1]));
  }

  lemma ThreeDecoded(s: string)
    requires s != "" && LeadsSequence(s) && Width(s[0]) == 3
    ensures Scalar(Decode(s)) && Encode(Decode(s)) == s[..3]
  {
    Digits(0, s[0] as int - 0xE0, Low(s[1]), Low(s[2]));
  }

  lemma FourDecoded(s: string)
    requires s != "" && LeadsSequence(s) && Width(s[0]) == 4
    ensures Scalar(Decode(s)) && Encode(Decode(s)) == s[..4]
  {
    Digits(s[0] as int - 0xF0, Low(s[1]), Low(s[2]), Low(s[3]));
  }

  lemma DecodeIs(s: string)
    requires s != "" && LeadsSequence(s)
    ensures Scalar(Decode(s)) && Encode(Decode(s)) == s[..Width(s[0])]
  {
    hide Scalar;
    var n := Width(s[0]);
    if n == 2 {
      TwoDecoded(s);
    } else if n == 3 {
      ThreeDecoded(s);
    } else if n == 4 {
      FourDecoded(s);
    } else {
      assert Scalar(Decode(s)) by { SmallScalar(Decode(s)); }
    }
  }

  lemma SmallScalar(u: nat)
    requires u < 0x80
    ensures Scalar(u)
  {}

  lemma Shifted(q: nat, r: nat)
    requires r < 64
    ensures (64 * q + r) / 64 == q && (64 * q + r) % 64 == r
  {}

  /** A number in base 64. */
  lemma Digits(a: nat, b: nat, c: nat, d: nat)
    requires b < 64 && c < 64 && d < 64
    ensures var u := a * 0x4_0000 + b * 4096 + c * 64 + d;
      u % 64 == d && u / 64 % 64 == c && u / 4096 % 64 == b && u / 0x4_0000 == a
      && u / 4096 == a * 64 + b && u / 64 == a * 4096 + b * 64 + c
  {
    var u := a * 0x4_0000 + b * 4096 + c * 64 + d;
    Shifted(a * 4096 + b * 64 + c, d);
    Shifted(a * 64 + b, c);
    Shifted(a, b);
    Nested(u);
  }

  lemma {:induction false} EncodedIsValid(us: seq<nat>)
    requires AllScalars(us)
    ensures Valid(EncodeAll(us))
    decreases |us|
  {
    hide Encode, LeadsSequence, Width, Scalar;
    if us != [] {
      EncodedIsValid(us[1..]);
      var rest := EncodeAll(us[1..]);
      EncodeLeads(us[0], rest);
      assert (Encode(us[0]) + rest)[|Encode(us[0])|..] == rest;
    }
  }

  lemma {:induction false} ValidIsEncoded(s: string) returns (us: seq<nat>)
    requires Valid(s)
    ensures AllScalars(us) && EncodeAll(us) == s
    decreases |s|
  {
    hide Encode, LeadsSequence, Scalar, Decode, Width;
    us := [];
    if s != "" {
      var n := Width(s[0]);
      WidthIsPositive(s);
      var rest := ValidIsEncoded(s[n..]);
      DecodeIs(s);
      us := [Decode(s)] + rest;
      assert us[1..] == rest && s[..n] + s[n..] == s;
    }
  }

  lemma WidthIsPositive(s: string)
    requires s != "" && LeadsSequence(s)
    ensures 0 < Width(s[0]) <= |s|
  {}

  /** A text is valid exactly when it encodes some scalar values. */
  lemma ValidIff(s: string)
    ensures Valid(s) <==> exists us: seq<nat> :: AllScalars(us) && EncodeAll(us) == s
  {
    hide Encode, Scalar, Valid;
    if Valid(s) {
      var us := ValidIsEncoded(s);
    }
    if us: seq<nat> :| AllScalars(us) && EncodeAll(us) == s {
      EncodedIsValid(us);
    }
  }
}
