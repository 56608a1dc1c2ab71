// The Luhn check over decimal digits, doubling every second digit from the right
// (ISO/IEC 7812-1 Annex B).
module Luhn {

  type digit = d: nat | d < 10

  /** What a digit contributes when it is doubled. */
  function Doubled(d: digit): digit {
    if 2 * d > 9 then 2 * d - 9 else 2 * d
  }

  /** The contribution of the digit `fromRight` places from the right end. */
  function Weigh(d: digit, fromRight: nat): digit {
    if fromRight % 2 == 1 then Doubled(d) else d
  }

  /** The weighted sum of the `n` rightmost digits. */
  function Sum(digits: seq<digit>, n: nat): nat
    requires n <= |digits|
  {
    if n == 0 then 0 else Sum(digits, n - 1) + Weigh(digits[|digits| - n], n - 1)
  }

  predicate Valid(digits: seq<digit>) {
    13 <= |digits| <= 19 && Sum(digits, |digits|) % 10 == 0
  }

  function SaturatingAdd(a: nat, b: nat): nat {
    if a + b > 0xFFFF_FFFF then 0xFFFF_FFFF else a + b
  }

  /** `luhn_valid`; the saturating add never saturates, as the sum stays below 10 per digit. */
  method Check(digits: seq<digit>) returns (ok: bool)
    ensures ok == Valid(digits)
  {
    if |digits| < 13 || |digits| > 19 {
      return false;
    }
    var sum: nat := 0;
    for i := 0 to |digits|
      invariant sum == Sum(digits, i) && sum <= 9 * i
    {
      var v: nat := digits[|digits| - 1 - i];
      if i % 2 == 1 {
        v := v * 2;
        if v > 9 {
          v := v - 9;
        }
      }
      sum := SaturatingAdd(sum, v);
    }
    return sum % 10 == 0;
  }

  // ---- Error detection ----

  lemma DoubledInjective(a: digit, b: digit)
    requires Doubled(a) == Doubled(b)
    ensures a == b
  {}

  lemma WeighInjective(a: digit, b: digit, k: nat)
    requires Weigh(a, k) == Weigh(b, k)
    ensures a == b
  {
    if k % 2 == 1 { DoubledInjective(a, b); }
  }

  /** Replacing one digit changes the sum by the difference of its contributions. */
  lemma {:induction false} SumUpdate(digits: seq<digit>, i: nat, d: digit, n: nat)
    requires i < |digits| && n <= |digits|
    ensures var k := |digits| - 1 - i;
      Sum(digits[i := d], n) == Sum(digits, n) + if k < n then Weigh(d, k) as int - Weigh(digits[i], k) as int else 0
  {
    if n > 0 { SumUpdate(digits, i, d, n - 1); }
  }

  lemma MultipleShifted(sum: int, t: int)
    requires sum % 10 == 0
    ensures (sum + t) % 10 == 0 <==> t % 10 == 0
    ensures 0 < t < 10 || -10 < t < 0 ==> t % 10 != 0
  {}

  /** Changing any single digit of a valid number makes it invalid. */
  lemma SingleDigitDetected(digits: seq<digit>, i: nat, d: digit)
    requires Valid(digits) && i < |digits| && d != digits[i]
    ensures !Valid(digits[i := d])
  {
    hide Weigh, Sum;
    var k := |digits| - 1 - i;
    SumUpdate(digits, i, d, |digits|);
    if Weigh(d, k) == Weigh(digits[i], k) { WeighInjective(d, digits[i], k); }
    MultipleShifted(Sum(digits, |digits|), Weigh(d, k) as int - Weigh(digits[i], k) as int);
  }

  function Swap(digits: seq<digit>, i: nat): (r: seq<digit>)
    requires i + 1 < |digits|
    ensures |r| == |digits|
  {
    digits[i := digits[i + 1]][i + 1 := digits[i]]
  }

  lemma SwapSum(digits: seq<digit>, i: nat)
    requires i + 1 < |digits|
    ensures var k := |digits| - 1 - i;
      Sum(Swap(digits, i), |digits|) ==
        Sum(digits, |digits|) + Weigh(digits[i + 1], k) - Weigh(digits[i], k) + Weigh(digits[i], k - 1) - Weigh(digits[i + 1], k - 1)
  {
    var once := digits[i := digits[i + 1]];
    SumUpdate(digits, i, digits[i + 1], |digits|);
    SumUpdate(once, i + 1, digits[i], |digits|);
  }

  /** What a swap adds when `a` moves to the doubled place of `b`. */
  function Gap(a: digit, b: digit): int {
    Doubled(a) as int - a as int - Doubled(b) as int + b as int
  }

  lemma SwapGap(a: digit, b: digit, k: nat)
    requires k > 0
    ensures Weigh(b, k) as int - Weigh(a, k) + Weigh(a, k - 1) - Weigh(b, k - 1) == if k % 2 == 1 then Gap(b, a) else Gap(a, b)
  {
    hide Doubled;
    assert (k - 1) % 2 == 1 <==> k % 2 == 0;
  }

  lemma DoublingGap(a: digit, b: digit)
    ensures Gap(a, b) % 10 == 0 <==> a == b || (a == 0 && b == 9) || (a == 9 && b == 0)
  {}

  /** Swapping two adjacent digits of a valid number goes unnoticed exactly when they are equal, or 0 and 9. */
  lemma AdjacentSwapDetected(digits: seq<digit>, i: nat)
    requires Valid(digits) && i + 1 < |digits|
    ensures Valid(Swap(digits, i)) <==>
      digits[i] == digits[i + 1] || (digits[i] == 0 && digits[i + 1] == 9) || (digits[i] == 9 && digits[i + 1] == 0)
  {
    hide Sum, Weigh, Gap;
    var a, b, k := digits[i], digits[i + 1], |digits| - 1 - i;
    var gap := if k % 2 == 1 then Gap(b, a) else Gap(a, b);
    SwapSum(digits, i);
    SwapGap(a, b, k);
    DoublingGap(a, b);
    DoublingGap(b, a);
    MultipleShifted(Sum(digits, |digits|), gap);
  }

  /** No two last digits complete the same payload. */
  lemma CheckDigitUnique(payload: seq<digit>, c: digit, d: digit)
    requires Valid(payload + [c]) && Valid(payload + [d])
    ensures c == d
  {
    if c != d {
      assert (payload + [c])[|payload| := d] == payload + [d];
      SingleDigitDetected(payload + [c], |payload|, d);
    }
  }

  /** The check digit of ISO/IEC 7812-1 Annex B: what the payload's sum lacks to the next multiple of ten. */
  function CheckDigit(payload: seq<digit>): digit {
    (10 - Sum(payload + [0], |payload| + 1) % 10) % 10
  }

  /** Exactly one last digit completes any payload of 12 to 18 digits. */
  lemma CompletedIff(payload: seq<digit>, d: digit)
    requires 12 <= |payload| <= 18
    ensures Valid(payload + [d]) <==> d == CheckDigit(payload)
  {
    hide Sum;
    var zero := payload + [0];
    assert zero[|payload| := d] == payload + [d];
    SumUpdate(zero, |payload|, d, |payload| + 1);
  }
}
