// The CRC-32 every ZIP header carries: a 32-bit shift register fed one byte at a time.
// A `u32` is modelled by its 32 bits, least significant first, so that XOR, AND, complement and
// shifts are what they are on bits.
module Crc32 {
  import opened Bytes

  type Word = w: seq<bool> | |w| == 32 witness NO_BITS + NO_BITS + NO_BITS + NO_BITS

  const NO_BITS: seq<bool> := [false, false, false, false, false, false, false, false]
  const ZERO: Word := Repeat(false, 32)
  const ONES: Word := Repeat(true, 32)

  /** The `n` low bits of `v`, least significant first. */
  function BitsOf(v: nat, n: nat): (bits: seq<bool>)
    ensures |bits| == n
    decreases n, v
  {
    if n == 0 then [] else [v % 2 == 1] + BitsOf(v / 2, n - 1)
  }

  function Repeat(bit: bool, n: nat): (bits: seq<bool>)
    ensures |bits| == n && forall k :: 0 <= k < n ==> bits[k] == bit
  {
    seq(n, _ => bit)
  }

  /** The number whose bits, least significant first, are `bits`. */
  function Value(bits: seq<bool>): nat {
    if bits == [] then 0 else (if bits[0] then 1 else 0) + 2 * Value(bits[1..])
  }

  function Xor(x: seq<bool>, y: seq<bool>): (z: seq<bool>)
    requires |x| == |y|
    ensures |z| == |x| && forall k :: 0 <= k < |z| ==> z[k] == (x[k] != y[k])
  {
    seq(|x|, k requires 0 <= k < |x| => x[k] != y[k])
  }

  function And(x: Word, y: Word): Word { seq(32, k requires 0 <= k < 32 => x[k] && y[k]) }

  function Not(x: Word): Word { seq(32, k requires 0 <= k < 32 => !x[k]) }

  /** `(crc & 1).wrapping_neg()`. */
  function NegLowBit(x: Word): Word { if x[0] then ONES else ZERO }

  /** `crc >> 1`. */
  function ShiftRight(x: Word): Word { x[1..] + [false] }

  /** A byte widened to a word. */
  function Widen(b: byte): Word { Pad(BitsOf(b, 8)) }

  /** Bits extended with zeros to a word. */
  function Pad(bits: seq<bool>): Word
    requires |bits| <= 32
  {
    bits + Repeat(false, 32 - |bits|)
  }

  /** One round of the inner loop. */
  function Shift(poly: Word, r: Word): (s: Word)
    ensures forall k :: 0 <= k < 31 ==> s[k] == (r[k + 1] != (r[0] && poly[k]))
    ensures s[31] == (r[0] && poly[31])
  {
    Xor(ShiftRight(r), And(poly, NegLowBit(r)))
  }

  function ShiftN(poly: Word, r: Word, n: nat): Word
    decreases n, |r|
  {
    if n == 0 then r else ShiftN(poly, Shift(poly, r), n - 1)
  }

  /** The register after all of `data` has been fed into it, starting from `r`. */
  function Register(poly: Word, r: Word, data: seq<byte>): Word {
    if data == [] then r
    else ShiftN(poly, Xor(Register(poly, r, data[..|data| - 1]), Widen(data[|data| - 1])), 8)
  }

  function ChecksumBits(poly: Word, data: seq<byte>): Word { Not(Register(poly, ONES, data)) }

  /** The checksum as the number stored in the headers. */
  function Checksum(poly: Word, data: seq<byte>): (c: nat)
    ensures c < U32_LIMIT
  {
    ValueBound(ChecksumBits(poly, data));
    Pow2Values();
    Value(ChecksumBits(poly, data))
  }

  method Compute(poly: Word, data: seq<byte>) returns (crc: Word)
    ensures crc == ChecksumBits(poly, data)
  {
    crc := ONES;
    for i := 0 to |data|
      invariant crc == Register(poly, ONES, data[..i])
    {
      RegisterStep(poly, ONES, data, i);
      crc := Xor(crc, Widen(data[i]));
      crc := Rounds(poly, crc, 8);
    }
    assert data[..|data|] == data;
    crc := Not(crc);
  }

  /** The inner loop. */
  method Rounds(poly: Word, r: Word, n: nat) returns (crc: Word)
    ensures crc == ShiftN(poly, r, n)
  {
    crc := r;
    for k := 0 to n
      invariant ShiftN(poly, crc, n - k) == ShiftN(poly, r, n)
    {
      var mask := NegLowBit(crc);
      crc := Xor(ShiftRight(crc), And(poly, mask));
    }
  }

  lemma RegisterStep(poly: Word, r: Word, data: seq<byte>, i: nat)
    requires i < |data|
    ensures Register(poly, r, data[..i + 1]) == ShiftN(poly, Xor(Register(poly, r, data[..i]), Widen(data[i])), 8)
  {
    var longer := data[..i + 1];
    assert longer[..|longer| - 1] == data[..i];
  }

  // ---- Numbers and bits ----

  function Pow2(n: nat): nat { if n == 0 then 1 else 2 * Pow2(n - 1) }

  lemma Pow2Values()
    ensures Pow2(8) == 256 && Pow2(31) == 0x8000_0000 && Pow2(32) == U32_LIMIT
  {
    assert Pow2(8) == 256;
    assert Pow2(12) == 0x1000;
    assert Pow2(16) == 0x1_0000;
    assert Pow2(20) == 0x10_0000;
    assert Pow2(24) == 0x100_0000;
    assert Pow2(28) == 0x1000_0000;
  }

  lemma {:induction false} ValueBound(bits: seq<bool>)
    ensures Value(bits) < Pow2(|bits|)
  {
    if bits != [] { ValueBound(bits[1..]); }
  }

  lemma {:induction false} ValueInjective(x: seq<bool>, y: seq<bool>)
    requires |x| == |y| && Value(x) == Value(y)
    ensures x == y
  {
    if x != [] {
      ValueInjective(x[1..], y[1..]);
      assert x == [x[0]] + x[1..] && y == [y[0]] + y[1..];
    }
  }

  lemma {:induction false} BitsInjective(v: nat, w: nat, n: nat)
    requires v < Pow2(n) && w < Pow2(n) && BitsOf(v, n) == BitsOf(w, n)
    ensures v == w
    decreases n
  {
    if n > 0 {
      assert BitsOf(v, n)[0] == BitsOf(w, n)[0];
      assert BitsOf(v / 2, n - 1) == BitsOf(v, n)[1..] == BitsOf(w, n)[1..] == BitsOf(w / 2, n - 1);
      BitsInjective(v / 2, w / 2, n - 1);
    }
  }

  // ---- The same checksum read as a bit stream, least significant bit of each byte first ----

  function Stream(data: seq<byte>): (bits: seq<bool>)
    ensures |bits| == 8 * |data|
  {
    if data == [] then [] else Stream(data[..|data| - 1]) + BitsOf(data[|data| - 1], 8)
  }

  function FlipLowBit(r: Word, bit: bool): Word { r[0 := r[0] != bit] }

  /** The bit-serial shift register. */
  function Serial(poly: Word, r: Word, bits: seq<bool>): Word
    decreases |bits|
  {
    if bits == [] then r else Serial(poly, Shift(poly, FlipLowBit(r, bits[0])), bits[1..])
  }

  lemma ShiftLinear(poly: Word, x: Word, y: Word)
    ensures Shift(poly, Xor(x, y)) == Xor(Shift(poly, x), Shift(poly, y))
  {}

  lemma ShiftKernel(poly: Word, x: Word)
    requires poly[31]
    requires Shift(poly, x) == ZERO
    ensures x == ZERO
  {
    assert Shift(poly, x)[31] == false;
    forall k | 1 <= k < 32
      ensures !x[k]
    {
      assert !Shift(poly, x)[k - 1];
    }
  }

  /** A polynomial with its top bit set makes a step of the register one to one. */
  lemma ShiftInjective(poly: Word, x: Word, y: Word)
    requires poly[31]
    requires Shift(poly, x) == Shift(poly, y)
    ensures x == y
  {
    hide Shift;
    ShiftLinear(poly, x, y);
    XorItself(Shift(poly, x));
    ShiftKernel(poly, Xor(x, y));
    forall k | 0 <= k < 32
      ensures x[k] == y[k]
    {
      assert !Xor(x, y)[k];
    }
  }

  lemma XorItself(x: Word)
    ensures Xor(x, x) == ZERO
  {}

  lemma {:induction false} ShiftNKernel(poly: Word, x: Word, n: nat)
    requires poly[31]
    requires ShiftN(poly, x, n) == ZERO
    ensures x == ZERO
    decreases n
  {
    if n > 0 {
      ShiftNKernel(poly, Shift(poly, x), n - 1);
      ShiftKernel(poly, x);
    }
  }

  /** Feeding a padded word consumes its first bit and leaves the rest to be fed. */
  lemma ShiftPadded(poly: Word, r: Word, bits: seq<bool>)
    requires 0 < |bits| <= 32
    ensures Shift(poly, Xor(r, Pad(bits))) == Xor(Shift(poly, FlipLowBit(r, bits[0])), Pad(bits[1..]))
  {}

  lemma PadNothing(r: Word)
    ensures Xor(r, Pad([])) == r
  {}

  /** Up to 32 bits fed serially are the same as one word fed at once. */
  lemma {:induction false} SerialIsPadded(poly: Word, r: Word, bits: seq<bool>)
    requires |bits| <= 32
    ensures Serial(poly, r, bits) == ShiftN(poly, Xor(r, Pad(bits)), |bits|)
    decreases |bits|
  {
    hide Shift, Xor, Pad, FlipLowBit;
    if bits == [] {
      PadNothing(r);
    } else {
      SerialIsPadded(poly, Shift(poly, FlipLowBit(r, bits[0])), bits[1..]);
      ShiftPadded(poly, r, bits);
    }
  }

  lemma {:induction false} SerialSplit(poly: Word, r: Word, x: seq<bool>, y: seq<bool>)
    ensures Serial(poly, r, x + y) == Serial(poly, Serial(poly, r, x), y)
    decreases |x|
  {
    if x == [] {
      assert x + y == y;
    } else {
      assert (x + y)[1..] == x[1..] + y;
      SerialSplit(poly, Shift(poly, FlipLowBit(r, x[0])), x[1..], y);
    }
  }

  /** Byte-at-a-time and bit-at-a-time registers agree. */
  lemma {:induction false} RegisterIsSerial(poly: Word, r: Word, data: seq<byte>)
    ensures Register(poly, r, data) == Serial(poly, r, Stream(data))
    decreases |data|
  {
    if data != [] {
      var init, last := data[..|data| - 1], data[|data| - 1];
      RegisterIsSerial(poly, r, init);
      SerialSplit(poly, r, Stream(init), BitsOf(last, 8));
      SerialIsPadded(poly, Serial(poly, r, Stream(init)), BitsOf(last, 8));
    }
  }

  // ---- Burst detection ----

  lemma XorOfFlips(r: Word, s: Word, x: bool, y: bool)
    ensures Xor(FlipLowBit(r, x), FlipLowBit(s, y)) == FlipLowBit(Xor(r, s), x != y)
  {}

  lemma {:induction false} SerialLinear(poly: Word, r: Word, s: Word, x: seq<bool>, y: seq<bool>)
    requires |x| == |y|
    ensures Xor(Serial(poly, r, x), Serial(poly, s, y)) == Serial(poly, Xor(r, s), Xor(x, y))
    decreases |x|
  {
    hide Shift;
    if x != [] {
      var a, b := FlipLowBit(r, x[0]), FlipLowBit(s, y[0]);
      SerialLinear(poly, Shift(poly, a), Shift(poly, b), x[1..], y[1..]);
      assert Xor(x, y)[1..] == Xor(x[1..], y[1..]);
      ShiftLinear(poly, a, b);
      XorOfFlips(r, s, x[0], y[0]);
    }
  }

  /** Zero bits keep a zero register zero and a non-zero register non-zero. */
  lemma {:induction false} SerialZeros(poly: Word, r: Word, bits: seq<bool>)
    requires poly[31]
    requires forall k :: 0 <= k < |bits| ==> !bits[k]
    ensures Serial(poly, r, bits) == ZERO <==> r == ZERO
    decreases |bits|
  {
    if bits != [] {
      SerialZeros(poly, Shift(poly, r), bits[1..]);
      assert FlipLowBit(r, false) == r;
      if Shift(poly, r) == ZERO { ShiftKernel(poly, r); }
      assert Shift(poly, ZERO) == ZERO;
    }
  }

  lemma WindowLeavesTrace(poly: Word, window: seq<bool>, k: nat)
    requires poly[31]
    requires |window| <= 32 && k < |window| && window[k]
    ensures Serial(poly, ZERO, window) != ZERO
  {
    SerialIsPadded(poly, ZERO, window);
    var fed := Xor(ZERO, Pad(window));
    assert fed[k];
    if ShiftN(poly, fed, |window|) == ZERO { ShiftNKernel(poly, fed, |window|); }
  }

  /** A register at zero is left non-zero by bits whose ones all lie within 32 consecutive places. */
  lemma BurstLeavesTrace(poly: Word, bits: seq<bool>, p: nat, k: nat)
    requires poly[31]
    requires k < |bits| && bits[k]
    requires forall i :: 0 <= i < |bits| && bits[i] ==> p <= i < p + 32
    ensures Serial(poly, ZERO, bits) != ZERO
  {
    hide Serial;
    var q := if p + 32 <= |bits| then p + 32 else |bits|;
    var window := bits[p..q];
    assert bits == bits[..p] + bits[p..] && bits[p..] == window + bits[q..];
    SerialSplit(poly, ZERO, bits[..p], bits[p..]);
    SerialZeros(poly, ZERO, bits[..p]);
    SerialSplit(poly, ZERO, window, bits[q..]);
    WindowLeavesTrace(poly, window, k - p);
    SerialZeros(poly, Serial(poly, ZERO, window), bits[q..]);
  }

  lemma StreamLast(a: seq<byte>)
    requires a != []
    ensures Stream(a)[..8 * (|a| - 1)] == Stream(a[..|a| - 1])
    ensures Stream(a)[8 * (|a| - 1)..] == BitsOf(a[|a| - 1], 8)
  {
    var n := |a| - 1;
    assert |Stream(a[..n])| == 8 * n;
  }

  lemma {:induction false} StreamInjective(a: seq<byte>, b: seq<byte>)
    requires |a| == |b| && Stream(a) == Stream(b)
    ensures a == b
  {
    hide Stream, BitsOf;
    if a != [] {
      var n := |a| - 1;
      StreamLast(a);
      StreamLast(b);
      StreamInjective(a[..n], b[..n]);
      assert a == a[..n] + [a[n]] && b == b[..n] + [b[n]];
      Pow2Values();
      BitsInjective(a[n], b[n], 8);
    }
  }

  /**
   * CRC-32 detects every error burst of at most 32 bits: two different inputs of one length that
   * differ only inside 32 consecutive bits of the stream never share a checksum.
   */
  lemma BurstDetected(poly: Word, a: seq<byte>, b: seq<byte>, p: nat)
    requires poly[31]
    requires |a| == |b| && a != b
    requires forall k :: 0 <= k < |Stream(a)| && Stream(a)[k] != Stream(b)[k] ==> p <= k < p + 32
    ensures Checksum(poly, a) != Checksum(poly, b)
  {
    var k := DifferenceAt(a, b);
    var d := Xor(Stream(a), Stream(b));
    assert d[k];
    BurstLeavesTrace(poly, d, p, k);
    SerialLinear(poly, ONES, ONES, Stream(a), Stream(b));
    assert Xor(ONES, ONES) == ZERO;
    RegisterIsSerial(poly, ONES, a);
    RegisterIsSerial(poly, ONES, b);
    ComplementsDiffer(Register(poly, ONES, a), Register(poly, ONES, b));
  }

  lemma DifferenceAt(a: seq<byte>, b: seq<byte>) returns (k: nat)
    requires |a| == |b| && a != b
    ensures k < |Stream(a)| && Stream(a)[k] != Stream(b)[k]
  {
    if Stream(a) == Stream(b) { StreamInjective(a, b); }
    k :| k < |Stream(a)| && Stream(a)[k] != Stream(b)[k];
  }

  lemma ComplementsDiffer(x: Word, y: Word)
    requires Xor(x, y) != ZERO
    ensures Value(Not(x)) != Value(Not(y))
  {
    var j :| 0 <= j < 32 && Xor(x, y)[j];
    assert Not(x)[j] != Not(y)[j];
    if Value(Not(x)) == Value(Not(y)) { ValueInjective(Not(x), Not(y)); }
  }

  /** Byte form: damage confined to four consecutive bytes is detected. */
  lemma FourByteDamageDetected(poly: Word, pre: seq<byte>, x: seq<byte>, y: seq<byte>, post: seq<byte>)
    requires poly[31]
    requires |x| == |y| <= 4 && x != y
    ensures Checksum(poly, pre + x + post) != Checksum(poly, pre + y + post)
  {
    hide Stream, Checksum;
    var a, b := pre + x + post, pre + y + post;
    assert a[|pre|..|pre| + |x|] == x && b[|pre|..|pre| + |y|] == y;
    DamageIsBurst(pre, x, y, post);
    BurstDetected(poly, a, b, 8 * |pre|);
  }

  lemma DamageIsBurst(pre: seq<byte>, x: seq<byte>, y: seq<byte>, post: seq<byte>)
    requires |x| == |y| <= 4
    ensures var (a, b) := (Stream(pre + x + post), Stream(pre + y + post));
      |a| == |b| && forall k :: 0 <= k < |a| && a[k] != b[k] ==> 8 * |pre| <= k < 8 * |pre| + 32
  {
    hide Stream;
    StreamConcat(pre + x, post);
    StreamConcat(pre + y, post);
    StreamConcat(pre, x);
    StreamConcat(pre, y);
  }

  lemma {:induction false} StreamConcat(a: seq<byte>, b: seq<byte>)
    ensures Stream(a + b) == Stream(a) + Stream(b)
  {
    hide BitsOf;
    if b == [] {
      assert a + b == a;
    } else {
      assert (a + b)[..|a + b| - 1] == a + b[..|b| - 1];
      StreamConcat(a, b[..|b| - 1]);
    }
  }

  // ---- The IEEE polynomial ----

  const IEEE: Word := BitsOf(0xEDB8_8320, 32)

  lemma {:induction false} TopBit(v: nat, n: nat)
    requires n > 0 && Pow2(n - 1) <= v < Pow2(n)
    ensures BitsOf(v, n)[n - 1]
    decreases n
  {
    if n > 1 { TopBit(v / 2, n - 1); }
  }

  lemma IeeeTopBit()
    ensures IEEE[31]
  {
    Pow2Values();
    TopBit(0xEDB8_8320, 32);
  }

  /** The archive's checksum of `data`. */
  function Crc(data: seq<byte>): (c: nat)
    ensures c < U32_LIMIT
  {
    Checksum(IEEE, data)
  }

  /** The archive's checksum catches any damage confined to 32 consecutive bits of the stream. */
  lemma CrcDetectsBursts(a: seq<byte>, b: seq<byte>, p: nat)
    requires |a| == |b| && a != b
    requires forall k :: 0 <= k < |Stream(a)| && Stream(a)[k] != Stream(b)[k] ==> p <= k < p + 32
    ensures Crc(a) != Crc(b)
  {
    IeeeTopBit();
    BurstDetected(IEEE, a, b, p);
  }

  /** The archive's checksum catches any damage confined to four consecutive bytes. */
  lemma CrcDetectsFourBytes(pre: seq<byte>, x: seq<byte>, y: seq<byte>, post: seq<byte>)
    requires |x| == |y| <= 4 && x != y
    ensures Crc(pre + x + post) != Crc(pre + y + post)
  {
    IeeeTopBit();
    FourByteDamageDetected(IEEE, pre, x, y, post);
  }
}
