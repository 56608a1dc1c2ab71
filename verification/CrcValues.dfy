// The checksum on machine words: its published check value, its residue, and the empty file.
module CrcValues {
  import opened Bytes
  import opened Crc32

  // ---- The register as a machine word ----

  function Half(x: bv32): bv32 { x >> 1 }

  predicate Odd(x: bv32) { x & 1 == 1 }

  function Plus(x: bv32, y: bv32): bv32 { x ^ y }

  lemma PlusParts(x: bv32, y: bv32)
    ensures Half(Plus(x, y)) == Plus(Half(x), Half(y)) && (Odd(Plus(x, y)) <==> Odd(x) != Odd(y))
  {}

  /** The `n` low bits, least significant first. */
  function LowBits(x: bv32, n: nat): (bits: seq<bool>)
    ensures |bits| == n
    decreases n
  {
    if n == 0 then [] else [Odd(x)] + LowBits(Half(x), n - 1)
  }

  function Bits(x: bv32): Word { LowBits(x, 32) }

  const POLY: bv32 := 0xEDB8_8320

  /** One round of the inner loop. */
  function Round(x: bv32): bv32 { if Odd(x) then Plus(Half(x), POLY) else Half(x) }

  lemma {:induction false} PlusLow(x: bv32, y: bv32, n: nat)
    ensures LowBits(Plus(x, y), n) == Xor(LowBits(x, n), LowBits(y, n))
    decreases n
  {
    hide Half, Odd, Plus;
    if n > 0 {
      PlusParts(x, y);
      PlusLow(Half(x), Half(y), n - 1);
    }
  }

  function Halves(x: bv32, n: nat): bv32
    decreases n
  {
    if n == 0 then x else Halves(Half(x), n - 1)
  }

  lemma {:induction false} HighBitClear(x: bv32, n: nat)
    requires !Odd(Halves(x, n))
    ensures LowBits(x, n + 1) == LowBits(x, n) + [false]
    decreases n
  {
    hide Half, Odd;
    if n > 0 {
      HighBitClear(Half(x), n - 1);
    } else {
      assert LowBits(x, 0 + 1) == [Odd(x)] + LowBits(Half(x), 0);
    }
  }

  lemma {:induction false} HalvesSplit(x: bv32, m: nat, n: nat)
    ensures Halves(x, m + n) == Halves(Halves(x, m), n)
    decreases m
  {
    hide Half;
    if m > 0 { HalvesSplit(Half(x), m - 1, n); }
  }

  lemma EightHalves(x: bv32)
    ensures Halves(x, 8) == x >> 8
  {
    hide Half;
    HalvesSplit(x, 4, 4);
    FourHalves(x);
    FourHalves(Halves(x, 4));
    Shifted(x);
  }

  lemma FourHalves(x: bv32)
    ensures Halves(x, 4) == x >> 4
  {
    assert Half(Half(Half(Half(x)))) == x >> 4;
    hide Half;
    assert Halves(x, 4) == Halves(Half(Half(Half(Half(x)))), 0);
  }

  lemma Shifted(x: bv32)
    ensures (x >> 4) >> 4 == x >> 8 && (((x >> 8) >> 8) >> 8) >> 8 == 0
  {}

  /** A word halved thirty-two times is zero. */
  lemma HalfFits(x: bv32)
    ensures !Odd(Halves(Half(x), 31))
  {
    hide Half, Halves;
    var y := Halves(Halves(x, 8), 8);
    HalvesSplit(x, 8, 8);
    HalvesSplit(x, 16, 8);
    HalvesSplit(x, 24, 8);
    EightHalves(x);
    EightHalves(Halves(x, 8));
    EightHalves(y);
    EightHalves(Halves(y, 8));
    Shifted(x);
    OneFewer(x);
  }

  lemma OneFewer(x: bv32)
    ensures Halves(x, 32) == Halves(Half(x), 31)
  {}

  lemma RoundBits(x: bv32)
    ensures Bits(Round(x)) == Shift(Bits(POLY), Bits(x))
  {
    hide LowBits, Shift, Half, Odd, Plus, POLY, Halves;
    HalfFits(x);
    HighBitClear(Half(x), 31);
    FirstBit(x);
    PlusLow(Half(x), POLY, 32);
    ShiftIs(Bits(POLY), Bits(x), Bits(Half(x)));
  }

  lemma FirstBit(x: bv32)
    ensures LowBits(x, 32) == [Odd(x)] + LowBits(Half(x), 31)
  {
    hide Half, Odd;
  }

  lemma ShiftIs(poly: Word, x: Word, half: Word)
    requires half == x[1..] + [false]
    ensures Shift(poly, x) == if x[0] then Xor(half, poly) else half
  {}

  // ---- Literal words ----

  lemma {:induction false} LowBitsSplit(x: bv32, m: nat, n: nat)
    ensures LowBits(x, m + n) == LowBits(x, m) + LowBits(Halves(x, m), n)
    decreases m
  {
    hide Half, Odd;
    if m > 0 { LowBitsSplit(Half(x), m - 1, n); }
  }

  lemma {:induction false} BitsOfSplit(b: nat, rest: nat, m: nat, n: nat)
    requires b < Pow2(m)
    ensures BitsOf(b + Pow2(m) * rest, m + n) == BitsOf(b, m) + BitsOf(rest, n)
    decreases m
  {
    if m > 0 {
      var p := Pow2(m - 1);
      assert Pow2(m) * rest == 2 * (p * rest);
      HalfSum(b, p * rest);
      BitsOfSplit(b / 2, rest, m - 1, n);
    }
  }

  lemma HalfSum(b: nat, k: nat)
    ensures (b + 2 * k) % 2 == b % 2 && (b + 2 * k) / 2 == b / 2 + k
  {}

  /** The word has the byte `b` at its low end. */
  predicate LowByte(x: bv32, b: nat) { SameLow(x, b, 8) }

  predicate SameLow(x: bv32, b: nat, n: nat)
    decreases n
  {
    n > 0 ==> (Odd(x) <==> b % 2 == 1) && SameLow(Half(x), b / 2, n - 1)
  }

  lemma {:induction false} SameBits(x: bv32, b: nat, n: nat)
    requires SameLow(x, b, n)
    ensures LowBits(x, n) == BitsOf(b, n)
    decreases n
  {
    hide Odd, Half;
    if n > 0 { SameBits(Half(x), b / 2, n - 1); }
  }

  function Drop(x: bv32): bv32 { x >> 8 }

  /** A word with these bytes, the lowest first, has the bits of the number they make. */
  lemma FourBytes(x: bv32, b0: nat, b1: nat, b2: nat, b3: nat)
    requires b0 < 256 && b1 < 256 && b2 < 256 && b3 < 256
    requires LowByte(x, b0) && LowByte(Drop(x), b1) && LowByte(Drop(Drop(x)), b2) && LowByte(Drop(Drop(Drop(x))), b3)
    ensures Bits(x) == BitsOf(b0 + 256 * (b1 + 256 * (b2 + 256 * b3)), 32)
  {
    hide LowBits, Halves, BitsOf, Pow2, Drop, SameLow;
    SameBits(x, b0, 8);
    SameBits(Drop(x), b1, 8);
    SameBits(Drop(Drop(x)), b2, 8);
    SameBits(Drop(Drop(Drop(x))), b3, 8);
    DropEight(x);
    DropEight(Drop(x));
    DropEight(Drop(Drop(x)));
    LowBitsSplit(x, 8, 24);
    LowBitsSplit(Drop(x), 8, 16);
    LowBitsSplit(Drop(Drop(x)), 8, 8);
    BytesSplit(b2, b3, 8);
    BytesSplit(b1, b2 + 256 * b3, 16);
    BytesSplit(b0, b1 + 256 * (b2 + 256 * b3), 24);
  }

  lemma DropEight(x: bv32)
    ensures Halves(x, 8) == Drop(x)
  {
    EightHalves(x);
  }

  lemma BytesSplit(b: nat, rest: nat, n: nat)
    requires b < 256
    ensures BitsOf(b + 256 * rest, 8 + n) == BitsOf(b, 8) + BitsOf(rest, n)
  {
    hide BitsOf, Pow2;
    Pow2Values();
    BitsOfSplit(b, rest, 8, n);
  }

  // ---- The register of the writer ----

  /** `n` rounds of the inner loop. */
  function RoundsOf(x: bv32, n: nat): bv32
    decreases n
  {
    if n == 0 then x else RoundsOf(Round(x), n - 1)
  }

  lemma PolyBytes()
    ensures LowByte(0xEDB8_8320, 0x20) && LowByte(0x00ED_B883, 0x83)
    ensures LowByte(0xEDB8, 0xB8) && LowByte(0xED, 0xED)
    ensures Drop(0xEDB8_8320) == 0x00ED_B883 && Drop(0x00ED_B883) == 0xEDB8 && Drop(0xEDB8) == 0xED
  {}

  lemma PolyBits()
    ensures Bits(POLY) == BitsOf(0xEDB8_8320, 32)
  {
    hide Bits, LowByte, Drop, BitsOf;
    PolyBytes();
    FourBytes(0xEDB8_8320, 0x20, 0x83, 0xB8, 0xED);
  }

  lemma PolyIsIeee()
    ensures Bits(POLY) == IEEE
  {
    hide Bits;
    PolyBits();
  }

  lemma {:induction false} RoundsAreShifts(x: bv32, n: nat)
    ensures Bits(RoundsOf(x, n)) == ShiftN(IEEE, Bits(x), n)
    decreases n
  {
    hide Bits, Round, Shift, POLY, IEEE;
    PolyIsIeee();
    if n > 0 {
      RoundBits(x);
      RoundsAreShifts(Round(x), n - 1);
    }
  }

  lemma {:induction false} ZeroBits(n: nat)
    ensures BitsOf(0, n) == Repeat(false, n)
  {
    if n > 0 { ZeroBits(n - 1); }
  }

  lemma ZeroByte()
    ensures LowByte(0, 0) && Drop(0) == 0
  {}

  lemma WidenBits(x: bv32, b: byte)
    requires LowByte(x, b) && Drop(x) == 0
    ensures Bits(x) == Widen(b)
  {
    hide LowBits, LowByte, BitsOf, Drop, Bits;
    ZeroByte();
    FourBytes(x, b, 0, 0, 0);
    BytesSplit(b, 0, 24);
    ZeroBits(24);
  }

  /** A byte fed into the register. */
  lemma ByteFed(w: bv32, x: bv32, b: byte, after: bv32)
    requires LowByte(x, b) && Drop(x) == 0 && RoundsOf(Plus(w, x), 8) == after
    ensures Bits(after) == ShiftN(IEEE, Xor(Bits(w), Widen(b)), 8)
  {
    hide LowBits, LowByte, Drop, Bits, IEEE, Plus, RoundsOf;
    WidenBits(x, b);
    PlusBits(w, x);
    RoundsAreShifts(Plus(w, x), 8);
  }

  lemma PlusBits(x: bv32, y: bv32)
    ensures Bits(Plus(x, y)) == Xor(Bits(x), Bits(y))
  {
    hide Plus, LowBits;
    PlusLow(x, y, 32);
  }

  const START: bv32 := 0xFFFF_FFFF

  lemma StartBytes()
    ensures LowByte(0xFFFF_FFFF, 0xFF) && LowByte(0x00FF_FFFF, 0xFF)
    ensures LowByte(0xFFFF, 0xFF) && LowByte(0xFF, 0xFF)
    ensures Drop(0xFFFF_FFFF) == 0x00FF_FFFF && Drop(0x00FF_FFFF) == 0xFFFF && Drop(0xFFFF) == 0xFF
  {}

  lemma StartBits()
    ensures Bits(START) == BitsOf(0xFFFF_FFFF, 32)
  {
    hide Bits, LowByte, Drop, BitsOf;
    StartBytes();
    FourBytes(0xFFFF_FFFF, 0xFF, 0xFF, 0xFF, 0xFF);
  }

  lemma {:induction false} OnesBits(n: nat)
    ensures Pow2(n) >= 1 && BitsOf(Pow2(n) - 1, n) == Repeat(true, n)
  {
    if n > 0 { OnesBits(n - 1); }
  }

  lemma StartIsOnes()
    ensures Bits(START) == ONES
  {
    hide Bits, BitsOf, Pow2;
    StartBits();
    Pow2Values();
    OnesBits(32);
  }

  lemma FeedOne()
    ensures Bits(0x7C23_1048) == ShiftN(IEEE, Xor(Bits(0xFFFF_FFFF), Widen(0x31)), 8)
  {
    assert RoundsOf(Plus(0xFFFF_FFFF, 0x31), 8) == 0x7C23_1048;
    assert LowByte(0x31, 0x31) && Drop(0x31) == 0;
    hide LowByte, Drop, RoundsOf, Plus, Bits, IEEE;
    ByteFed(0xFFFF_FFFF, 0x31, 0x31, 0x7C23_1048);
  }

  lemma FeedTwo()
    ensures Bits(0xB0AC_BB32) == ShiftN(IEEE, Xor(Bits(0x7C23_1048), Widen(0x32)), 8)
  {
    assert RoundsOf(Plus(0x7C23_1048, 0x32), 8) == 0xB0AC_BB32;
    assert LowByte(0x32, 0x32) && Drop(0x32) == 0;
    hide LowByte, Drop, RoundsOf, Plus, Bits, IEEE;
    ByteFed(0x7C23_1048, 0x32, 0x32, 0xB0AC_BB32);
  }

  lemma FeedThree()
    ensures Bits(0x77B7_9C2D) == ShiftN(IEEE, Xor(Bits(0xB0AC_BB32), Widen(0x33)), 8)
  {
    assert RoundsOf(Plus(0xB0AC_BB32, 0x33), 8) == 0x77B7_9C2D;
    assert LowByte(0x33, 0x33) && Drop(0x33) == 0;
    hide LowByte, Drop, RoundsOf, Plus, Bits, IEEE;
    ByteFed(0xB0AC_BB32, 0x33, 0x33, 0x77B7_9C2D);
  }

  lemma FeedFour()
    ensures Bits(0x641C_1F5C) == ShiftN(IEEE, Xor(Bits(0x77B7_9C2D), Widen(0x34)), 8)
  {
    assert RoundsOf(Plus(0x77B7_9C2D, 0x34), 8) == 0x641C_1F5C;
    assert LowByte(0x34, 0x34) && Drop(0x34) == 0;
    hide LowByte, Drop, RoundsOf, Plus, Bits, IEEE;
    ByteFed(0x77B7_9C2D, 0x34, 0x34, 0x641C_1F5C);
  }

  lemma FeedFive()
    ensures Bits(0x340A_C5E3) == ShiftN(IEEE, Xor(Bits(0x641C_1F5C), Widen(0x35)), 8)
  {
    assert RoundsOf(Plus(0x641C_1F5C, 0x35), 8) == 0x340A_C5E3;
    assert LowByte(0x35, 0x35) && Drop(0x35) == 0;
    hide LowByte, Drop, RoundsOf, Plus, Bits, IEEE;
    ByteFed(0x641C_1F5C, 0x35, 0x35, 0x340A_C5E3);
  }

  lemma FeedSix()
    ensures Bits(0xF68D_2C9E) == ShiftN(IEEE, Xor(Bits(0x340A_C5E3), Widen(0x36)), 8)
  {
    assert RoundsOf(Plus(0x340A_C5E3, 0x36), 8) == 0xF68D_2C9E;
    assert LowByte(0x36, 0x36) && Drop(0x36) == 0;
    hide LowByte, Drop, RoundsOf, Plus, Bits, IEEE;
    ByteFed(0x340A_C5E3, 0x36, 0x36, 0xF68D_2C9E);
  }

  lemma FeedSeven()
    ensures Bits(0xAFFC_9660) == ShiftN(IEEE, Xor(Bits(0xF68D_2C9E), Widen(0x37)), 8)
  {
    assert RoundsOf(Plus(0xF68D_2C9E, 0x37), 8) == 0xAFFC_9660;
    assert LowByte(0x37, 0x37) && Drop(0x37) == 0;
    hide LowByte, Drop, RoundsOf, Plus, Bits, IEEE;
    ByteFed(0xF68D_2C9E, 0x37, 0x37, 0xAFFC_9660);
  }

  lemma FeedEight()
    ensures Bits(0x651F_2550) == ShiftN(IEEE, Xor(Bits(0xAFFC_9660), Widen(0x38)), 8)
  {
    assert RoundsOf(Plus(0xAFFC_9660, 0x38), 8) == 0x651F_2550;
    assert LowByte(0x38, 0x38) && Drop(0x38) == 0;
    hide LowByte, Drop, RoundsOf, Plus, Bits, IEEE;
    ByteFed(0xAFFC_9660, 0x38, 0x38, 0x651F_2550);
  }

  lemma FeedNine()
    ensures Bits(0x340B_C6D9) == ShiftN(IEEE, Xor(Bits(0x651F_2550), Widen(0x39)), 8)
  {
    assert RoundsOf(Plus(0x651F_2550, 0x39), 8) == 0x340B_C6D9;
    assert LowByte(0x39, 0x39) && Drop(0x39) == 0;
    hide LowByte, Drop, RoundsOf, Plus, Bits, IEEE;
    ByteFed(0x651F_2550, 0x39, 0x39, 0x340B_C6D9);
  }

  lemma CheckLowBytes()
    ensures LowByte(0xCBF4_3926, 0x26) && LowByte(0x00CB_F439, 0x39)
  {}

  lemma CheckBytes()
    ensures LowByte(0xCBF4, 0xF4) && LowByte(0xCB, 0xCB)
    ensures Drop(0xCBF4_3926) == 0x00CB_F439 && Drop(0x00CB_F439) == 0xCBF4 && Drop(0xCBF4) == 0xCB
  {}

  lemma CheckBits()
    ensures Bits(0xCBF4_3926) == BitsOf(0xCBF4_3926, 32)
  {
    hide Bits, LowByte, Drop, BitsOf;
    CheckLowBytes();
    CheckBytes();
    FourBytes(0xCBF4_3926, 0x26, 0x39, 0xF4, 0xCB);
  }

  // ---- What the checksum is ----

  lemma {:induction false} ValueOfBits(v: nat, n: nat)
    requires v < Pow2(n)
    ensures Value(BitsOf(v, n)) == v
    decreases n
  {
    if n > 0 { ValueOfBits(v / 2, n - 1); }
  }

  lemma {:induction false} BitsOfValue(bits: seq<bool>)
    ensures BitsOf(Value(bits), |bits|) == bits
  {
    if bits != [] { BitsOfValue(bits[1..]); }
  }

  /** The digits `1` to `9`, on which CRC catalogues give the check value. */
  const DIGITS: seq<byte> := [0x31, 0x32, 0x33, 0x34, 0x35, 0x36, 0x37, 0x38, 0x39]

  lemma DigitsFed()
    ensures Register(IEEE, ONES, DIGITS) == Bits(0x340B_C6D9)
  {
    hide Bits, ShiftN, Widen, Register, IEEE;
    assert DIGITS[..0] == [] && DIGITS[..9] == DIGITS;
    StartIsOnes();
    NothingFed();
    RegisterStep(IEEE, ONES, DIGITS, 0);
    FeedOne();
    RegisterStep(IEEE, ONES, DIGITS, 1);
    FeedTwo();
    RegisterStep(IEEE, ONES, DIGITS, 2);
    FeedThree();
    RegisterStep(IEEE, ONES, DIGITS, 3);
    FeedFour();
    RegisterStep(IEEE, ONES, DIGITS, 4);
    FeedFive();
    RegisterStep(IEEE, ONES, DIGITS, 5);
    FeedSix();
    RegisterStep(IEEE, ONES, DIGITS, 6);
    FeedSeven();
    RegisterStep(IEEE, ONES, DIGITS, 7);
    FeedEight();
    RegisterStep(IEEE, ONES, DIGITS, 8);
    FeedNine();
  }

  lemma NothingFed()
    ensures Register(IEEE, ONES, []) == ONES
  {}

  lemma Complemented(r: Word)
    ensures Not(r) == Xor(r, ONES)
  {}

  /** The check value of CRC-32: the checksum of the digits `1` to `9` is 0xCBF43926. */
  lemma CheckValue()
    ensures Crc(DIGITS) == 0xCBF4_3926
  {
    assert Plus(0x340B_C6D9, START) == 0xCBF4_3926;
    hide Bits, Register, IEEE, DIGITS, BitsOf, Value, Plus, START;
    DigitsFed();
    StartIsOnes();
    Complemented(Bits(0x340B_C6D9));
    PlusBits(0x340B_C6D9, START);
    CheckBits();
    Pow2Values();
    ValueOfBits(0xCBF4_3926, 32);
  }

  /** The checksum of no bytes is zero. */
  lemma EmptyCrc()
    ensures Crc([]) == 0
  {
    hide IEEE, Value;
    NothingFed();
    AllFalse(Not(ONES));
  }

  lemma {:induction false} AllFalse(bits: seq<bool>)
    requires forall k :: 0 <= k < |bits| ==> !bits[k]
    ensures Value(bits) == 0
  {
    if bits != [] { AllFalse(bits[1..]); }
  }

  // ---- The residue ----

  lemma {:induction false} StreamOfLe(n: nat, width: nat)
    ensures Stream(Le(n, width)) == BitsOf(n, 8 * width)
    decreases width
  {
    hide BitsOf, Stream, Pow2;
    if width == 0 {
      NoStream(n);
    } else {
      StreamOfLe(n / 256, width - 1);
      StreamConcat([n % 256], Le(n / 256, width - 1));
      OneByte(n % 256);
      BytesSplit(n % 256, n / 256, 8 * (width - 1));
    }
  }

  lemma NoStream(n: nat)
    ensures Stream([]) == [] == BitsOf(n, 0)
  {}

  lemma OneByte(b: byte)
    ensures Stream([b]) == BitsOf(b, 8)
  {
    assert [b][..0] == [];
  }

  /** What the register always holds after data and its checksum. */
  const RESIDUE: Word := ShiftN(IEEE, ONES, 32)

  /** Data followed by its checksum, least byte first, leaves the same residue in the register whatever the data. */
  lemma ResidueIs(data: seq<byte>)
    ensures Register(IEEE, ONES, data + Le(Crc(data), 4)) == RESIDUE
  {
    hide Register, Serial, Stream, Value, BitsOf, IEEE, ShiftN, RESIDUE, Le;
    var r, tail := Register(IEEE, ONES, data), Le(Crc(data), 4);
    RegisterIsSerial(IEEE, ONES, data);
    RegisterIsSerial(IEEE, ONES, data + tail);
    StreamConcat(data, tail);
    SerialSplit(IEEE, ONES, Stream(data), Stream(tail));
    StreamOfLe(Crc(data), 4);
    BitsOfValue(Not(r));
    SerialIsPadded(IEEE, r, Not(r));
    Filled(r);
    ResidueText();
  }

  lemma ResidueText()
    ensures RESIDUE == ShiftN(IEEE, ONES, 32)
  {}

  lemma Filled(r: Word)
    ensures Xor(r, Pad(Not(r))) == ONES
  {}

  /** And only its checksum does: the residue, the start and the polynomial fix the checksum of all data. */
  lemma ResidueIff(data: seq<byte>, c: nat)
    requires c < U32_LIMIT
    ensures Register(IEEE, ONES, data + Le(c, 4)) == RESIDUE <==> c == Crc(data)
  {
    hide Register, IEEE, RESIDUE, Le, Value;
    ResidueIs(data);
    assert data + Le(c, 4) + [] == data + Le(c, 4) && data + Le(Crc(data), 4) + [] == data + Le(Crc(data), 4);
    if c != Crc(data) {
      LeDiffers(c, Crc(data));
      CrcDetectsFourBytes(data, Le(c, 4), Le(Crc(data), 4), []);
    }
  }

  lemma LeDiffers(a: nat, b: nat)
    requires a < U32_LIMIT && b < U32_LIMIT && a != b
    ensures Le(a, 4) != Le(b, 4)
  {
    hide Le;
    Limits();
    LeRoundTrip(a, 4);
    LeRoundTrip(b, 4);
  }
}
