/**
 Which polynomial the firmware's CRC-32 divides by, and what it computes on a
 message whose CRC is known. Words are compared with numbers digit by digit, and
 the known value is run on machine words.
 */
module Crc32Values {
  import opened Arithmetic
  import opened Crc32

  // ----- Hexadecimal digits -----

  type Digit = d: nat | d < 16

  /** The number with these digits, lowest first. */
  function FromDigits(digits: seq<Digit>): nat {
    if digits == [] then 0 else digits[0] + 16 * FromDigits(digits[1..])
  }

  function DigitBits(d: Digit): (bits: seq<bool>)
    ensures |bits| == 4
  {
    [d % 2 == 1, d / 2 % 2 == 1, d / 4 % 2 == 1, d / 8 % 2 == 1]
  }

  function AllBits(digits: seq<Digit>): (bits: seq<bool>)
    ensures |bits| == 4 * |digits|
  {
    if digits == [] then [] else DigitBits(digits[0]) + AllBits(digits[1..])
  }

  lemma BitsStep(v: nat, n: nat)
    requires n > 0
    ensures ToBits(v, n) == [v % 2 == 1] + ToBits(v / 2, n - 1)
  {
  }

  lemma FourBits(a: bool, b: bool, c: bool, d: bool, rest: seq<bool>)
    ensures [a] + ([b] + ([c] + ([d] + rest))) == [a, b, c, d] + rest
  {
  }

  lemma Halve(v: nat, low: nat, high: nat)
    requires v == low + 2 * high && low < 2
    ensures v % 2 == low && v / 2 == high
  {
  }

  lemma LowDigit(v: nat, d: Digit, high: nat)
    requires v == d + 16 * high
    ensures v % 2 == d % 2 && v / 2 % 2 == d / 2 % 2 && v / 2 / 2 % 2 == d / 4 % 2 && v / 2 / 2 / 2 % 2 == d / 8 % 2
    ensures v / 2 / 2 / 2 / 2 == high
  {
    Halve(v, d % 2, d / 2 + 8 * high);
    Halve(v / 2, d / 2 % 2, d / 4 + 4 * high);
    Halve(v / 2 / 2, d / 4 % 2, d / 8 + 2 * high);
    Halve(v / 2 / 2 / 2, d / 8, high);
  }

  lemma DigitStep(v: nat, d: Digit, high: nat, n: nat)
    requires v == d + 16 * high && n >= 4
    ensures ToBits(v, n) == DigitBits(d) + ToBits(high, n - 4)
  {
    LowDigit(v, d, high);
    BitsStep(v, n);
    BitsStep(v / 2, n - 1);
    BitsStep(v / 2 / 2, n - 2);
    BitsStep(v / 2 / 2 / 2, n - 3);
    FourBits(d % 2 == 1, d / 2 % 2 == 1, d / 4 % 2 == 1, d / 8 % 2 == 1, ToBits(high, n - 4));
  }

  lemma {:induction false} DigitsExact(digits: seq<Digit>, n: nat)
    requires n == 4 * |digits|
    ensures ToBits(FromDigits(digits), n) == AllBits(digits)
    decreases digits
  {
    if digits != [] {
      DigitStep(FromDigits(digits), digits[0], FromDigits(digits[1..]), n);
      DigitsExact(digits[1..], n - 4);
    }
  }

  lemma {:induction false} BitOfDigits(digits: seq<Digit>, i: nat)
    requires i < 4 * |digits|
    ensures AllBits(digits)[i] == DigitBits(digits[i / 4])[i % 4]
    decreases digits
  {
    if i >= 4 {
      BitOfDigits(digits[1..], i - 4);
    }
  }

  lemma EightDigits(d0: Digit, d1: Digit, d2: Digit, d3: Digit, d4: Digit, d5: Digit, d6: Digit, d7: Digit)
    ensures FromDigits([d0, d1, d2, d3, d4, d5, d6, d7]) ==
            d0 + 0x10 * d1 + 0x100 * d2 + 0x1000 * d3 + 0x1_0000 * d4 + 0x10_0000 * d5 + 0x100_0000 * d6 + 0x1000_0000 * d7
  {
    var digits: seq<Digit> := [d0, d1, d2, d3, d4, d5, d6, d7];
    assert forall k {:trigger digits[k..]} :: 0 <= k < 8 ==> digits[k..][1..] == digits[k + 1..];
    assert FromDigits(digits[8..]) == 0;
    assert FromDigits(digits[7..]) == d7;
    assert FromDigits(digits[6..]) == d6 + 0x10 * d7;
    assert FromDigits(digits[5..]) == d5 + 0x10 * d6 + 0x100 * d7;
    assert FromDigits(digits[4..]) == d4 + 0x10 * d5 + 0x100 * d6 + 0x1000 * d7;
    assert FromDigits(digits[3..]) == d3 + 0x10 * d4 + 0x100 * d5 + 0x1000 * d6 + 0x1_0000 * d7;
    assert FromDigits(digits[2..]) == d2 + 0x10 * d3 + 0x100 * d4 + 0x1000 * d5 + 0x1_0000 * d6 + 0x10_0000 * d7;
    assert FromDigits(digits[1..]) == d1 + 0x10 * FromDigits(digits[2..]);
    assert digits[0..] == digits;
  }

  // ----- The polynomial -----

  /** Lowest digit first. */
  function PolyDigits(): (digits: seq<Digit>)
    ensures |digits| == 8
  {
    [0, 2, 3, 8, 8, 0xB, 0xD, 0xE]
  }

  lemma PolyValue()
    ensures FromDigits(PolyDigits()) == 0xEDB8_8320
  {
    EightDigits(0, 2, 3, 8, 8, 0xB, 0xD, 0xE);
  }

  lemma WordOfDigits(digits: seq<Digit>, v: nat)
    requires |digits| == 8 && v == FromDigits(digits)
    ensures ToWord(v) == AllBits(digits)
  {
    DigitsExact(digits, |ZERO|);
  }

  lemma IeeeDigits()
    ensures Ieee() == AllBits(PolyDigits())
  {
    PolyValue();
    WordOfDigits(PolyDigits(), 0xEDB8_8320);
  }

  /**
   The generator of IEEE 802.3, by its exponents below 32: the coefficient of
   `x^e` is bit `31 - e`.
   */
  lemma IeeeExponents(e: nat)
    requires e < 32
    ensures Ieee()[31 - e] <==> e in {0, 1, 2, 4, 5, 7, 8, 10, 11, 12, 16, 22, 23, 26}
  {
    IeeeDigits();
    BitOfDigits(PolyDigits(), 31 - e);
    PolyBit((31 - e) / 4, (31 - e) % 4, e);
  }

  lemma PolyBit(k: nat, j: nat, e: int)
    requires k < 8 && j < 4 && 4 * k + j == 31 - e
    ensures DigitBits(PolyDigits()[k])[j] <==> e in {0, 1, 2, 4, 5, 7, 8, 10, 11, 12, 16, 22, 23, 26}
  {
    assert DigitBits(0) == [false, false, false, false];
    assert DigitBits(2) == [false, true, false, false];
    assert DigitBits(3) == [true, true, false, false];
    assert DigitBits(8) == [false, false, false, true];
    assert DigitBits(0xB) == [true, true, false, true];
    assert DigitBits(0xD) == [true, false, true, true];
    assert DigitBits(0xE) == [false, true, true, true];
  }

  // ----- Machine words -----

  function Low(v: bv32): bool {
    v & 1 == 1
  }

  function WordBits(v: bv32, n: nat): (bits: seq<bool>)
    ensures |bits| == n
    decreases n
  {
    if n == 0 then [] else [Low(v)] + WordBits(v >> 1, n - 1)
  }

  function OfWord(v: bv32): Word {
    WordBits(v, |ZERO|)
  }

  lemma LowXor(v: bv32, w: bv32)
    ensures Low(v ^ w) == (Low(v) != Low(w)) && (v ^ w) >> 1 == (v >> 1) ^ (w >> 1)
  {
  }

  lemma XorBitsCons(a: bool, b: bool, u: seq<bool>, v: seq<bool>)
    requires |u| == |v|
    ensures XorBits([a] + u, [b] + v) == [a != b] + XorBits(u, v)
  {
  }

  lemma XorStep(v: bv32, w: bv32, x: bv32, v': bv32, w': bv32, x': bv32, n: nat)
    requires Low(x) == (Low(v) != Low(w)) && v' == v >> 1 && w' == w >> 1 && x' == x >> 1
    requires WordBits(x', n) == XorBits(WordBits(v', n), WordBits(w', n))
    ensures WordBits(x, n + 1) == XorBits(WordBits(v, n + 1), WordBits(w, n + 1))
  {
    XorBitsCons(Low(v), Low(w), WordBits(v', n), WordBits(w', n));
  }

  lemma {:induction false} WordBitsXor(v: bv32, w: bv32, x: bv32, n: nat)
    requires x == v ^ w
    ensures WordBits(x, n) == XorBits(WordBits(v, n), WordBits(w, n))
    decreases n
  {
    if n > 0 {
      LowXor(v, w);
      WordBitsXor(v >> 1, w >> 1, x >> 1, n - 1);
      XorStep(v, w, x, v >> 1, w >> 1, x >> 1, n - 1);
    }
  }

  lemma OfWordXor(v: bv32, w: bv32)
    ensures OfWord(v ^ w) == Xor(OfWord(v), OfWord(w))
  {
    WordBitsXor(v, w, v ^ w, |ZERO|);
  }

  /** Nothing is left of `v` after `n` shifts. */
  predicate Within(v: bv32, n: nat)
    decreases n
  {
    if n == 0 then v == 0 else Within(v >> 1, n - 1)
  }

  lemma {:induction false} WordBitsLonger(v: bv32, n: nat)
    requires Within(v, n)
    ensures WordBits(v, n + 1) == WordBits(v, n) + [false]
    decreases n
  {
    if n > 0 {
      WordBitsLonger(v >> 1, n - 1);
    }
  }

  lemma MaskShift(v: bv32, mask: bv32)
    requires v & mask == v
    ensures (v >> 1) & (mask >> 1) == v >> 1 && (mask == 0 ==> v == 0)
  {
  }

  lemma {:induction false} MaskedWithin(v: bv32, mask: bv32, n: nat)
    requires v & mask == v && Within(mask, n)
    ensures Within(v, n)
    decreases n
  {
    MaskShift(v, mask);
    if n > 0 {
      MaskedWithin(v >> 1, mask >> 1, n - 1);
    }
  }

  lemma HalfWithin(v: bv32)
    ensures Within(v >> 1, 31)
  {
    assert Within(0x7F, 7);
    assert Within(0x7FFF, 15);
    assert Within(0x7F_FFFF, 23);
    assert Within(0x7FFF_FFFF, 31);
    assert (v >> 1) & 0x7FFF_FFFF == v >> 1;
    MaskedWithin(v >> 1, 0x7FFF_FFFF, 31);
  }

  lemma OfWordShift(v: bv32, n: nat)
    requires n == |ZERO|
    ensures OfWord(v)[0] == Low(v) && ShiftRight(OfWord(v), 1) == OfWord(v >> 1)
  {
    HalfWithin(v);
    WordBitsLonger(v >> 1, n - 1);
    assert WordBits(v, n)[1..] == WordBits(v >> 1, n - 1);
    assert Zeros(1) == [false];
  }

  lemma WordBitsStep(v: bv32, n: nat)
    requires n > 0
    ensures WordBits(v, n) == [Low(v)] + WordBits(v >> 1, n - 1)
  {
  }

  /** The machine word and the number have the same `n` low bits. */
  predicate Agree(v: bv32, m: nat, n: nat)
    decreases n
  {
    n == 0 || (Low(v) == (m % 2 == 1) && Agree(v >> 1, m / 2, n - 1))
  }

  lemma {:induction false} AgreeBits(v: bv32, m: nat, n: nat)
    requires Agree(v, m, n)
    ensures WordBits(v, n) == ToBits(m, n)
    decreases n
  {
    if n > 0 {
      AgreeBits(v >> 1, m / 2, n - 1);
    }
  }

  // ----- The register on machine words -----

  /** One division. */
  function Next(x: bv32): bv32 {
    if Low(x) then (x >> 1) ^ 0xEDB8_8320 else x >> 1
  }

  function NextN(x: bv32, n: nat): bv32
    decreases n
  {
    if n == 0 then x else NextN(Next(x), n - 1)
  }

  lemma PolyWord()
    ensures OfWord(0xEDB8_8320) == Ieee()
  {
    assert Agree(0xED, 0xED, 8);
    assert Agree(0xEDB8, 0xEDB8, 16);
    assert Agree(0xED_B883, 0xED_B883, 24);
    assert Agree(0xEDB8_8320, 0xEDB8_8320, 32);
    AgreeBits(0xEDB8_8320, 0xEDB8_8320, |ZERO|);
  }

  lemma NextExact(x: bv32)
    ensures OfWord(Next(x)) == Shift(Ieee(), OfWord(x))
  {
    OfWordShift(x, |ZERO|);
    PolyWord();
    OfWordXor(x >> 1, 0xEDB8_8320);
  }

  lemma NextNStep(x: bv32, y: bv32, n: nat)
    requires y == Next(x) && n > 0
    ensures NextN(x, n) == NextN(y, n - 1)
  {
  }

  lemma ShiftNStep(g: Generator, s: Word, n: nat)
    requires n > 0
    ensures ShiftN(g, s, n) == ShiftN(g, Shift(g, s), n - 1)
  {
  }

  lemma {:induction false} NextNExact(x: bv32, n: nat, z: bv32)
    requires z == NextN(x, n)
    ensures OfWord(z) == ShiftN(Ieee(), OfWord(x), n)
    decreases n
  {
    if n > 0 {
      var y := Next(x);
      NextNStep(x, y, n);
      NextNExact(y, n - 1, z);
      NextExact(x);
      ShiftNStep(Ieee(), OfWord(x), n);
    }
  }

  /** The `n` low bits of `v` are all set. */
  predicate AllLow(v: bv32, n: nat)
    decreases n
  {
    n == 0 || (Low(v) && AllLow(v >> 1, n - 1))
  }

  lemma {:induction false} AllLowBits(v: bv32, n: nat, i: nat)
    requires AllLow(v, n) && i < n
    ensures WordBits(v, n)[i]
    decreases n
  {
    if i > 0 {
      AllLowBits(v >> 1, n - 1, i - 1);
    }
  }

  lemma OnesWord()
    ensures OfWord(0xFFFF_FFFF) == ONES
  {
    assert AllLow(0xFF, 8);
    assert AllLow(0xFFFF, 16);
    assert AllLow(0xFF_FFFF, 24);
    assert AllLow(0xFFFF_FFFF, 32);
    forall i | 0 <= i < 32
      ensures OfWord(0xFFFF_FFFF)[i]
    {
      AllLowBits(0xFFFF_FFFF, |ZERO|, i);
    }
  }

  lemma ComplementWord(v: bv32)
    ensures Complement(OfWord(v)) == OfWord(v ^ 0xFFFF_FFFF)
  {
    OnesWord();
    OfWordXor(v, 0xFFFF_FFFF);
  }

  // ----- A known value -----

  lemma KnownStep0()
    ensures NextN(0xFFFF_FFFF, 8) == 0x2DFD_1072
  {
  }

  lemma KnownStep1()
    ensures NextN(0x2DFD_1073, 8) == 0xC921_DD96
  {
  }

  lemma KnownStep2()
    ensures NextN(0xC921_DD94, 8) == 0xF7AB_7680
  {
  }

  lemma KnownStep3()
    ensures NextN(0xF7AB_7683, 8) == 0x7446_79EC
  {
  }

  /** A byte mixed into the register, then eight divisions. */
  lemma ByteFeeds(v: bv32, w: bv32, b: Byte, x: bv32)
    requires x == v ^ w && Agree(w, b as nat, 32)
    ensures Feed(Ieee(), OfWord(v), ByteBits(b)) == OfWord(NextN(x, |Zeros(8)|))
  {
    FeedIsShift(Ieee(), OfWord(v), ByteBits(b));
    AgreeBits(w, b as nat, |ZERO|);
    BytePack(b);
    OfWordXor(v, w);
    NextNExact(x, |Zeros(8)|, NextN(x, |Zeros(8)|));
  }

  lemma BytePack(b: Byte)
    ensures Pack(ByteBits(b)) == ToWord(b as nat)
  {
    assert Pow2(|Zeros(8)|) == 256;
    ToNatToBits(b as nat, |Zeros(8)|);
    ToBitsWiden(ByteBits(b), |ZERO|);
  }

  lemma SmallWords()
    ensures Agree(0, 0, 32) && Agree(1, 1, 32) && Agree(2, 2, 32) && Agree(3, 3, 32)
  {
    assert Agree(0, 0, 8);
    assert Agree(0, 0, 16);
    assert Agree(0, 0, 24);
    assert Agree(0, 0, 30);
  }

  lemma KnownFeed()
    ensures Feed(Ieee(), OfWord(0xFFFF_FFFF), ByteBits(0)) == OfWord(0x2DFD_1072)
    ensures Feed(Ieee(), OfWord(0x2DFD_1072), ByteBits(1)) == OfWord(0xC921_DD96)
    ensures Feed(Ieee(), OfWord(0xC921_DD96), ByteBits(2)) == OfWord(0xF7AB_7680)
    ensures Feed(Ieee(), OfWord(0xF7AB_7680), ByteBits(3)) == OfWord(0x7446_79EC)
  {
    SmallWords();
    KnownStep0();
    KnownStep1();
    KnownStep2();
    KnownStep3();
    ByteFeeds(0xFFFF_FFFF, 0, 0, 0xFFFF_FFFF);
    ByteFeeds(0x2DFD_1072, 1, 1, 0x2DFD_1073);
    ByteFeeds(0xC921_DD96, 2, 2, 0xC921_DD94);
    ByteFeeds(0xF7AB_7680, 3, 3, 0xF7AB_7683);
  }

  lemma FeedFour(g: Generator, s: Word, a: seq<bool>, b: seq<bool>, c: seq<bool>, d: seq<bool>)
    ensures Feed(g, s, a + (b + (c + d))) == Feed(g, Feed(g, Feed(g, Feed(g, s, a), b), c), d)
  {
    FeedConcat(g, s, a, b + (c + d));
    FeedConcat(g, Feed(g, s, a), b, c + d);
    FeedConcat(g, Feed(g, Feed(g, s, a), b), c, d);
  }

  lemma BitsOfFour(a: Byte, b: Byte, c: Byte, d: Byte)
    ensures Bits([a, b, c, d]) == ByteBits(a) + (ByteBits(b) + (ByteBits(c) + ByteBits(d)))
  {
    assert [a, b, c, d] == [a] + ([b] + ([c] + [d]));
    BitsOfOne(a);
    BitsOfOne(b);
    BitsOfOne(c);
    BitsOfOne(d);
    BitsConcat([a], [b] + ([c] + [d]));
    BitsConcat([b], [c] + [d]);
    BitsConcat([c], [d]);
  }

  lemma BitsOfOne(a: Byte)
    ensures Bits([a]) == ByteBits(a)
  {
    assert [a][1..] == [];
    assert Bits([]) == [];
  }

  lemma KnownWord()
    ensures OfWord(0x8BB9_8613) == ToWord(0x8BB9_8613)
  {
    assert Agree(0x8B, 0x8B, 8);
    assert Agree(0x8BB9, 0x8BB9, 16);
    assert Agree(0x8B_B986, 0x8B_B986, 24);
    assert Agree(0x8BB9_8613, 0x8BB9_8613, 32);
    AgreeBits(0x8BB9_8613, 0x8BB9_8613, |ZERO|);
  }

  /** The CRC-32 of the bytes 0, 1, 2, 3. */
  lemma KnownValue()
    ensures Reference(Ieee(), [0, 1, 2, 3]) == ToWord(0x8BB9_8613)
  {
    OnesWord();
    BitsOfFour(0, 1, 2, 3);
    FeedFour(Ieee(), ONES, ByteBits(0), ByteBits(1), ByteBits(2), ByteBits(3));
    KnownFeed();
    ComplementWord(0x7446_79EC);
    KnownWord();
  }
}
