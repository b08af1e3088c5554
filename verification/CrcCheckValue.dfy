/** The known checksum of the nine digits, computed on machine words. */
module CrcCheckValue {
  import opened Bytes
  import opened Crc32
  import opened CrcPolynomial

  function Mask(i: nat): bv32 {
    match i
    case 0 => 0x1 case 1 => 0x2 case 2 => 0x4 case 3 => 0x8
    case 4 => 0x10 case 5 => 0x20 case 6 => 0x40 case 7 => 0x80
    case 8 => 0x100 case 9 => 0x200 case 10 => 0x400 case 11 => 0x800
    case 12 => 0x1000 case 13 => 0x2000 case 14 => 0x4000 case 15 => 0x8000
    case 16 => 0x10000 case 17 => 0x20000 case 18 => 0x40000 case 19 => 0x80000
    case 20 => 0x100000 case 21 => 0x200000 case 22 => 0x400000 case 23 => 0x800000
    case 24 => 0x1000000 case 25 => 0x2000000 case 26 => 0x4000000 case 27 => 0x8000000
    case 28 => 0x10000000 case 29 => 0x20000000 case 30 => 0x40000000 case _ => 0x80000000
  }

  predicate OneBit(m: bv32) {
    m != 0 && m & (m - 1) == 0
  }

  lemma MaskOneBit(i: nat)
    requires i < 32
    ensures OneBit(Mask(i))
  {
  }

  lemma LowMaskShift(i: nat)
    requires i < 16
    ensures Mask(i) << 1 == Mask(i + 1)
  {
  }

  lemma HighMaskShift(i: nat)
    requires 16 <= i < 32
    ensures Mask(i) << 1 == if i < 31 then Mask(i + 1) else 0
  {
  }

  lemma MaskShift(i: nat)
    requires i < 32
    ensures Mask(i) << 1 == if i < 31 then Mask(i + 1) else 0
  {
    hide Mask;
    if i < 16 {
      LowMaskShift(i);
    } else {
      HighMaskShift(i);
    }
  }

  predicate Test(v: bv32, m: bv32) {
    v & m != 0
  }

  lemma XorBit(v: bv32, w: bv32, m: bv32)
    requires OneBit(m)
    ensures Test(v ^ w, m) == (Test(v, m) != Test(w, m))
  {
  }

  lemma ShiftBit(v: bv32, m: bv32, up: bv32)
    requires up == m << 1
    ensures Test(v >> 1, m) == Test(v, up)
    ensures !Test(v, 0)
  {
  }

  predicate Bit(v: bv32, i: nat) {
    Test(v, Mask(i))
  }

  /** The register holds the bits of the word. */
  predicate Agrees(c: Register, v: bv32) {
    forall i | 0 <= i < 32 :: c[i] == Bit(v, i)
  }

  lemma XorBitAt(v: bv32, w: bv32, i: nat)
    requires i < 32
    ensures Bit(v ^ w, i) == (Bit(v, i) != Bit(w, i))
  {
    hide Mask, OneBit, Test;
    MaskOneBit(i);
    XorBit(v, w, Mask(i));
  }

  lemma XorAgrees(c: Register, d: Register, v: bv32, w: bv32)
    requires Agrees(c, v) && Agrees(d, w)
    ensures Agrees(Xor(c, d), v ^ w)
  {
    hide Bit;
    forall i | 0 <= i < 32 ensures Xor(c, d)[i] == Bit(v ^ w, i) {
      XorBitAt(v, w, i);
    }
  }

  function WordRound(v: bv32): bv32 {
    if Bit(v, 0) then (v >> 1) ^ 0xEDB88320 else v >> 1
  }

  function WordRounds(v: bv32, n: nat): bv32
    decreases n
  {
    if n == 0 then v else WordRounds(WordRound(v), n - 1)
  }

  lemma LowPolynomial(i: nat)
    requires i < 16
    ensures POLYNOMIAL[i] == Bit(0xEDB88320, i)
  {
    hide Bits;
    BitsNibble(0xEDB88320, 28);
    BitsNibble(0xEDB8832, 24);
    BitsNibble(0xEDB883, 20);
    BitsNibble(0xEDB88, 16);
  }

  lemma HighPolynomial(i: nat)
    requires i < 16
    ensures POLYNOMIAL[16 + i] == Bit(0xEDB88320, 16 + i)
  {
    hide Bits;
    UpperBits(0xEDB88320, i);
    BitsNibble(0xEDB8, 12);
    BitsNibble(0xEDB, 8);
    BitsNibble(0xED, 4);
    BitsNibble(0xE, 0);
  }

  lemma PolynomialAgrees()
    ensures Agrees(POLYNOMIAL, 0xEDB88320)
  {
    hide Bits, Bit;
    forall i | 0 <= i < 32 ensures POLYNOMIAL[i] == Bit(0xEDB88320, i) {
      if i < 16 {
        LowPolynomial(i);
      } else {
        HighPolynomial(i - 16);
      }
    }
  }

  lemma ShiftBitAt(v: bv32, i: nat)
    requires i < 32
    ensures Bit(v >> 1, i) == (i < 31 && Bit(v, i + 1))
  {
    hide Mask, Test;
    var up := if i < 31 then Mask(i + 1) else 0;
    assert up == Mask(i) << 1 by { MaskShift(i); }
    ShiftBit(v, Mask(i), up);
  }

  lemma ShiftAgrees(c: Register, v: bv32)
    requires Agrees(c, v)
    ensures Agrees(c[1..] + [false], v >> 1)
  {
    hide Bit;
    forall i | 0 <= i < 32 ensures (c[1..] + [false])[i] == Bit(v >> 1, i) {
      ShiftBitAt(v, i);
    }
  }

  lemma RoundAgrees(c: Register, v: bv32)
    requires Agrees(c, v)
    ensures Agrees(RoundBy(POLYNOMIAL, c), WordRound(v))
  {
    hide Bits, Mask, Bit;
    PolynomialAgrees();
    ShiftAgrees(c, v);
    XorAgrees(c[1..] + [false], POLYNOMIAL, v >> 1, 0xEDB88320);
  }

  lemma {:induction false} RoundsAgree(c: Register, v: bv32, n: nat)
    requires Agrees(c, v)
    ensures Agrees(Rounds(c, n), WordRounds(v, n))
    decreases n
  {
    hide Agrees, RoundBy, WordRound, Bits;
    if n > 0 {
      RoundAgrees(c, v);
      RoundsAgree(RoundBy(POLYNOMIAL, c), WordRound(v), n - 1);
    }
  }

  lemma FeedAgrees(c: Register, v: bv32, b: byte, w: bv32)
    requires Agrees(c, v) && Agrees(Bits(b, WIDTH), w)
    ensures Agrees(Feed(c, b), WordRounds(v ^ w, 8))
  {
    hide Agrees, RoundBy, WordRound, Bits, Xor, Rounds, WordRounds;
    XorAgrees(c, Bits(b, WIDTH), v, w);
    RoundsAgree(Xor(c, Bits(b, WIDTH)), v ^ w, W8);
  }

  lemma OnesAgree()
    ensures Agrees(ONES, 0xFFFF_FFFF)
  {
    hide Bits, Mask;
    AllOnes();
    forall i | 0 <= i < 32 ensures Bit(0xFFFF_FFFF, i) {
      MaskOneBit(i);
    }
  }

  lemma {:induction false} ZeroBits(w: nat, i: nat)
    requires i < w
    ensures !Bits(0, w)[i]
  {
    if i > 0 {
      ZeroBits(w - 1, i - 1);
    }
  }

  lemma DigitAgrees(b: byte, w: bv32)
    requires 0x30 <= b < 0x40 && w & 0xFFFF_FFF0 == 0x30
    requires (b % 2 == 1) == Test(w, 1) && (b / 2 % 2 == 1) == Test(w, 2)
    requires (b / 4 % 2 == 1) == Test(w, 4) && (b / 8 % 2 == 1) == Test(w, 8)
    ensures Agrees(Bits(b, WIDTH), w)
  {
    hide Bits;
    BitsNibble(b, 28);
    BitsNibble(3, 24);
    forall i | 0 <= i < 32 ensures Bits(b, WIDTH)[i] == Bit(w, i) {
      if i >= 8 {
        ZeroBits(24, i - 8);
      }
    }
  }

  lemma WordValues()
    ensures WordRounds(0xFFFFFFFF ^ 0x31, 8) == 0x7C231048
    ensures WordRounds(0x7C231048 ^ 0x32, 8) == 0xB0ACBB32
    ensures WordRounds(0xB0ACBB32 ^ 0x33, 8) == 0x77B79C2D
    ensures WordRounds(0x77B79C2D ^ 0x34, 8) == 0x641C1F5C
    ensures WordRounds(0x641C1F5C ^ 0x35, 8) == 0x340AC5E3
    ensures WordRounds(0x340AC5E3 ^ 0x36, 8) == 0xF68D2C9E
    ensures WordRounds(0xF68D2C9E ^ 0x37, 8) == 0xAFFC9660
    ensures WordRounds(0xAFFC9660 ^ 0x38, 8) == 0x651F2550
    ensures WordRounds(0x651F2550 ^ 0x39, 8) == 0x340BC6D9
  {
  }

  lemma DigitFed(s: Bytes, v: bv32, b: byte, w: bv32, next: bv32)
    requires Agrees(Update(ONES, s), v) && WordRounds(v ^ w, 8) == next
    requires 0x30 <= b < 0x40 && w & 0xFFFF_FFF0 == 0x30
    requires (b % 2 == 1) == Test(w, 1) && (b / 2 % 2 == 1) == Test(w, 2)
    requires (b / 4 % 2 == 1) == Test(w, 4) && (b / 8 % 2 == 1) == Test(w, 8)
    ensures Agrees(Update(ONES, s + [b]), next)
  {
    hide Agrees, Feed, WordRounds, Bits;
    DigitAgrees(b, w);
    FeedAgrees(Update(ONES, s), v, b, w);
    UpdateConcat(ONES, s, [b]);
    UpdateOne(Update(ONES, s), b);
  }

  lemma UpdateOne(c: Register, b: byte)
    ensures Update(c, [b]) == Feed(c, b) && Update(c, []) == c
  {
    hide Feed;
    assert [b][1..] == [];
  }

  lemma DigitsFed()
    ensures Agrees(Update(ONES, [0x31, 0x32, 0x33, 0x34, 0x35, 0x36, 0x37, 0x38, 0x39]), 0x340BC6D9)
  {
    hide Agrees, Update, WordRounds, Bits;
    OnesAgree();
    UpdateOne(ONES, 0);
    WordValues();
    DigitFed([], 0xFFFFFFFF, 0x31, 0x31, 0x7C231048);
    assert [] + [0x31] == [0x31];
    DigitFed([0x31], 0x7C231048, 0x32, 0x32, 0xB0ACBB32);
    assert [0x31] + [0x32] == [0x31, 0x32];
    DigitFed([0x31, 0x32], 0xB0ACBB32, 0x33, 0x33, 0x77B79C2D);
    assert [0x31, 0x32] + [0x33] == [0x31, 0x32, 0x33];
    DigitFed([0x31, 0x32, 0x33], 0x77B79C2D, 0x34, 0x34, 0x641C1F5C);
    assert [0x31, 0x32, 0x33] + [0x34] == [0x31, 0x32, 0x33, 0x34];
    DigitFed([0x31, 0x32, 0x33, 0x34], 0x641C1F5C, 0x35, 0x35, 0x340AC5E3);
    assert [0x31, 0x32, 0x33, 0x34] + [0x35] == [0x31, 0x32, 0x33, 0x34, 0x35];
    DigitFed([0x31, 0x32, 0x33, 0x34, 0x35], 0x340AC5E3, 0x36, 0x36, 0xF68D2C9E);
    assert [0x31, 0x32, 0x33, 0x34, 0x35] + [0x36] == [0x31, 0x32, 0x33, 0x34, 0x35, 0x36];
    DigitFed([0x31, 0x32, 0x33, 0x34, 0x35, 0x36], 0xF68D2C9E, 0x37, 0x37, 0xAFFC9660);
    assert [0x31, 0x32, 0x33, 0x34, 0x35, 0x36] + [0x37] == [0x31, 0x32, 0x33, 0x34, 0x35, 0x36, 0x37];
    DigitFed([0x31, 0x32, 0x33, 0x34, 0x35, 0x36, 0x37], 0xAFFC9660, 0x38, 0x38, 0x651F2550);
    assert [0x31, 0x32, 0x33, 0x34, 0x35, 0x36, 0x37] + [0x38] == [0x31, 0x32, 0x33, 0x34, 0x35, 0x36, 0x37, 0x38];
    DigitFed([0x31, 0x32, 0x33, 0x34, 0x35, 0x36, 0x37, 0x38], 0x651F2550, 0x39, 0x39, 0x340BC6D9);
    assert [0x31, 0x32, 0x33, 0x34, 0x35, 0x36, 0x37, 0x38] + [0x39]
        == [0x31, 0x32, 0x33, 0x34, 0x35, 0x36, 0x37, 0x38, 0x39];
  }

  lemma LowResult(i: nat)
    requires i < 16
    ensures Bits(0xCBF43926, WIDTH)[i] == Bit(0xCBF43926, i)
  {
    hide Bits;
    BitsNibble(0xCBF43926, 28);
    BitsNibble(0xCBF4392, 24);
    BitsNibble(0xCBF439, 20);
    BitsNibble(0xCBF43, 16);
  }

  lemma HighResult(i: nat)
    requires i < 16
    ensures Bits(0xCBF43926, WIDTH)[16 + i] == Bit(0xCBF43926, 16 + i)
  {
    hide Bits;
    UpperBits(0xCBF43926, i);
    BitsNibble(0xCBF4, 12);
    BitsNibble(0xCBF, 8);
    BitsNibble(0xCB, 4);
    BitsNibble(0xC, 0);
  }

  lemma ResultAgrees()
    ensures Agrees(Bits(0xCBF43926, WIDTH), 0xCBF43926)
  {
    hide Bits, Bit;
    forall i | 0 <= i < 32 ensures Bits(0xCBF43926, WIDTH)[i] == Bit(0xCBF43926, i) {
      if i < 16 {
        LowResult(i);
      } else {
        HighResult(i - 16);
      }
    }
  }

  lemma {:induction false} NumberOfBits(n: nat, w: nat)
    requires n < Pow2(w)
    ensures Number(Bits(n, w)) == n
  {
    if w > 0 {
      NumberOfBits(n / 2, w - 1);
      assert Bits(n, w)[1..] == Bits(n / 2, w - 1);
    }
  }

  /** The check value of CRC-32: the checksum of the digits "123456789". */
  lemma CheckValue()
    ensures Hash([0x31, 0x32, 0x33, 0x34, 0x35, 0x36, 0x37, 0x38, 0x39]) == 0xCBF43926
  {
    hide Bit, Update, Bits, Number;
    var c := Update(ONES, [0x31, 0x32, 0x33, 0x34, 0x35, 0x36, 0x37, 0x38, 0x39]);
    DigitsFed();
    OnesAgree();
    XorAgrees(c, ONES, 0x340BC6D9, 0xFFFF_FFFF);
    ResultAgrees();
    assert Xor(c, ONES) == Bits(0xCBF43926, WIDTH);
    Pow2Is32();
    NumberOfBits(0xCBF43926, WIDTH);
  }
}
