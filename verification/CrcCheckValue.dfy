/** The published check value of CRC-32: the checksum of the nine bytes 31 to 39, the digits 1 to 9 in ASCII. */
module CrcCheckValue {
  import opened Bits
  import opened Crc
  import opened CrcPolynomial
  import opened Words

  const CHECK_MESSAGE: seq<Bits8> := seq(9, i requires 0 <= i < 9 => Digits(0x31 + i, 8))

  // ---- Machine words, on which the solver computes ---------------------------------------

  /** The `width` low bits of a machine word. */
  function WordBits(v: bv32, width: nat): (b: seq<bool>)
    ensures |b| == width
    decreases width
  {
    if width == 0 then [] else [Odd(v)] + WordBits(Half(v), width - 1)
  }

  lemma {:induction false} SumBits(v: bv32, w: bv32, width: nat)
    ensures forall i :: 0 <= i < width ==> WordBits(Sum(v, w), width)[i] == (WordBits(v, width)[i] != WordBits(w, width)[i])
    decreases width
  {
    hide Odd, Half, Sum;
    if width > 0 {
      HalfSum(v, w);
      SumBits(Half(v), Half(w), width - 1);
    }
  }

  lemma LowBits(v: bv32, width: nat)
    requires width >= 4
    ensures WordBits(v, width)[0] == (v & 1 != 0) && WordBits(v, width)[1] == (v & 2 != 0)
    ensures WordBits(v, width)[2] == (v & 4 != 0) && WordBits(v, width)[3] == (v & 8 != 0)
  {
    HexDigit(v);
    hide Odd, Half;
    var v1 := Half(v);
    var v2 := Half(v1);
    var v3 := Half(v2);
    assert WordBits(v, width)[1] == WordBits(v1, width - 1)[0];
    assert WordBits(v, width)[2] == WordBits(v1, width - 1)[1] == WordBits(v2, width - 2)[0];
    assert WordBits(v, width)[3] == WordBits(v1, width - 1)[2] == WordBits(v2, width - 2)[1] == WordBits(v3, width - 3)[0];
  }

  lemma BitsAbove(v: bv32, width: nat, i: nat)
    requires 4 <= i < width
    ensures WordBits(v, width)[i] == WordBits(v >> 4, width - 4)[i - 4]
  {
    HexDigit(v);
    hide Odd, Half;
    var v1 := Half(v);
    var v2 := Half(v1);
    var v3 := Half(v2);
    assert WordBits(v, width)[i] == WordBits(v1, width - 1)[i - 1] == WordBits(v2, width - 2)[i - 2];
    assert WordBits(v2, width - 2)[i - 2] == WordBits(v3, width - 3)[i - 3] == WordBits(Half(v3), width - 4)[i - 4];
  }

  /** A machine word and a number with the same last hexadecimal digit, and with the same digits before it. */
  lemma OneMoreHexDigit(v: bv32, n: nat, width: nat)
    requires WordBits(v >> 4, width) == Digits(n / 16, width)
    requires (v & 1 != 0) == (n % 2 == 1) && (v & 2 != 0) == (n / 2 % 2 == 1)
    requires (v & 4 != 0) == (n / 4 % 2 == 1) && (v & 8 != 0) == (n / 8 % 2 == 1)
    ensures WordBits(v, width + 4) == Digits(n, width + 4)
  {
    hide Digits, WordBits;
    LowBits(v, width + 4);
    LowDigits(n, width + 4);
    var b, d := WordBits(v, width + 4), Digits(n, width + 4);
    forall i | 0 <= i < width + 4
      ensures b[i] == d[i]
    {
      if i >= 4 {
        BitsAbove(v, width + 4, i);
        DigitsAbove(n, width + 4, i);
      }
    }
  }

  lemma {:induction false} NoBits(width: nat)
    ensures WordBits(0, width) == Zeros(width)
  {
    if width > 0 {
      assert Half(0) == 0 && !Odd(0);
      NoBits(width - 1);
    }
  }

  lemma PolynomialWord()
    ensures WordBits(0xEDB88320, 32) == POLYNOMIAL
  {
    hide Digits, WordBits;
    NoDigits();
    OneMoreHexDigit(0xE, 0xE, 0);
    OneMoreHexDigit(0xED, 0xED, 4);
    OneMoreHexDigit(0xEDB, 0xEDB, 8);
    OneMoreHexDigit(0xEDB8, 0xEDB8, 12);
    OneMoreHexDigit(0xEDB88, 0xEDB88, 16);
    OneMoreHexDigit(0xEDB883, 0xEDB883, 20);
    OneMoreHexDigit(0xEDB8832, 0xEDB8832, 24);
    OneMoreHexDigit(0xEDB88320, 0xEDB88320, 28);
  }

  lemma CheckWord()
    ensures WordBits(0xCBF43926, 32) == Digits(0xCBF43926, 32)
  {
    hide Digits, WordBits;
    NoDigits();
    OneMoreHexDigit(0xC, 0xC, 0);
    OneMoreHexDigit(0xCB, 0xCB, 4);
    OneMoreHexDigit(0xCBF, 0xCBF, 8);
    OneMoreHexDigit(0xCBF4, 0xCBF4, 12);
    OneMoreHexDigit(0xCBF43, 0xCBF43, 16);
    OneMoreHexDigit(0xCBF439, 0xCBF439, 20);
    OneMoreHexDigit(0xCBF4392, 0xCBF4392, 24);
    OneMoreHexDigit(0xCBF43926, 0xCBF43926, 28);
  }

  lemma NoDigits()
    ensures WordBits(0, 0) == Digits(0, 0)
  {
  }

  lemma BitsBehind(v: bv32, width: nat, i: nat)
    requires 4 <= i < width
    ensures WordBits(v, width)[i] == WordBits(Behind(v), width - 4)[i - 4]
  {
    BitsAbove(v, width, i);
  }

  /** A machine word has no bit 32. */
  lemma NoBit32(v: bv32)
    ensures !WordBits(v, 33)[32]
  {
    hide WordBits, Behind;
    NothingBehind(v);
    var v4 := Behind(Behind(Behind(Behind(v))));
    BitsBehind(v, 33, 32);
    BitsBehind(Behind(v), 29, 28);
    BitsBehind(Behind(Behind(v)), 25, 24);
    BitsBehind(Behind(Behind(Behind(v))), 21, 20);
    BitsBehind(v4, 17, 16);
    BitsBehind(Behind(v4), 13, 12);
    BitsBehind(Behind(Behind(v4)), 9, 8);
    BitsBehind(Behind(Behind(Behind(v4))), 5, 4);
    NoBits(1);
  }

  lemma {:induction false} Prefix(v: bv32, width: nat)
    ensures WordBits(v, width + 1)[..width] == WordBits(v, width)
    decreases width
  {
    hide Odd, Half;
    if width > 0 {
      Prefix(Half(v), width - 1);
      assert WordBits(v, width + 1) == [Odd(v)] + WordBits(Half(v), width);
      assert WordBits(v, width) == [Odd(v)] + WordBits(Half(v), width - 1);
    }
  }

  lemma RoundOfWord(v: bv32)
    ensures Round(WordBits(v, 32)) == WordBits(RoundWord(v), 32)
  {
    hide RoundWord, Odd, Half, Sum, Shr, Xor;
    assert WordBits(v, 32)[0] == Odd(v);
    hide WordBits;
    RoundWordMeans(v);
    ShiftOfWord(v);
    PolynomialWord();
    XorOfWords(Half(v), 0xEDB88320);
  }

  lemma XorOfWords(v: bv32, w: bv32)
    ensures Xor(WordBits(v, 32), WordBits(w, 32)) == WordBits(Sum(v, w), 32)
  {
    hide Sum, WordBits;
    SumBits(v, w, 32);
  }

  lemma ShiftOfWord(v: bv32)
    ensures Shr(WordBits(v, 32), 1) == WordBits(Half(v), 32)
  {
    hide Half, WordBits, Shr;
    forall i | 0 <= i < 32
      ensures Shr(WordBits(v, 32), 1)[i] == WordBits(Half(v), 32)[i]
    {
      ShiftBit(v, i);
    }
  }

  lemma ShiftBit(v: bv32, i: nat)
    requires i < 32
    ensures Shr(WordBits(v, 32), 1)[i] == WordBits(Half(v), 32)[i]
  {
    hide Odd, Half, Shr;
    assert WordBits(v, 33)[i + 1] == WordBits(Half(v), 32)[i];
    hide WordBits;
    ShrAt(WordBits(v, 32), i);
    if i < 31 {
      Prefix(v, 32);
      assert WordBits(v, 33)[..32][i + 1] == WordBits(v, 33)[i + 1];
    } else {
      NoBit32(v);
    }
  }

  lemma ShrAt(w: Bits32, i: nat)
    requires i < 32
    ensures Shr(w, 1)[i] == (i < 31 && w[i + 1])
  {
  }

  lemma {:induction false} RoundsOfWord(v: bv32, n: nat)
    ensures Rounds(WordBits(v, 32), n) == WordBits(RoundsWord(v, n), 32)
  {
    hide RoundWord, Round;
    if n > 0 {
      RoundsOfWord(v, n - 1);
      RoundOfWord(RoundsWord(v, n - 1));
    }
  }

  /** One further byte: its number `n`, as a machine word, and the register before and after its eight rounds. */
  lemma NextWord(front: seq<Bits8>, c: bv32, v: bv32, n: nat, mixed: bv32, after: bv32)
    requires CrcFrom(ALL_ONES, front) == WordBits(c, 32) && WordBits(v, 32) == Widen(Digits(n, 8))
    requires Sum(c, v) == mixed && RoundsWord(mixed, 8) == after
    ensures CrcFrom(ALL_ONES, front + [Digits(n, 8)]) == WordBits(after, 32)
  {
    hide WordBits, RoundsWord, Sum, Digits, Rounds;
    XorOfWords(c, v);
    RoundsOfWord(mixed, 8);
    assert (front + [Digits(n, 8)])[..|front|] == front;
  }

  /** An ASCII digit as a machine word. */
  lemma DigitWord(v: bv32, n: nat)
    requires 0x30 <= n < 0x40 && v >> 4 == 3
    requires (v & 1 != 0) == (n % 2 == 1) && (v & 2 != 0) == (n / 2 % 2 == 1)
    requires (v & 4 != 0) == (n / 4 % 2 == 1) && (v & 8 != 0) == (n / 8 % 2 == 1)
    ensures WordBits(v, 32) == Widen(Digits(n, 8))
  {
    hide WordBits, Digits;
    LowBits(v, 32);
    LowDigits(n, 8);
    LowBits(3, 28);
    LowDigits(3, 4);
    NoBits(24);
    forall i | 0 <= i < 32
      ensures WordBits(v, 32)[i] == Widen(Digits(n, 8))[i]
    {
      if i >= 4 {
        BitsAbove(v, 32, i);
        if i >= 8 {
          BitsAbove(3, 28, i - 4);
        } else {
          DigitsAbove(n, 8, i);
        }
      }
    }
  }

  lemma FourOnes(v: bv32, width: nat)
    requires WordBits(v >> 4, width) == Ones(width) && v & 1 != 0 && v & 2 != 0 && v & 4 != 0 && v & 8 != 0
    ensures WordBits(v, width + 4) == Ones(width + 4)
  {
    hide WordBits;
    LowBits(v, width + 4);
    var b := WordBits(v, width + 4);
    forall i | 0 <= i < width + 4
      ensures b[i]
    {
      if i >= 4 {
        BitsAbove(v, width + 4, i);
      }
    }
  }

  lemma AllOnesWord()
    ensures WordBits(0xFFFF_FFFF, 32) == ALL_ONES
  {
    assert WordBits(0, 0) == Ones(0);
    hide WordBits;
    FourOnes(0xF, 0);
    FourOnes(0xFF, 4);
    FourOnes(0xFFF, 8);
    FourOnes(0xFFFF, 12);
    FourOnes(0xFFFFF, 16);
    FourOnes(0xFFFFFF, 20);
    FourOnes(0xFFFFFFF, 24);
    FourOnes(0xFFFFFFFF, 28);
  }

  lemma Complement(v: bv32)
    ensures Xor(WordBits(v, 32), ALL_ONES) == WordBits(Sum(v, 0xFFFF_FFFF), 32)
  {
    AllOnesWord();
    hide WordBits, Sum;
    XorOfWords(v, 0xFFFF_FFFF);
  }

  lemma Message(k: nat)
    requires k < 9
    ensures CHECK_MESSAGE[..k] + [Digits(0x31 + k, 8)] == CHECK_MESSAGE[..k + 1]
  {
  }

  lemma FirstBytes()
    ensures CrcFrom(ALL_ONES, CHECK_MESSAGE[..4]) == WordBits(0x641C1F5C, 32)
  {
    hide WordBits, Digits, CrcFrom, Sum, RoundsWord;
    NineDigits();
    AllOnesWord();
    assert CrcFrom(ALL_ONES, CHECK_MESSAGE[..0]) == ALL_ONES by {
      Nothing();
    }
    DigitWord(0x31, 0x31);
    NextWord(CHECK_MESSAGE[..0], 0xFFFFFFFF, 0x31, 0x31, 0xFFFFFFCE, 0x7C231048);
    Message(0);
    DigitWord(0x32, 0x32);
    NextWord(CHECK_MESSAGE[..1], 0x7C231048, 0x32, 0x32, 0x7C23107A, 0xB0ACBB32);
    Message(1);
    DigitWord(0x33, 0x33);
    NextWord(CHECK_MESSAGE[..2], 0xB0ACBB32, 0x33, 0x33, 0xB0ACBB01, 0x77B79C2D);
    Message(2);
    DigitWord(0x34, 0x34);
    NextWord(CHECK_MESSAGE[..3], 0x77B79C2D, 0x34, 0x34, 0x77B79C19, 0x641C1F5C);
    Message(3);
  }

  lemma Nothing()
    ensures CrcFrom(ALL_ONES, CHECK_MESSAGE[..0]) == ALL_ONES
  {
  }

  /** The published check value. */
  lemma CheckValue()
    ensures Crc32(CHECK_MESSAGE) == Digits(0xCBF43926, 32)
  {
    hide WordBits, Digits, CrcFrom, Sum, RoundsWord;
    NineDigits();
    FirstBytes();
    DigitWord(0x35, 0x35);
    NextWord(CHECK_MESSAGE[..4], 0x641C1F5C, 0x35, 0x35, 0x641C1F69, 0x340AC5E3);
    Message(4);
    DigitWord(0x36, 0x36);
    NextWord(CHECK_MESSAGE[..5], 0x340AC5E3, 0x36, 0x36, 0x340AC5D5, 0xF68D2C9E);
    Message(5);
    DigitWord(0x37, 0x37);
    NextWord(CHECK_MESSAGE[..6], 0xF68D2C9E, 0x37, 0x37, 0xF68D2CA9, 0xAFFC9660);
    Message(6);
    DigitWord(0x38, 0x38);
    NextWord(CHECK_MESSAGE[..7], 0xAFFC9660, 0x38, 0x38, 0xAFFC9658, 0x651F2550);
    Message(7);
    DigitWord(0x39, 0x39);
    NextWord(CHECK_MESSAGE[..8], 0x651F2550, 0x39, 0x39, 0x651F2569, 0x340BC6D9);
    Message(8);
    assert CHECK_MESSAGE[..9] == CHECK_MESSAGE;
    Complement(0x340BC6D9);
    CheckWord();
  }
}
