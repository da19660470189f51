/** 32-bit machine words, on which the solver computes: the shift register of the checksum in numbers. */
module Words {

  function Odd(v: bv32): bool { v & 1 != 0 }

  function Half(v: bv32): bv32 { v >> 1 }

  function Sum(v: bv32, w: bv32): bv32 { v ^ w }

  function Behind(v: bv32): bv32 { v >> 4 }

  function RoundWord(v: bv32): bv32 {
    if v & 1 != 0 then (v >> 1) ^ 0xEDB88320 else v >> 1
  }

  function RoundsWord(v: bv32, n: nat): bv32 {
    if n == 0 then v else RoundWord(RoundsWord(v, n - 1))
  }

  lemma RoundWordMeans(v: bv32)
    ensures RoundWord(v) == if Odd(v) then Sum(Half(v), 0xEDB88320) else Half(v)
  {
  }

  lemma HalfSum(v: bv32, w: bv32)
    ensures Odd(Sum(v, w)) == (Odd(v) != Odd(w)) && Half(Sum(v, w)) == Sum(Half(v), Half(w))
  {
  }

  lemma SecondBit(v: bv32)
    ensures Odd(Half(v)) == (v & 2 != 0)
  {
  }

  lemma ThirdBit(v: bv32)
    ensures Odd(Half(Half(v))) == (v & 4 != 0)
  {
  }

  lemma FourthBit(v: bv32)
    ensures Odd(Half(Half(Half(v)))) == (v & 8 != 0)
  {
  }

  lemma FourHalves(v: bv32)
    ensures Half(Half(Half(Half(v)))) == Behind(v)
  {
  }

  lemma HexDigit(v: bv32)
    ensures Odd(v) == (v & 1 != 0)
    ensures Odd(Half(v)) == (v & 2 != 0)
    ensures Odd(Half(Half(v))) == (v & 4 != 0)
    ensures Odd(Half(Half(Half(v)))) == (v & 8 != 0)
    ensures Half(Half(Half(Half(v)))) == v >> 4
  {
    SecondBit(v);
    ThirdBit(v);
    FourthBit(v);
    FourHalves(v);
    hide Half;
  }

  lemma NothingBehind(v: bv32)
    ensures Behind(Behind(Behind(Behind(Behind(Behind(Behind(Behind(v)))))))) == 0
  {
  }

  /** The register before a digit, mixed with it, and after its eight rounds, for the digits 1 to 9. */
  lemma NineDigits()
    ensures Sum(0xFFFFFFFF, 0x31) == 0xFFFFFFCE && RoundsWord(0xFFFFFFCE, 8) == 0x7C231048
    ensures Sum(0x7C231048, 0x32) == 0x7C23107A && RoundsWord(0x7C23107A, 8) == 0xB0ACBB32
    ensures Sum(0xB0ACBB32, 0x33) == 0xB0ACBB01 && RoundsWord(0xB0ACBB01, 8) == 0x77B79C2D
    ensures Sum(0x77B79C2D, 0x34) == 0x77B79C19 && RoundsWord(0x77B79C19, 8) == 0x641C1F5C
    ensures Sum(0x641C1F5C, 0x35) == 0x641C1F69 && RoundsWord(0x641C1F69, 8) == 0x340AC5E3
    ensures Sum(0x340AC5E3, 0x36) == 0x340AC5D5 && RoundsWord(0x340AC5D5, 8) == 0xF68D2C9E
    ensures Sum(0xF68D2C9E, 0x37) == 0xF68D2CA9 && RoundsWord(0xF68D2CA9, 8) == 0xAFFC9660
    ensures Sum(0xAFFC9660, 0x38) == 0xAFFC9658 && RoundsWord(0xAFFC9658, 8) == 0x651F2550
    ensures Sum(0x651F2550, 0x39) == 0x651F2569 && RoundsWord(0x651F2569, 8) == 0x340BC6D9
    ensures Sum(0x340BC6D9, 0xFFFFFFFF) == 0xCBF43926
  {
  }
}
