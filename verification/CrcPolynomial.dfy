/**
 What the checksum is: the remainder of a polynomial division. A polynomial over the two-element
 field is the sequence of its coefficients, the highest power first.
 */
module CrcPolynomial {
  import opened Bits
  import opened Crc

  // ---- Long division ---------------------------------------------------------------------------

  /** The generator x^32 + x^26 + ... + x + 1, by the exponents of the terms after the first. */
  predicate Term(exponent: nat) {
    exponent in {26, 23, 22, 16, 12, 11, 10, 8, 7, 5, 4, 2, 1, 0}
  }

  predicate GeneratorBit(i: nat) { i < 32 && Term(31 - i) }

  /** One step: if the highest coefficient is set, the generator is subtracted there; the coefficient is gone either way. */
  function DivideStep(b: seq<bool>): (r: seq<bool>)
    requires |b| > 32
    ensures |r| == |b| - 1
  {
    seq(|b| - 1, i requires 0 <= i < |b| - 1 => b[i + 1] != (b[0] && GeneratorBit(i)))
  }

  function Remainder(b: seq<bool>): (r: seq<bool>)
    ensures |r| == if |b| <= 32 then |b| else 32
    decreases |b|
  {
    if |b| <= 32 then b else Remainder(DivideStep(b))
  }

  /** Addition, which is also subtraction. */
  function Plus(u: seq<bool>, v: seq<bool>): (r: seq<bool>)
    requires |u| == |v|
    ensures |r| == |u|
  {
    seq(|u|, i requires 0 <= i < |u| => u[i] != v[i])
  }

  // ---- The remainder is one ----------------------------------------------------------------------

  /** The generator in full, all 33 coefficients. */
  function Generator(): (g: seq<bool>)
    ensures |g| == 33
  {
    [true] + seq(32, i requires 0 <= i < 32 => GeneratorBit(i))
  }

  /** The product of a polynomial with the generator: the sum of its shifted copies. */
  function TimesGenerator(q: seq<bool>): (p: seq<bool>)
    ensures |p| == |q| + 32
  {
    if q == [] then Zeros(32)
    else Plus(if q[0] then Generator() + Zeros(|q| - 1) else Zeros(|q| + 32), [false] + TimesGenerator(q[1..]))
  }

  function Quotient(b: seq<bool>): (q: seq<bool>)
    requires |b| >= 32
    ensures |q| == |b| - 32
    decreases |b|
  {
    if |b| == 32 then [] else [b[0]] + Quotient(DivideStep(b))
  }

  /** Every polynomial is a multiple of the generator plus its remainder. */
  lemma {:induction false} Division(b: seq<bool>)
    requires |b| >= 32
    ensures b == Plus(TimesGenerator(Quotient(b)), Zeros(|b| - 32) + Remainder(b))
    decreases |b|
  {
    if |b| > 32 {
      var next := DivideStep(b);
      Division(next);
      var q := Quotient(next);
      assert Quotient(b)[1..] == q;
      var product, rest := TimesGenerator(q), Zeros(|next| - 32) + Remainder(next);
      assert Zeros(|b| - 32) + Remainder(b) == [false] + rest;
      LeadingTerm(b, product, rest);
    }
  }

  lemma LeadingTerm(b: seq<bool>, product: seq<bool>, rest: seq<bool>)
    requires |b| > 32 && |product| == |rest| == |b| - 1 && DivideStep(b) == Plus(product, rest)
    ensures b == Plus(Plus(if b[0] then Generator() + Zeros(|b| - 33) else Zeros(|b|), [false] + product), [false] + rest)
  {
    var lead := if b[0] then Generator() + Zeros(|b| - 33) else Zeros(|b|);
    var sum := Plus(Plus(lead, [false] + product), [false] + rest);
    forall i | 0 <= i < |b|
      ensures sum[i] == b[i]
    {
      if i > 0 {
        assert Plus(product, rest)[i - 1] == DivideStep(b)[i - 1];
        assert lead[i] == (b[0] && GeneratorBit(i - 1));
      }
    }
  }

  // ---- Several steps -------------------------------------------------------------------------------

  function Steps(b: seq<bool>, n: nat): (r: seq<bool>)
    requires n + 32 <= |b|
    ensures |r| == |b| - n
    decreases n
  {
    if n == 0 then b else Steps(DivideStep(b), n - 1)
  }

  lemma {:induction false} StepsAreRemainder(b: seq<bool>)
    requires |b| >= 32
    ensures Steps(b, |b| - 32) == Remainder(b)
    decreases |b|
  {
    if |b| > 32 {
      StepsAreRemainder(DivideStep(b));
    }
  }

  lemma {:induction false} StepsAdd(b: seq<bool>, m: nat, n: nat)
    requires m + n + 32 <= |b|
    ensures Steps(Steps(b, m), n) == Steps(b, m + n)
    decreases m
  {
    if m > 0 {
      StepsAdd(DivideStep(b), m - 1, n);
    }
  }

  lemma StepLinear(u: seq<bool>, v: seq<bool>)
    requires |u| == |v| > 32
    ensures DivideStep(Plus(u, v)) == Plus(DivideStep(u), DivideStep(v))
  {
  }

  lemma {:induction false} StepsLinear(u: seq<bool>, v: seq<bool>, n: nat)
    requires |u| == |v| && n + 32 <= |u|
    ensures Steps(Plus(u, v), n) == Plus(Steps(u, n), Steps(v, n))
    decreases n
  {
    if n > 0 {
      StepLinear(u, v);
      StepsLinear(DivideStep(u), DivideStep(v), n - 1);
    }
  }

  /** What lies behind the next 32 coefficients is not touched. */
  lemma {:induction false} StepsAppend(u: seq<bool>, t: seq<bool>, n: nat)
    requires n + 32 <= |u|
    ensures Steps(u + t, n) == Steps(u, n) + t
    decreases n
  {
    if n > 0 {
      assert DivideStep(u + t) == DivideStep(u) + t;
      StepsAppend(DivideStep(u), t, n - 1);
    }
  }

  lemma {:induction false} StepsZeros(v: seq<bool>, n: nat)
    requires |v| >= 32
    ensures Steps(Zeros(n) + v, n) == v
    decreases n
  {
    if n == 0 {
      assert Zeros(0) + v == v;
    } else {
      assert DivideStep(Zeros(n) + v) == Zeros(n - 1) + v;
      StepsZeros(v, n - 1);
    }
  }

  // ---- The loop divides ------------------------------------------------------------------------------

  lemma LowDigits(n: nat, width: nat)
    requires width >= 4
    ensures Digits(n, width)[0] == (n % 2 == 1) && Digits(n, width)[1] == (n / 2 % 2 == 1)
    ensures Digits(n, width)[2] == (n / 4 % 2 == 1) && Digits(n, width)[3] == (n / 8 % 2 == 1)
  {
    assert Digits(n, width)[1] == Digits(n / 2, width - 1)[0];
    assert Digits(n, width)[2] == Digits(n / 2, width - 1)[1] == Digits(n / 4, width - 2)[0];
    assert Digits(n, width)[3] == Digits(n / 2, width - 1)[2] == Digits(n / 4, width - 2)[1] == Digits(n / 8, width - 3)[0];
  }

  lemma DigitsAbove(n: nat, width: nat, i: nat)
    requires 4 <= i < width
    ensures Digits(n, width)[i] == Digits(n / 16, width - 4)[i - 4]
  {
    assert Digits(n, width)[i] == Digits(n / 2, width - 1)[i - 1] == Digits(n / 4, width - 2)[i - 2];
    assert Digits(n / 4, width - 2)[i - 2] == Digits(n / 8, width - 3)[i - 3];
  }

  /** The constant of the loop is the generator, its coefficients reflected. */
  lemma PolynomialIsGenerator(i: nat)
    requires i < 32
    ensures POLYNOMIAL[i] <==> GeneratorBit(i)
  {
    hide Digits;
    if i < 4 {
      LowDigits(0xEDB88320, 32);
    } else {
      DigitsAbove(0xEDB88320, 32, i);
      if i < 8 {
        LowDigits(0xEDB8832, 28);
      } else {
        DigitsAbove(0xEDB8832, 28, i - 4);
        GeneratorFrom8(i);
      }
    }
  }

  lemma GeneratorFrom8(i: nat)
    requires 8 <= i < 32
    ensures Digits(0xEDB883, 24)[i - 8] <==> GeneratorBit(i)
  {
    hide Digits;
    if i < 12 {
      LowDigits(0xEDB883, 24);
    } else {
      DigitsAbove(0xEDB883, 24, i - 8);
      if i < 16 {
        LowDigits(0xEDB88, 20);
      } else {
        DigitsAbove(0xEDB88, 20, i - 12);
        GeneratorFrom16(i);
      }
    }
  }

  lemma GeneratorFrom16(i: nat)
    requires 16 <= i < 32
    ensures Digits(0xEDB8, 16)[i - 16] <==> GeneratorBit(i)
  {
    hide Digits;
    if i < 20 {
      LowDigits(0xEDB8, 16);
    } else {
      DigitsAbove(0xEDB8, 16, i - 16);
      if i < 24 {
        LowDigits(0xEDB, 12);
      } else {
        DigitsAbove(0xEDB, 12, i - 20);
        if i < 28 {
          LowDigits(0xED, 8);
        } else {
          DigitsAbove(0xED, 8, i - 24);
          LowDigits(0xE, 4);
        }
      }
    }
  }

  /** One round of the loop is one step of the division, with a zero coming in. */
  lemma RoundDivides(w: Bits32)
    ensures DivideStep(w + [false]) == Round(w)
  {
    var s := Shr(w, 1);
    forall i | 0 <= i < 32
      ensures DivideStep(w + [false])[i] == Round(w)[i]
    {
      PolynomialIsGenerator(i);
      assert s[i] == (w + [false])[i + 1];
    }
  }

  lemma {:induction false} RoundsDivide(w: Bits32, n: nat)
    ensures Steps(w + Zeros(n), n) == Rounds(w, n)
    decreases n
  {
    if n == 0 {
      assert w + Zeros(0) == w;
    } else {
      var longer := w + [false];
      assert w + Zeros(n) == longer + Zeros(n - 1);
      assert DivideStep(longer + Zeros(n - 1)) == DivideStep(longer) + Zeros(n - 1);
      RoundDivides(w);
      RoundsDivide(Round(w), n - 1);
      assert Rounds(w, 1) == Round(w) by {
        assert Rounds(w, 0) == w;
      }
      RoundsAdd(w, 1, n - 1);
    }
  }

  /** The message times x^32, its first 32 coefficients conditioned with a register. */
  function Conditioned(c: Bits32, data: seq<Bits8>): (b: seq<bool>)
    ensures |b| == 8 * |data| + 32
  {
    Plus(Join(data) + Zeros(32), c + Zeros(8 * |data|))
  }

  lemma {:induction false} CrcDivides(c: Bits32, data: seq<Bits8>)
    ensures Steps(Conditioned(c, data), 8 * |data|) == CrcFrom(c, data)
  {
    if data == [] {
      assert Conditioned(c, data) == c;
    } else {
      var front, last := data[..|data| - 1], data[|data| - 1];
      var n := 8 * |front|;
      hide Join, Conditioned, Steps, Rounds, Round, Xor;
      CrcDivides(c, front);
      NextByteCoefficients(c, front, last);
      assert front + [last] == data;
      var u, v := Conditioned(c, front) + Zeros(8), Zeros(n) + (last + Zeros(32));
      StepsLinear(u, v, n);
      StepsAppend(Conditioned(c, front), Zeros(8), n);
      StepsZeros(last + Zeros(32), n);
      var mixed := Xor(CrcFrom(c, front), Widen(last));
      MixedByte(CrcFrom(c, front), last);
      RoundsDivide(mixed, 8);
      StepsAdd(Conditioned(c, data), n, 8);
    }
  }

  lemma MixedByte(w: Bits32, last: Bits8)
    ensures Plus(w + Zeros(8), last + Zeros(32)) == Xor(w, Widen(last)) + Zeros(8)
  {
  }

  /** A further byte adds its coefficients behind those of the message so far. */
  lemma NextByteCoefficients(c: Bits32, front: seq<Bits8>, last: Bits8)
    ensures Conditioned(c, front + [last]) == Plus(Conditioned(c, front) + Zeros(8), Zeros(8 * |front|) + (last + Zeros(32)))
  {
    var n := 8 * |front|;
    assert (front + [last])[..|front|] == front;
    assert Join(front + [last]) == Join(front) + last;
    assert Join(front) + last + Zeros(32) == Plus(Join(front) + Zeros(32) + Zeros(8), Zeros(n) + (last + Zeros(32)));
    assert c + Zeros(n + 8) == c + Zeros(n) + Zeros(8);
  }

  /**
   The checksum is the complement of the remainder of the message polynomial times x^32, conditioned
   with all ones: bit 0 of the register is the coefficient of x^31, and each byte enters low bit first.
   */
  lemma CrcIsRemainder(data: seq<Bits8>)
    ensures Crc32(data) == Not(Remainder(Plus(Join(data) + Zeros(32), Ones(32) + Zeros(8 * |data|))))
  {
    hide CrcFrom, Remainder, Steps, Xor, Not, Plus, Join;
    CrcDivides(ALL_ONES, data);
    StepsAreRemainder(Conditioned(ALL_ONES, data));
    XorAllOnes(CrcFrom(ALL_ONES, data));
  }

  lemma XorAllOnes(w: Bits32)
    ensures Xor(w, ALL_ONES) == Not(w)
  {
  }
}
