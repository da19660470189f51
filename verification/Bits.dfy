/**
 A 32-bit register seen as its 32 bits, bit 0 first, with the C operators on
 `uint32_t` defined position by position. Bit positions and shift counts are
 integers, so a statement about single bits needs no word arithmetic.
 */
module Bits {

  type Bits32 = w: seq<bool> | |w| == 32
    witness seq(32, _ => false)

  /** `uint32_t` where only the value matters: every operation on it is checked to stay in range. */
  newtype uint32 = x: int | 0 <= x < 0x1_0000_0000

  function Zeros(n: nat): (b: seq<bool>)
    ensures |b| == n
  {
    seq(n, _ => false)
  }

  const ZERO: Bits32 := Zeros(32)

  /** `1UL`: the word whose only set bit is bit 0. */
  const ONE: Bits32 := seq(32, i => i == 0)

  /** `w >> n` */
  function Shr(w: Bits32, n: nat): Bits32
    requires n <= 32
  {
    w[n..] + Zeros(n)
  }

  /** `w << n`, bits shifted out at the top are lost. */
  function Shl(w: Bits32, n: nat): Bits32
    requires n <= 32
  {
    Zeros(n) + w[..32 - n]
  }

  /** `v & w` */
  function And(v: Bits32, w: Bits32): Bits32 {
    seq(32, i requires 0 <= i < 32 => v[i] && w[i])
  }

  /** `v | w` */
  function Or(v: Bits32, w: Bits32): Bits32 {
    seq(32, i requires 0 <= i < 32 => v[i] || w[i])
  }

  /** `~w` */
  function Not(w: Bits32): Bits32 {
    seq(32, i requires 0 <= i < 32 => !w[i])
  }

  function Pow2(n: nat): nat {
    if n == 0 then 1 else 2 * Pow2(n - 1)
  }

  /** The unsigned number whose binary digits are `b`, least significant first. */
  function Value(b: seq<bool>): nat {
    if b == [] then 0 else (if b[0] then 1 else 0) + 2 * Value(b[1..])
  }

  lemma {:induction false} Pow2Monotone(m: nat, n: nat)
    requires m <= n
    ensures 1 <= Pow2(m) <= Pow2(n)
    decreases n
  {
    if m < n {
      Pow2Monotone(m, n - 1);
    } else if n > 0 {
      Pow2Monotone(m - 1, n - 1);
    }
  }

  lemma DoubleProduct(a: nat, b: nat)
    ensures 2 * (a * b) == (2 * a) * b
  {
  }

  lemma {:induction false} Pow2Sum(m: nat, n: nat)
    ensures Pow2(m + n) == Pow2(m) * Pow2(n)
  {
    if m > 0 {
      Pow2Sum(m - 1, n);
      DoubleProduct(Pow2(m - 1), Pow2(n));
    }
  }

  lemma Pow2At31()
    ensures Pow2(31) == 0x8000_0000
  {
    assert Pow2(1) == 2;
    assert Pow2(3) == 8;
    assert Pow2(5) == 32;
    assert Pow2(7) == 128;
    Pow2Sum(7, 7);
    assert Pow2(14) == 128 * 128;
    Pow2Sum(14, 14);
    assert Pow2(28) == (128 * 128) * (128 * 128);
    assert Pow2(30) == 4 * Pow2(28);
  }

  /** The highest set bit fixes the power-of-two interval a number lies in. */
  lemma {:induction false} TopBitBounds(b: seq<bool>, k: nat)
    requires k < |b| && b[k]
    requires forall i :: k < i < |b| ==> !b[i]
    ensures Pow2(k) <= Value(b) < Pow2(k + 1)
  {
    if k > 0 {
      TopBitBounds(b[1..], k - 1);
    } else {
      AllClearIsZero(b[1..]);
    }
  }

  lemma {:induction false} AllClearIsZero(b: seq<bool>)
    requires forall i :: 0 <= i < |b| ==> !b[i]
    ensures Value(b) == 0
  {
    if b != [] {
      AllClearIsZero(b[1..]);
    }
  }

  /** The mask `1UL << k` selects exactly bit `k`. */
  lemma MaskBit(k: nat, i: nat)
    requires k < 32 && i < 32
    ensures Shl(ONE, k)[i] <==> i == k
  {
  }

  lemma {:induction false} ValueBound(b: seq<bool>)
    ensures Value(b) < Pow2(|b|)
  {
    if b != [] {
      ValueBound(b[1..]);
    }
  }

  lemma {:induction false} ValueAppend(a: seq<bool>, b: seq<bool>)
    ensures Value(a + b) == Value(a) + Pow2(|a|) * Value(b)
  {
    if a == [] {
      assert a + b == b;
    } else {
      ValueAppend(a[1..], b);
      assert (a + b)[1..] == a[1..] + b;
      calc {
        2 * (Pow2(|a| - 1) * Value(b));
        Pow2(|a|) * Value(b);
      }
    }
  }

  /** Digit sequences of one length are determined by their number. */
  lemma {:induction false} ValueInjective(a: seq<bool>, b: seq<bool>)
    requires |a| == |b| && Value(a) == Value(b)
    ensures a == b
  {
    if a != [] {
      ValueInjective(a[1..], b[1..]);
      assert a == [a[0]] + a[1..] && b == [b[0]] + b[1..];
    }
  }

  /** The `k` low bits of a number are its remainder modulo 2^k. */
  lemma LowBitsValue(b: seq<bool>, k: nat)
    requires k <= |b|
    ensures Pow2(k) > 0 && Value(b[..k]) == Value(b) % Pow2(k)
  {
    ValueBound(b[..k]);
    ValueAppend(b[..k], b[k..]);
    assert b == b[..k] + b[k..];
    RemainderUnique(Value(b), Pow2(k), Value(b[k..]), Value(b[..k]));
  }

  lemma AtLeastOnce(m: nat, k: int)
    requires k >= 1
    ensures m * k >= m
  {
  }

  lemma RemainderUnique(n: nat, m: nat, q: nat, r: nat)
    requires r < m && n == r + m * q
    ensures n % m == r
  {
    var d, e := n / m, n % m;
    assert n == m * d + e;
    assert m * (d - q) == r - e;
    if d > q {
      AtLeastOnce(m, d - q);
    } else if d < q {
      assert m * (q - d) == e - r;
      AtLeastOnce(m, q - d);
    }
  }

  /** Reducing modulo `m` changes nothing exactly below `m`. */
  lemma SmallRemainder(n: nat, m: nat)
    requires m > 0
    ensures n % m == n <==> n < m
  {
    if n < m {
      RemainderUnique(n, m, 0, n);
    }
  }

  /** `(1UL << k) - 1UL`: the word whose `k` low bits are set. */
  function LowMask(k: nat): Bits32
    requires k <= 32
  {
    seq(32, i => i < k)
  }

  function Ones(n: nat): (b: seq<bool>)
    ensures |b| == n
  {
    seq(n, _ => true)
  }

  lemma {:induction false} OnesValue(n: nat)
    ensures Value(Ones(n)) == Pow2(n) - 1
  {
    if n > 0 {
      OnesValue(n - 1);
      assert Ones(n)[1..] == Ones(n - 1);
    }
  }

  lemma PadValue(b: seq<bool>, n: nat)
    ensures Value(b + Zeros(n)) == Value(b)
  {
    ValueAppend(b, Zeros(n));
    AllClearIsZero(Zeros(n));
  }

  /** The mask is the number its C expression computes. */
  lemma LowMaskValue(k: nat)
    requires k <= 32
    ensures Value(LowMask(k)) == Pow2(k) - 1
  {
    OnesValue(k);
    PadValue(Ones(k), 32 - k);
    assert LowMask(k) == Ones(k) + Zeros(32 - k);
  }

  type Bits8 = b: seq<bool> | |b| == 8
    witness Zeros(8)

  /** Byte `k` of a word, counted from the least significant end. */
  function Byte(w: Bits32, k: nat): Bits8
    requires k < 4
  {
    w[8 * k..8 * k + 8]
  }

  /** `v ^ w` */
  function Xor(v: Bits32, w: Bits32): Bits32 {
    seq(32, i requires 0 <= i < 32 => v[i] != w[i])
  }

  /** The `width` low binary digits of `n`, least significant first. */
  function Digits(n: nat, width: nat): (b: seq<bool>)
    ensures |b| == width
  {
    if width == 0 then [] else [n % 2 == 1] + Digits(n / 2, width - 1)
  }

  lemma {:induction false} DigitsValue(n: nat, width: nat)
    requires n < Pow2(width)
    ensures Value(Digits(n, width)) == n
    decreases width
  {
    if width > 0 {
      DigitsValue(n / 2, width - 1);
    }
  }

  /** `w >> n` on numbers. */
  lemma ShrValue(w: Bits32, n: nat)
    requires n <= 32
    ensures Value(w) == Value(w[..n]) + Pow2(n) * Value(Shr(w, n)) && Value(w[..n]) < Pow2(n)
  {
    assert w == w[..n] + w[n..];
    ValueAppend(w[..n], w[n..]);
    PadValue(w[n..], n);
    ValueBound(w[..n]);
  }

  /** `w << n` on numbers. */
  lemma ShlValue(w: Bits32, n: nat)
    requires n <= 32
    ensures Pow2(32 - n) > 0 && Value(Shl(w, n)) == Pow2(n) * (Value(w) % Pow2(32 - n))
  {
    ValueAppend(Zeros(n), w[..32 - n]);
    AllClearIsZero(Zeros(n));
    LowBitsValue(w, 32 - n);
  }
}
