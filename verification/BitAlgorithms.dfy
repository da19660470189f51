/**
 The bit-manipulation fallbacks of the CMSIS compiler headers: rotation and byte
 reversal as expressions, bit reversal and leading-zero count as loops.
 */
module BitAlgorithms {
  import opened Bits

  // ---- Rotation -------------------------------------------------------------

  /** `__ROR`; the guard avoids the shift by 32 that C leaves undefined. */
  function Ror(op1: Bits32, op2: nat): Bits32 {
    var n := op2 % 32;
    if n == 0 then op1 else Or(Shr(op1, n), Shl(op1, 32 - n))
  }

  /** The word cut at position `n`, the two parts exchanged. */
  function Cut(x: Bits32, n: nat): Bits32
    requires n < 32
  {
    x[n..] + x[..n]
  }

  /** Rotating by `a` cuts the word at `a` mod 32. */
  lemma RorCuts(x: Bits32, a: nat)
    ensures Ror(x, a) == Cut(x, a % 32)
  {
    var n := a % 32;
    forall i: nat | n != 0 && i < 32
      ensures Or(Shr(x, n), Shl(x, 32 - n))[i] == Cut(x, n)[i]
    {
      assert Shr(x, n)[i] == (i < 32 - n && Cut(x, n)[i]);
      assert Shl(x, 32 - n)[i] == (i >= 32 - n && Cut(x, n)[i]);
    }
  }

  /** Rotations compose by adding their amounts modulo 32. */
  lemma RorCompose(x: Bits32, a: nat, b: nat)
    ensures Ror(Ror(x, a), b) == Ror(x, (a % 32 + b % 32) % 32)
  {
    var m, n := a % 32, b % 32;
    RorCuts(x, a);
    RorCuts(Cut(x, m), b);
    CutTwice(x, m, n);
    RorReduced(x, (m + n) % 32);
  }

  lemma RorReduced(x: Bits32, n: nat)
    requires n < 32
    ensures Ror(x, n) == Cut(x, n)
  {
    RorCuts(x, n);
  }

  lemma CutTwice(x: Bits32, m: nat, n: nat)
    requires m < 32 && n < 32
    ensures Cut(Cut(x, m), n) == Cut(x, (m + n) % 32)
  {
    if m + n < 32 {
      assert (m + n) % 32 == m + n;
    } else {
      assert (m + n) % 32 == m + n - 32;
    }
  }

  lemma CutBack(x: Bits32, n: nat)
    requires 0 < n < 32
    ensures Cut(Cut(x, n), 32 - n) == x
  {
    assert Cut(x, n)[32 - n..] == x[..n];
    assert Cut(x, n)[..32 - n] == x[n..];
    assert x[..n] + x[n..] == x;
  }

  lemma RorBack(x: Bits32, y: Bits32, n: nat)
    requires n < 32 && y == Cut(x, n)
    ensures Ror(y, 32 - n) == x
  {
    if n == 0 {
      RorCuts(y, 32);
    } else {
      RorReduced(y, 32 - n);
      CutBack(x, n);
    }
  }

  /** Every rotation is undone by the complementary one. */
  lemma RorUndo(x: Bits32, a: nat)
    ensures Ror(Ror(x, a), 32 - a % 32) == x
  {
    hide *;
    var n, y := a % 32, Ror(x, a);
    RorCuts(x, a);
    RorBack(x, y, n);
  }

  // ---- Byte reversal --------------------------------------------------------

  /** `__REV`: the compiler's 32-bit byte swap. */
  function Rev(x: Bits32): Bits32 {
    Byte(x, 3) + Byte(x, 2) + Byte(x, 1) + Byte(x, 0)
  }

  /** `__REV16` is composed from the other two. */
  function Rev16(x: Bits32): Bits32 {
    Ror(Rev(x), 16)
  }

  lemma Rev16Layout(x: Bits32)
    ensures Rev16(x) == Byte(x, 1) + Byte(x, 0) + Byte(x, 3) + Byte(x, 2)
  {
    RorReduced(Rev(x), 16);
    assert Rev(x)[16..] == Byte(x, 1) + Byte(x, 0);
    assert Rev(x)[..16] == Byte(x, 3) + Byte(x, 2);
  }

  /** `__REV16` exchanges the two bytes inside each halfword and is its own inverse. */
  lemma Rev16SwapsHalfwords(x: Bits32)
    ensures Byte(Rev16(x), 0) == Byte(x, 1) && Byte(Rev16(x), 1) == Byte(x, 0)
    ensures Byte(Rev16(x), 2) == Byte(x, 3) && Byte(Rev16(x), 3) == Byte(x, 2)
    ensures Rev16(Rev16(x)) == x
  {
    Rev16Layout(x);
    Rev16Layout(Rev16(x));
    assert x == Byte(x, 0) + Byte(x, 1) + Byte(x, 2) + Byte(x, 3);
  }

  // ---- Bit reversal ---------------------------------------------------------

  /** `w` read from the other end. */
  function Mirror(w: Bits32): Bits32 {
    seq(32, i requires 0 <= i < 32 => w[31 - i])
  }

  lemma MirrorTwice(w: Bits32)
    ensures Mirror(Mirror(w)) == w
  {
  }

  /**
   Loop state of both `__RBIT` fallbacks after 31 - s rounds: `value` holds what
   is left of `v`, and the bits read so far sit mirrored `s` places too low.
   */
  ghost predicate ReversedSoFar(v: Bits32, value: Bits32, result: Bits32, s: nat) {
    && s <= 31
    && value == Shr(v, 32 - s)
    && forall j :: 0 <= j <= 31 - s ==> result[31 - s - j] == v[j]
  }

  lemma ReverseStep(v: Bits32, value: Bits32, result: Bits32, s: nat)
    requires ReversedSoFar(v, value, result, s) && value != ZERO
    ensures s > 0
    ensures ReversedSoFar(v, Shr(value, 1), Or(Shl(result, 1), And(value, ONE)), s - 1)
  {
    assert Shr(v, 32) == ZERO;
    var next := Or(Shl(result, 1), And(value, ONE));
    forall j | 0 <= j <= 32 - s
      ensures next[32 - s - j] == v[j]
    {
      if j < 32 - s {
        assert next[32 - s - j] == result[31 - s - j];
      } else {
        assert next[0] == value[0] == v[32 - s];
      }
    }
    assert Shr(value, 1) == Shr(v, 33 - s);
  }

  lemma ReverseDone(v: Bits32, result: Bits32, s: nat)
    requires ReversedSoFar(v, ZERO, result, s)
    ensures Shl(result, s) == Mirror(v)
  {
    forall i | 0 <= i < 32
      ensures Shl(result, s)[i] == Mirror(v)[i]
    {
      if i < s {
        assert Shr(v, 32 - s)[s - 1 - i] == v[31 - i];
        assert !ZERO[s - 1 - i];
      } else {
        assert Shl(result, s)[i] == result[31 - s - (31 - i)];
      }
    }
  }

  /** `__RBIT` of `cmsis_gcc.h`: the trailing shift covers the leading zeros the loop never visits. */
  method RbitGcc(v: Bits32) returns (result: Bits32)
    ensures result == Mirror(v)
  {
    var s: nat := 4 * 8 - 1;
    result := v;
    var value := Shr(v, 1);
    while value != ZERO
      invariant ReversedSoFar(v, value, result, s)
      decreases s
    {
      ReverseStep(v, value, result, s);
      result := Shl(result, 1);
      result := Or(result, And(value, ONE));
      s := s - 1;
      value := Shr(value, 1);
    }
    ReverseDone(v, result, s);
    result := Shl(result, s);
  }

  /** The counter type of the IAR header: an unsigned byte. */
  newtype uint8 = x: int | 0 <= x < 256

  /** `__RBIT` of `cmsis_iccarm.h`: the same loop over an unsigned 8-bit shift counter. */
  method RbitIar(data: Bits32) returns (result: Bits32)
    ensures result == Mirror(data)
  {
    var sc: uint8 := 31;
    var v, r := data, data;
    v := Shr(v, 1);
    while v != ZERO
      invariant ReversedSoFar(data, v, r, sc as nat)
      decreases sc
    {
      ReverseStep(data, v, r, sc as nat);
      r := Shl(r, 1);
      r := Or(r, And(v, ONE));
      sc := sc - 1;
      v := Shr(v, 1);
    }
    ReverseDone(data, r, sc as nat);
    return Shl(r, sc as nat);
  }

  // ---- Leading zeros --------------------------------------------------------

  /** `c` zeros stand above the highest set bit of `w`; 32 for the zero word. */
  ghost predicate LeadingZeros(w: Bits32, c: nat) {
    && c <= 32
    && (forall i :: 32 - c <= i < 32 ==> !w[i])
    && (c < 32 ==> w[31 - c])
  }

  /** `c` zeros stand below the lowest set bit of `w`; 32 for the zero word. */
  ghost predicate TrailingZeros(w: Bits32, c: nat) {
    && c <= 32
    && (forall i :: 0 <= i < c ==> !w[i])
    && (c < 32 ==> w[c])
  }

  /** The mask loop of `__CLZ`. Both state variables stay in range: the mask never runs out. */
  method Clz(data: Bits32) returns (count: uint8)
    ensures LeadingZeros(data, count as nat)
  {
    if data == ZERO {
      return 32;
    }
    ghost var i :| 0 <= i < 32 && data[i];
    count := 0;
    var mask := Shl(ONE, 31);
    while And(data, mask) == ZERO
      invariant count <= 31
      invariant mask == Shl(ONE, 31 - count as nat)
      invariant forall i :: 32 - count as nat <= i < 32 ==> !data[i]
      decreases 31 - count
    {
      OneBitTest(data, 31 - count as nat);
      assert count < 31;
      count := count + 1;
      mask := Shr(mask, 1);
    }
    OneBitTest(data, 31 - count as nat);
  }

  /** Testing a word against a one-bit mask reads that bit. */
  lemma OneBitTest(w: Bits32, k: nat)
    requires k < 32
    ensures And(w, Shl(ONE, k)) == ZERO <==> !w[k]
  {
    var masked := And(w, Shl(ONE, k));
    assert masked[k] == w[k];
    if !w[k] {
      assert forall i :: 0 <= i < 32 ==> !masked[i];
      assert masked == ZERO;
    }
  }

  /** The count places the number between two consecutive powers of two. */
  lemma LeadingZerosBounds(w: Bits32, c: nat)
    requires LeadingZeros(w, c)
    ensures c == 32 <==> Value(w) == 0
    ensures c < 32 ==> Pow2(31 - c) <= Value(w) < Pow2(32 - c)
  {
    if c == 32 {
      AllClearIsZero(w);
    } else {
      TopBitBounds(w, 31 - c);
      Pow2Monotone(0, 31 - c);
    }
  }

  /** Counting leading zeros of the reversed word counts trailing zeros of the word. */
  lemma ClzOfRbit(w: Bits32, c: nat)
    ensures LeadingZeros(Mirror(w), c) <==> TrailingZeros(w, c)
  {
    if LeadingZeros(Mirror(w), c) {
      forall i | 0 <= i < c
        ensures !w[i]
      {
        assert !Mirror(w)[31 - i];
      }
    }
  }
}
