/** The portable `__SSAT` and `__USAT` of `cmsis_gcc.h`, on the value ranges of `int32_t` and `uint32_t`. */
module Saturation {
  import opened Bits

  newtype int32 = x: int | -0x8000_0000 <= x < 0x8000_0000

  lemma Pow2Fits(n: nat)
    requires n <= 31
    ensures 1 <= Pow2(n) <= 0x8000_0000
  {
    Pow2Monotone(n, 31);
    Pow2At31();
  }

  /** `__SSAT`: every intermediate value is an `int32`, so nothing overflows. */
  function Ssat(val: int32, sat: uint32): int32 {
    if 1 <= sat <= 32 then
      Pow2Fits(sat as nat - 1);
      var max := (Pow2(sat as nat - 1) - 1) as int32;
      var min := -1 - max;
      if val > max then max else if val < min then min else val
    else
      val
  }

  /** `__USAT`; a saturation width above 31 returns the argument reinterpreted as unsigned. */
  function Usat(val: int32, sat: uint32): uint32 {
    if sat <= 31 then
      Pow2Fits(sat as nat);
      var max := (Pow2(sat as nat) - 1) as uint32;
      if val > max as int32 then max else if val < 0 then 0 else val as uint32
    else
      (val as int % 0x1_0000_0000) as uint32
  }

  function Distance(x: int, y: int): nat {
    if x < y then y - x else x - y
  }

  /** `r` lies in [lo, hi] and nothing else in there is nearer to `x`. */
  ghost predicate NearestIn(x: int, r: int, lo: int, hi: int) {
    && lo <= r <= hi
    && forall y :: lo <= y <= hi ==> Distance(x, r) <= Distance(x, y)
  }

  /** In range, and no other value of the `sat`-bit signed range is nearer to the argument. */
  lemma SsatNearest(val: int32, sat: uint32)
    requires 1 <= sat <= 32
    ensures var half: int := Pow2(sat as nat - 1);
            NearestIn(val as int, Ssat(val, sat) as int, -half, half - 1)
  {
    Pow2Fits(sat as nat - 1);
  }

  lemma UsatNearest(val: int32, sat: uint32)
    requires sat <= 31
    ensures NearestIn(val as int, Usat(val, sat) as int, 0, Pow2(sat as nat) - 1)
  {
    Pow2Fits(sat as nat);
  }

  lemma SsatMonotone(v: int32, w: int32, sat: uint32)
    requires v <= w
    ensures Ssat(v, sat) <= Ssat(w, sat)
  {
    if 1 <= sat <= 32 {
      Pow2Fits(sat as nat - 1);
    }
  }

  /** Above 31 bits the unsigned result wraps, so monotonicity is lost exactly when the sign changes. */
  lemma UsatMonotone(v: int32, w: int32, sat: uint32)
    requires v <= w
    ensures Usat(v, sat) <= Usat(w, sat) <==> sat <= 31 || (v < 0 <==> w < 0)
  {
    if sat <= 31 {
      Pow2Fits(sat as nat);
    }
  }

  /** Saturating twice is saturating once to the narrower width. */
  lemma SsatCompose(val: int32, a: uint32, b: uint32)
    requires 1 <= a <= 32 && 1 <= b <= 32
    ensures Ssat(Ssat(val, a), b) == Ssat(val, if a <= b then a else b)
  {
    Pow2Fits(a as nat - 1);
    Pow2Fits(b as nat - 1);
    if a <= b {
      Pow2Monotone(a as nat - 1, b as nat - 1);
    } else {
      Pow2Monotone(b as nat - 1, a as nat - 1);
    }
  }
}
