/**
 `SystemCoreClockUpdate`: the core clock recomputed from the RCC registers.
 A register is a 32-bit number; `(r & mask) >> pos` of a contiguous mask is division
 by 2^pos followed by remainder modulo 2^width. Field positions are those of the
 device header (section 7.4 of RM0440).
 */
module Clock {
  import opened Bits

  const HSI_VALUE: uint32 := 16_000_000
  const HSE_VALUE: uint32 := 24_000_000

  const AHB_PRESC_TABLE: seq<uint32> := [0, 0, 0, 0, 0, 0, 0, 0, 1, 2, 3, 4, 6, 7, 8, 9]

  /** RCC_CFGR: SWS is bits 3:2, HPRE bits 7:4. `SwsInPlace` keeps the field where it is. */
  function SwsInPlace(cfgr: uint32): uint32 { cfgr / 4 % 4 * 4 }
  function Hpre(cfgr: uint32): (f: uint32)
    ensures f < 16
  {
    cfgr / 16 % 16
  }

  /** RCC_PLLCFGR: PLLSRC bits 1:0, PLLM bits 7:4, PLLN bits 14:8, PLLR bits 26:25. */
  function PllSrc(pllcfgr: uint32): uint32 { pllcfgr % 4 }
  function PllM(pllcfgr: uint32): (m: uint32)
    ensures 1 <= m <= 16
  {
    pllcfgr / 16 % 16 + 1
  }
  function PllN(pllcfgr: uint32): (n: uint32)
    ensures n <= 127
  {
    pllcfgr / 256 % 128
  }
  function PllR(pllcfgr: uint32): (r: uint32)
    ensures 2 <= r <= 8
  {
    (pllcfgr / 0x200_0000 % 4 + 1) * 2
  }

  /** The oscillator feeding the PLL. */
  function PllInput(pllcfgr: uint32): uint32 {
    if PllSrc(pllcfgr) == 2 then HSI_VALUE else HSE_VALUE
  }

  /** The divisor the AHB prescaler field stands for. */
  function AhbDivisor(hpre: uint32): (d: uint32)
    requires hpre < 16
    ensures d >= 1
  {
    if hpre < 8 then 1
    else [2, 4, 8, 16, 64, 128, 256, 512][hpre - 8]
  }

  /** `x >> n` */
  function ShiftRight(x: uint32, n: uint32): (y: uint32)
    ensures y <= x
  {
    Pow2Monotone(0, n as nat);
    QuotientBound(x as nat, Pow2(n as nat));
    (x as nat / Pow2(n as nat)) as uint32
  }

  lemma NotNegative(d: nat, q: int, r: nat)
    requires r < d && d * q + r >= 0
    ensures q >= 0
  {
  }

  lemma QuotientBound(x: nat, d: nat)
    requires d >= 1
    ensures 0 <= x / d <= x
  {
    var q, r := x / d, x % d;
    assert x == d * q + r;
    NotNegative(d, q, r);
    AtLeastOnce(q, d);
  }

  /** The table entry is the logarithm of the divisor. */
  lemma TableIsLogarithm(hpre: uint32)
    requires hpre < 16
    ensures Pow2(AHB_PRESC_TABLE[hpre] as nat) == AhbDivisor(hpre) as nat
  {
    assert Pow2(0) == 1 && Pow2(1) == 2 && Pow2(2) == 4 && Pow2(3) == 8 && Pow2(4) == 16;
    assert Pow2(6) == 4 * Pow2(4) && Pow2(7) == 8 * Pow2(4);
    assert Pow2(9) == 4 * Pow2(7) && Pow2(8) == 2 * Pow2(7);
  }

  /** Shifting by the table entry divides by the prescaler the field stands for. */
  lemma ShiftIsDivision(x: uint32, hpre: uint32)
    requires hpre < 16
    ensures ShiftRight(x, AHB_PRESC_TABLE[hpre]) == x / AhbDivisor(hpre)
  {
    TableIsLogarithm(hpre);
  }

  /** The VCO product fits 32 bits for every register content. */
  lemma VcoFits(pllvco: uint32, m: uint32, n: uint32, source: uint32)
    requires 1 <= m && n <= 127 && source <= HSE_VALUE && pllvco == source / m
    ensures pllvco as int * n as int < 0x1_0000_0000
  {
    QuotientBound(source as nat, m as nat);
    ProductBound(pllvco as int, n as int);
  }

  lemma ProductBound(a: nat, b: nat)
    requires a <= 24_000_000 && b <= 127
    ensures a * b <= 24_000_000 * 127
  {
  }

  // ---- The specification ------------------------------------------------------------

  predicate KnownSource(cfgr: uint32) {
    SwsInPlace(cfgr) in {0x04, 0x08, 0x0C}
  }

  /** PLL_VCO = source / PLLM * PLLN; SYSCLK = PLL_VCO / PLLR, both divisions truncating. */
  function PllOutput(source: uint32, m: uint32, n: uint32, r: uint32): uint32
    requires source <= HSE_VALUE && 1 <= m && n <= 127 && 1 <= r
  {
    var vco := source / m;
    VcoFits(vco, m, n, source);
    assert vco as int * n as int < 0x1_0000_0000;
    vco * n / r
  }

  /** The system clock before the AHB prescaler. */
  function SysClk(cfgr: uint32, pllcfgr: uint32): uint32
    requires KnownSource(cfgr)
  {
    if SwsInPlace(cfgr) == 0x04 then HSI_VALUE
    else if SwsInPlace(cfgr) == 0x08 then HSE_VALUE
    else
      PllOutput(PllInput(pllcfgr), PllM(pllcfgr), PllN(pllcfgr), PllR(pllcfgr))
  }

  /** The value of SystemCoreClock after an update that found it at `clock`. */
  function Updated(cfgr: uint32, pllcfgr: uint32, clock: uint32): uint32 {
    (if KnownSource(cfgr) then SysClk(cfgr, pllcfgr) else clock) / AhbDivisor(Hpre(cfgr))
  }

  class Rcc {
    var cfgr: uint32
    var pllcfgr: uint32
    var systemCoreClock: uint32

    constructor (cfgr: uint32, pllcfgr: uint32)
      ensures this.cfgr == cfgr && this.pllcfgr == pllcfgr && systemCoreClock == HSI_VALUE
    {
      this.cfgr, this.pllcfgr, systemCoreClock := cfgr, pllcfgr, HSI_VALUE;
    }

    /** Assigns the locals step by step as the driver does; an unrecognised source keeps the previous value. */
    method SystemCoreClockUpdate()
      modifies this`systemCoreClock
      ensures systemCoreClock == Updated(cfgr, pllcfgr, old(systemCoreClock))
    {
      hide SwsInPlace, Hpre, PllM, PllN, PllR, PllSrc, ShiftRight, AhbDivisor;
      var sws := SwsInPlace(cfgr);
      if sws == 0x04 {
        systemCoreClock := HSI_VALUE;
      } else if sws == 0x08 {
        systemCoreClock := HSE_VALUE;
      } else if sws == 0x0C {
        var pllsource := PllSrc(pllcfgr);
        var pllm := PllM(pllcfgr);
        var pllvco;
        if pllsource == 0x02 {
          pllvco := HSI_VALUE / pllm;
        } else {
          pllvco := HSE_VALUE / pllm;
        }
        var plln := PllN(pllcfgr);
        VcoFits(pllvco, pllm, plln, PllInput(pllcfgr));
        assert pllvco as int * plln as int < 0x1_0000_0000;
        pllvco := pllvco * plln;
        var pllr := PllR(pllcfgr);
        systemCoreClock := pllvco / pllr;
      }
      var tmp := AHB_PRESC_TABLE[Hpre(cfgr)];
      ShiftIsDivision(systemCoreClock, Hpre(cfgr));
      systemCoreClock := ShiftRight(systemCoreClock, tmp);
    }
  }

  // ---- In numbers -------------------------------------------------------------------------

  /** RCC_PLLCFGR written out by its fields, reserved and other bits included. */
  function PllConfiguration(src: nat, b3to2: nat, m: nat, n: nat, b24to15: nat, r: nat, b31to27: nat): nat {
    src + 0x4 * b3to2 + 0x10 * m + 0x100 * n + 0x8000 * b24to15 + 0x200_0000 * r + 0x800_0000 * b31to27
  }

  /** A field of `width` values between `low` and `high`. */
  lemma Field(x: nat, low: nat, pos: nat, f: nat, width: nat, high: nat)
    requires low < pos && f < width && x == low + pos * (f + width * high)
    ensures x / pos % width == f
  {
    Quotient(x, low, pos, f + width * high);
    RemainderUnique(f + width * high, width, high, f);
  }

  lemma Quotient(x: nat, low: nat, pos: nat, q: nat)
    requires low < pos && x == low + pos * q
    ensures x / pos == q
  {
    RemainderUnique(x, pos, q, low);
    var p := x / pos;
    assert x == pos * p + low;
    ProductMonotone(pos, p, q);
  }

  lemma PllFields(pllcfgr: uint32, src: nat, b3to2: nat, m: nat, n: nat, b24to15: nat, r: nat, b31to27: nat)
    requires src < 4 && b3to2 < 4 && m < 16 && n < 128 && b24to15 < 0x400 && r < 4 && b31to27 < 32
    requires pllcfgr as int == PllConfiguration(src, b3to2, m, n, b24to15, r, b31to27)
    ensures PllSrc(pllcfgr) as int == src && PllM(pllcfgr) as int == m + 1
    ensures PllN(pllcfgr) as int == n && PllR(pllcfgr) as int == 2 * (r + 1)
  {
    var x := pllcfgr as nat;
    var aboveR := r + 4 * b31to27;
    var aboveN := b24to15 + 0x400 * aboveR;
    var aboveM := n + 128 * aboveN;
    Field(x, 0, 1, src, 4, b3to2 + 4 * (m + 16 * aboveM));
    Field(x, src + 4 * b3to2, 16, m, 16, aboveM);
    Field(x, src + 4 * b3to2 + 16 * m, 256, n, 128, aboveN);
    Field(x, src + 4 * b3to2 + 16 * m + 256 * n + 0x8000 * b24to15, 0x200_0000, r, 4, b31to27);
  }

  lemma ConfigurationFields(cfgr: uint32, b1to0: nat, sws: nat, hpre: nat, b31to8: nat)
    requires b1to0 < 4 && sws < 4 && hpre < 16
    requires cfgr as int == b1to0 + 0x4 * sws + 0x10 * hpre + 0x100 * b31to8
    ensures SwsInPlace(cfgr) as int == 4 * sws && Hpre(cfgr) as int == hpre
  {
    Field(cfgr as nat, b1to0, 4, sws, 4, hpre + 16 * b31to8);
    Field(cfgr as nat, b1to0 + 4 * sws, 16, hpre, 16, b31to8);
  }

  /**
   The clock after an update, from the numbers in the register fields: 1 selects HSI, 2 HSE, 3 the PLL,
   fed by HSI exactly for source 2.
   */
  lemma UpdatedInNumbers(cfgr: uint32, b1to0: nat, sws: nat, hpre: nat, b31to8: nat, pllcfgr: uint32,
                         src: nat, b3to2: nat, m: nat, n: nat, b24to15: nat, r: nat, b31to27: nat, clock: uint32)
    requires b1to0 < 4 && sws < 4 && hpre < 16
    requires cfgr as int == b1to0 + 0x4 * sws + 0x10 * hpre + 0x100 * b31to8
    requires src < 4 && b3to2 < 4 && m < 16 && n < 128 && b24to15 < 0x400 && r < 4 && b31to27 < 32
    requires pllcfgr as int == PllConfiguration(src, b3to2, m, n, b24to15, r, b31to27)
    ensures var input := if src == 2 then 16_000_000 else 24_000_000;
            var sysclk := if sws == 1 then 16_000_000
                          else if sws == 2 then 24_000_000
                          else if sws == 3 then input / (m + 1) * n / (2 * (r + 1))
                          else clock as int;
            Updated(cfgr, pllcfgr, clock) as int == sysclk / [1, 1, 1, 1, 1, 1, 1, 1, 2, 4, 8, 16, 64, 128, 256, 512][hpre]
  {
    hide PllSrc, PllM, PllN, PllR, Hpre, SwsInPlace, PllConfiguration;
    ConfigurationFields(cfgr, b1to0, sws, hpre, b31to8);
    PllFields(pllcfgr, src, b3to2, m, n, b24to15, r, b31to27);
  }

  // ---- What the value is worth --------------------------------------------------------

  /** Two truncating divisions around a multiplication lose less than one output step plus n/r input steps. */
  lemma StagedDivision(source: nat, m: nat, n: nat, r: nat)
    requires m >= 1 && r >= 1
    ensures var c := source / m * n / r;
            c * (m * r) <= source * n < (c + 1) * (m * r) + n * m
  {
    var v, e := source / m, source % m;
    var c, f := v * n / r, v * n % r;
    StagedProduct(source, m, n, r, v, e, c, f);
    ProductMonotone(m, f, r - 1);
    ProductMonotone(n, e, m - 1);
    assert (c + 1) * (m * r) == c * (m * r) + m * r;
    assert m * (r - 1) == m * r - m && n * (m - 1) == n * m - n;
  }

  lemma ProductMonotone(a: nat, x: nat, y: int)
    requires x <= y
    ensures 0 <= a * x <= a * y
  {
  }

  lemma StagedProduct(source: nat, m: nat, n: nat, r: nat, v: int, e: int, c: int, f: int)
    requires source == m * v + e && v * n == r * c + f
    ensures source * n == c * (m * r) + m * f + n * e
  {
    calc {
      source * n;
      (m * v + e) * n;
      m * (v * n) + e * n;
      { assert v * n == r * c + f; }
      m * (r * c + f) + e * n;
      m * (r * c) + m * f + e * n;
    }
  }

  /** With the PLL selected, the system clock c satisfies c <= src*N/(M*R) < c + 1 + N/R, here multiplied through by M*R. */
  lemma PllAccuracy(cfgr: uint32, pllcfgr: uint32)
    requires SwsInPlace(cfgr) == 0x0C
    ensures var c, src := SysClk(cfgr, pllcfgr) as int, PllInput(pllcfgr) as int;
            var m, n, r := PllM(pllcfgr) as int, PllN(pllcfgr) as int, PllR(pllcfgr) as int;
            c * (m * r) <= src * n < (c + 1) * (m * r) + n * m
  {
    StagedDivision(PllInput(pllcfgr) as int, PllM(pllcfgr) as int, PllN(pllcfgr) as int, PllR(pllcfgr) as int);
  }

  /**
   A second update with unchanged registers changes nothing exactly when the source is known.
   For an unrecognised source the old value is prescaled once more, unless the prescaler is 1
   or the value was below it and is gone already.
   */
  lemma UpdateTwice(cfgr: uint32, pllcfgr: uint32, clock: uint32)
    ensures var once, d := Updated(cfgr, pllcfgr, clock), AhbDivisor(Hpre(cfgr));
            (Updated(cfgr, pllcfgr, once) == once <==> KnownSource(cfgr) || d == 1 || clock < d)
  {
    var once, d := Updated(cfgr, pllcfgr, clock), AhbDivisor(Hpre(cfgr));
    QuotientIsZero(clock as nat, d as nat);
    if !KnownSource(cfgr) && d > 1 && once > 0 {
      ProperQuotient(once as nat, d as nat);
    }
  }

  /** The hazard in numbers: source 0 is unrecognised, HPRE 8 halves, and the second update halves again. */
  lemma UpdateTwiceHalves()
    ensures Updated(0x80, 0, 16_000_000) == 8_000_000 && Updated(0x80, 0, 8_000_000) == 4_000_000
  {
    assert Hpre(0x80) == 8 && SwsInPlace(0x80) == 0;
  }

  lemma QuotientIsZero(x: nat, d: nat)
    requires d >= 1
    ensures x / d == 0 <==> x < d
  {
    var q, r := x / d, x % d;
    assert x == d * q + r;
    if q >= 1 {
      ProductMonotone(d, 1, q);
    } else if q < 0 {
      NotNegative(d, q, r);
    }
  }

  lemma ProperQuotient(x: nat, d: nat)
    requires d >= 2 && x > 0
    ensures x / d < x
  {
    var q, r := x / d, x % d;
    assert x == d * q + r;
    if q >= x {
      ProductMonotone(d, x, q);
      AtLeastOnce(x, d - 1);
    }
  }
}
