/**
 The CRC-32 of the storage layer, and what it is for: two messages of equal length that
 differ only within 32 consecutive bits never have the same checksum. What it cannot see
 depends on the difference alone, and any checksum can be reached with four bytes.
 */
module Crc {
  import opened Bits

  /** The constant of the loop; its bits are the reflected coefficients of the CRC-32 generator. */
  const POLYNOMIAL: Bits32 := Digits(0xEDB88320, 32)

  function Widen(b: Bits8): Bits32 {
    b + Zeros(24)
  }

  /** One round of the inner loop. */
  function Round(crc: Bits32): Bits32 {
    if crc[0] then Xor(Shr(crc, 1), POLYNOMIAL) else Shr(crc, 1)
  }

  function Rounds(crc: Bits32, n: nat): Bits32 {
    if n == 0 then crc else Round(Rounds(crc, n - 1))
  }

  /** The register after one byte. */
  function ByteStep(crc: Bits32, b: Bits8): Bits32 {
    Rounds(Xor(crc, Widen(b)), 8)
  }

  function CrcFrom(crc: Bits32, data: seq<Bits8>): Bits32 {
    if data == [] then crc else ByteStep(CrcFrom(crc, data[..|data| - 1]), data[|data| - 1])
  }

  const ALL_ONES: Bits32 := Ones(32)

  function Crc32(data: seq<Bits8>): Bits32 {
    Xor(CrcFrom(ALL_ONES, data), ALL_ONES)
  }

  /** `Storage_Crc32` */
  method StorageCrc32(data: seq<Bits8>) returns (result: Bits32)
    ensures result == Crc32(data)
  {
    var crc := ALL_ONES;
    for i := 0 to |data|
      invariant crc == CrcFrom(ALL_ONES, data[..i])
    {
      crc := Xor(crc, Widen(data[i]));
      ghost var mixed := crc;
      for b := 0 to 8
        invariant crc == Rounds(mixed, b)
      {
        if And(crc, ONE) != ZERO {
          LowBit(crc);
          crc := Xor(Shr(crc, 1), POLYNOMIAL);
        } else {
          LowBit(crc);
          crc := Shr(crc, 1);
        }
      }
      assert data[..i + 1][..i] == data[..i];
    }
    assert data[..|data|] == data;
    return Xor(crc, ALL_ONES);
  }

  lemma LowBit(w: Bits32)
    ensures And(w, ONE) != ZERO <==> w[0]
  {
    assert And(w, ONE)[0] == w[0];
    if !w[0] {
      assert And(w, ONE) == ZERO;
    }
  }

  // ---- A round is linear and loses nothing ------------------------------------------

  lemma TopPolynomialBit()
    ensures POLYNOMIAL[31]
  {
    Pow2At31();
    assert Pow2(32) == 2 * Pow2(31);
    TopDigit(0xEDB88320, 32);
  }

  /** The top digit of a number that fills its width is set. */
  lemma {:induction false} TopDigit(n: nat, width: nat)
    requires width >= 1 && Pow2(width - 1) <= n < Pow2(width)
    ensures Digits(n, width)[width - 1]
    decreases width
  {
    if width > 1 {
      TopDigit(n / 2, width - 1);
    }
  }

  lemma RoundLinear(x: Bits32, y: Bits32)
    ensures Round(Xor(x, y)) == Xor(Round(x), Round(y))
  {
    hide Digits;
    assert Xor(x, y)[0] == (x[0] != y[0]);
    assert Shr(Xor(x, y), 1) == Xor(Shr(x, 1), Shr(y, 1));
  }

  lemma {:induction false} RoundsLinear(x: Bits32, y: Bits32, n: nat)
    ensures Rounds(Xor(x, y), n) == Xor(Rounds(x, n), Rounds(y, n))
  {
    if n > 0 {
      RoundsLinear(x, y, n - 1);
      RoundLinear(Rounds(x, n - 1), Rounds(y, n - 1));
    }
  }

  /** The top bit of a round's result tells which branch was taken, and the branch determines the rest. */
  lemma RoundInjective(x: Bits32, y: Bits32)
    requires Round(x) == Round(y)
    ensures x == y
  {
    TopPolynomialBit();
    Undo(x, y, POLYNOMIAL);
  }

  lemma Undo(x: Bits32, y: Bits32, p: Bits32)
    requires p[31]
    requires (if x[0] then Xor(Shr(x, 1), p) else Shr(x, 1)) == (if y[0] then Xor(Shr(y, 1), p) else Shr(y, 1))
    ensures x == y
  {
    var r := if x[0] then Xor(Shr(x, 1), p) else Shr(x, 1);
    assert r[31] == x[0] == y[0];
    forall i | 1 <= i < 32
      ensures x[i] == y[i]
    {
      assert Shr(x, 1)[i - 1] == x[i] && Shr(y, 1)[i - 1] == y[i];
      assert r[i - 1] == (x[i] != (x[0] && p[i - 1])) == (y[i] != (y[0] && p[i - 1]));
    }
  }

  lemma {:induction false} RoundsInjective(x: Bits32, y: Bits32, n: nat)
    requires Rounds(x, n) == Rounds(y, n)
    ensures x == y
  {
    if n > 0 {
      RoundInjective(Rounds(x, n - 1), Rounds(y, n - 1));
      RoundsInjective(x, y, n - 1);
    }
  }

  lemma {:induction false} RoundsAdd(x: Bits32, m: nat, n: nat)
    ensures Rounds(Rounds(x, m), n) == Rounds(x, m + n)
  {
    if n > 0 {
      RoundsAdd(x, m, n - 1);
    }
  }

  /** Rounds over clear low bits only shift. */
  lemma {:induction false} RoundsShift(x: Bits32, n: nat)
    requires n <= 32 && forall i :: 0 <= i < n ==> !x[i]
    ensures Rounds(x, n) == Shr(x, n)
  {
    if n > 0 {
      RoundsShift(x, n - 1);
      assert Shr(x, n - 1)[0] == x[n - 1];
      assert Shr(Shr(x, n - 1), 1) == Shr(x, n);
    }
  }

  // ---- Bursts ---------------------------------------------------------------------------

  /** Up to four bytes as one word. */
  function Pack(data: seq<Bits8>): (w: Bits32)
    requires |data| <= 4
  {
    Join(data) + Zeros(32 - 8 * |data|)
  }

  function Join(data: seq<Bits8>): (b: seq<bool>)
    ensures |b| == 8 * |data|
  {
    if data == [] then [] else Join(data[..|data| - 1]) + data[|data| - 1]
  }

  lemma {:induction false} JoinInjective(a: seq<Bits8>, b: seq<Bits8>)
    requires |a| == |b| && Join(a) == Join(b)
    ensures a == b
  {
    if a != [] {
      var n := |a| - 1;
      assert Join(a[..n]) == Join(a)[..8 * n] && a[n] == Join(a)[8 * n..];
      assert Join(b[..n]) == Join(b)[..8 * n] && b[n] == Join(b)[8 * n..];
      JoinInjective(a[..n], b[..n]);
      assert a == a[..n] + [a[n]] && b == b[..n] + [b[n]];
    }
  }

  /** A byte at position `n` of a word. */
  function At(b: Bits8, n: nat): Bits32
    requires n <= 3
  {
    Zeros(8 * n) + b + Zeros(24 - 8 * n)
  }

  lemma AtShifts(b: Bits8, n: nat)
    requires n <= 3
    ensures Rounds(At(b, n), 8 * n) == Widen(b)
  {
    RoundsShift(At(b, n), 8 * n);
    assert Shr(At(b, n), 8 * n) == Widen(b);
  }

  lemma PackNext(crc: Bits32, data: seq<Bits8>, n: nat)
    requires |data| == n + 1 <= 4
    ensures Xor(crc, Pack(data)) == Xor(Xor(crc, Pack(data[..n])), At(data[n], n))
  {
    var front := Join(data[..n]);
    assert Pack(data) == front + data[n] + Zeros(24 - 8 * n);
    assert Pack(data[..n]) == front + Zeros(32 - 8 * n);
  }

  /** The register after up to four bytes depends on them as if they had been mixed in as one word. */
  lemma {:induction false} WordAtOnce(crc: Bits32, data: seq<Bits8>)
    requires |data| <= 4
    ensures CrcFrom(crc, data) == Rounds(Xor(crc, Pack(data)), 8 * |data|)
  {
    if data == [] {
      assert Xor(crc, Pack(data)) == crc;
    } else {
      var n := |data| - 1;
      var mixed := Xor(crc, Pack(data[..n]));
      WordAtOnce(crc, data[..n]);
      NextByte(mixed, data[n], n);
      PackNext(crc, data, n);
    }
  }

  /** Mixing a byte in later is mixing it in higher up. */
  lemma NextByte(mixed: Bits32, b: Bits8, n: nat)
    requires n <= 3
    ensures ByteStep(Rounds(mixed, 8 * n), b) == Rounds(Xor(mixed, At(b, n)), 8 * n + 8)
  {
    AtShifts(b, n);
    RoundsLinear(mixed, At(b, n), 8 * n);
    RoundsAdd(Xor(mixed, At(b, n)), 8 * n, 8);
  }

  lemma XorCancels(c: Bits32, x: Bits32, y: Bits32)
    requires Xor(c, x) == Xor(c, y)
    ensures x == y
  {
    forall i | 0 <= i < 32
      ensures x[i] == y[i]
    {
      assert Xor(c, x)[i] == Xor(c, y)[i];
    }
  }

  lemma XorCommutes(x: Bits32, y: Bits32)
    ensures Xor(x, y) == Xor(y, x)
  {
  }

  /** From one register state, different short byte strings lead to different states. */
  lemma ShortStringsDiffer(crc: Bits32, a: seq<Bits8>, b: seq<Bits8>)
    requires |a| == |b| <= 4 && CrcFrom(crc, a) == CrcFrom(crc, b)
    ensures a == b
  {
    WordAtOnce(crc, a);
    WordAtOnce(crc, b);
    RoundsInjective(Xor(crc, Pack(a)), Xor(crc, Pack(b)), 8 * |a|);
    XorCancels(crc, Pack(a), Pack(b));
    assert Join(a) == Pack(a)[..8 * |a|] && Join(b) == Pack(b)[..8 * |b|];
    JoinInjective(a, b);
  }

  /** The same bytes keep different register states different. */
  lemma {:induction false} SameTailKeepsDifference(c: Bits32, d: Bits32, tail: seq<Bits8>)
    requires CrcFrom(c, tail) == CrcFrom(d, tail)
    ensures c == d
  {
    if tail != [] {
      var front, last := tail[..|tail| - 1], Widen(tail[|tail| - 1]);
      var x, y := CrcFrom(c, front), CrcFrom(d, front);
      RoundsInjective(Xor(x, last), Xor(y, last), 8);
      assert Xor(x, last) == Xor(last, x) && Xor(y, last) == Xor(last, y);
      XorCancels(last, x, y);
      SameTailKeepsDifference(c, d, front);
    }
  }

  lemma {:induction false} CrcFromAppend(crc: Bits32, a: seq<Bits8>, b: seq<Bits8>)
    ensures CrcFrom(crc, a + b) == CrcFrom(CrcFrom(crc, a), b)
  {
    if b == [] {
      assert a + b == a;
    } else {
      var n := |b| - 1;
      assert (a + b)[..|a| + n] == a + b[..n];
      CrcFromAppend(crc, a, b[..n]);
    }
  }

  /** Equal checksums around a change mean equal registers right after it. */
  lemma ChangeShows(before: seq<Bits8>, a: seq<Bits8>, b: seq<Bits8>, after: seq<Bits8>)
    requires Crc32(before + a + after) == Crc32(before + b + after)
    ensures CrcFrom(CrcFrom(ALL_ONES, before), a) == CrcFrom(CrcFrom(ALL_ONES, before), b)
  {
    hide CrcFrom, Xor;
    CrcFromAppend(ALL_ONES, before + a, after);
    CrcFromAppend(ALL_ONES, before + b, after);
    CrcFromAppend(ALL_ONES, before, a);
    CrcFromAppend(ALL_ONES, before, b);
    var x, y := CrcFrom(ALL_ONES, before + a + after), CrcFrom(ALL_ONES, before + b + after);
    XorCommutes(ALL_ONES, x);
    XorCommutes(ALL_ONES, y);
    XorCancels(ALL_ONES, x, y);
    SameTailKeepsDifference(CrcFrom(ALL_ONES, before + a), CrcFrom(ALL_ONES, before + b), after);
  }

  /** Every change confined to four consecutive bytes changes the checksum. */
  lemma BurstDetected(before: seq<Bits8>, a: seq<Bits8>, b: seq<Bits8>, after: seq<Bits8>)
    requires |a| == |b| <= 4
    ensures Crc32(before + a + after) == Crc32(before + b + after) <==> a == b
  {
    if Crc32(before + a + after) == Crc32(before + b + after) {
      ChangeShows(before, a, b, after);
      ShortStringsDiffer(CrcFrom(ALL_ONES, before), a, b);
    }
  }

  /** The two five-byte strings differ only in the 32 bits from bit `o` on, the low bit of each byte first. */
  ghost predicate WithinWindow(a: seq<Bits8>, b: seq<Bits8>, o: nat) {
    && |a| == |b| == 5 && o <= 8
    && (forall i :: 0 <= i < o ==> Join(a)[i] == Join(b)[i])
    && (forall i :: o + 32 <= i < 40 ==> Join(a)[i] == Join(b)[i])
  }

  /** So does every change confined to 32 consecutive bits, wherever they begin within a byte. */
  lemma BitBurstDetected(before: seq<Bits8>, a: seq<Bits8>, b: seq<Bits8>, after: seq<Bits8>, o: nat)
    requires WithinWindow(a, b, o)
    ensures Crc32(before + a + after) == Crc32(before + b + after) <==> a == b
  {
    if Crc32(before + a + after) == Crc32(before + b + after) {
      ChangeShows(before, a, b, after);
      WindowDiffers(CrcFrom(ALL_ONES, before), a, b, o);
    }
  }

  lemma WindowDiffers(crc: Bits32, a: seq<Bits8>, b: seq<Bits8>, o: nat)
    requires WithinWindow(a, b, o) && CrcFrom(crc, a) == CrcFrom(crc, b)
    ensures a == b
  {
    var x, y := Xor(crc, Pack(a[..4])), Xor(crc, Pack(b[..4]));
    var p, q := Widen(a[4]), Widen(b[4]);
    WordAtOnce(crc, a[..4]);
    WordAtOnce(crc, b[..4]);
    RoundsInjective(Xor(Rounds(x, 32), p), Xor(Rounds(y, 32), q), 8);
    RoundsLinear(x, y, 32);
    Rebalance(Rounds(x, 32), p, Rounds(y, 32), q);
    WindowHalves(crc, a, b, o);
    HalvesVanish(Xor(x, y), Xor(p, q), o);
    SameWords(crc, Pack(a[..4]), Pack(b[..4]));
    assert Join(a) == Join(a[..4]) + a[4] && Join(b) == Join(b[..4]) + b[4];
    assert a[4] == p[..8] && b[4] == q[..8];
    assert p == q by {
      forall i | 0 <= i < 32
        ensures p[i] == q[i]
      {
        assert !Xor(p, q)[i];
      }
    }
    assert Join(a[..4]) == Pack(a[..4]) && Join(b[..4]) == Pack(b[..4]);
    JoinInjective(a, b);
  }

  lemma Rebalance(x: Bits32, p: Bits32, y: Bits32, q: Bits32)
    requires Xor(x, p) == Xor(y, q)
    ensures Xor(x, y) == Xor(p, q)
  {
    forall i | 0 <= i < 32
      ensures Xor(x, y)[i] == Xor(p, q)[i]
    {
      assert Xor(x, p)[i] == Xor(y, q)[i];
    }
  }

  lemma SameWords(crc: Bits32, v: Bits32, w: Bits32)
    requires forall i :: 0 <= i < 32 ==> !Xor(Xor(crc, v), Xor(crc, w))[i]
    ensures v == w
  {
    forall i | 0 <= i < 32
      ensures v[i] == w[i]
    {
      assert !Xor(Xor(crc, v), Xor(crc, w))[i];
    }
  }

  /** The first four bytes differ only from bit `o` on, the fifth only below it. */
  lemma WindowHalves(crc: Bits32, a: seq<Bits8>, b: seq<Bits8>, o: nat)
    requires WithinWindow(a, b, o)
    ensures forall i :: 0 <= i < o ==> !Xor(Xor(crc, Pack(a[..4])), Xor(crc, Pack(b[..4])))[i]
    ensures forall i :: o <= i < 32 ==> !Xor(Widen(a[4]), Widen(b[4]))[i]
  {
    assert Join(a) == Pack(a[..4]) + a[4] && Join(b) == Pack(b[..4]) + b[4];
    forall i | 0 <= i < o
      ensures Pack(a[..4])[i] == Pack(b[..4])[i]
    {
      assert Pack(a[..4])[i] == Join(a)[i] && Pack(b[..4])[i] == Join(b)[i];
    }
    forall i | o <= i < 8
      ensures a[4][i] == b[4][i]
    {
      assert a[4][i] == Join(a)[32 + i] && b[4][i] == Join(b)[32 + i];
    }
  }

  /** A word with clear bits below `o` cannot turn within 32 rounds into one with clear bits from `o` on, unless both are zero. */
  lemma HalvesVanish(d: Bits32, e: Bits32, o: nat)
    requires o <= 8 && Rounds(d, 32) == e
    requires forall i :: 0 <= i < o ==> !d[i]
    requires forall i :: o <= i < 32 ==> !e[i]
    ensures forall i :: 0 <= i < 32 ==> !d[i] && !e[i]
  {
    var f := Shl(e, 32 - o);
    RoundsAdd(d, o, 32 - o);
    RoundsShift(d, o);
    RoundsShift(f, 32 - o);
    assert Shr(f, 32 - o) == e;
    RoundsInjective(Shr(d, o), f, 32 - o);
    forall i | 0 <= i < 32
      ensures !d[i] && !e[i]
    {
      if i >= o {
        assert Shr(d, o)[i - o] == d[i] && !f[i - o];
      } else {
        assert f[32 - o + i] == e[i] && !Shr(d, o)[32 - o + i];
      }
    }
  }

  // ---- What the checksum cannot see ------------------------------------------------------

  function XorByte(a: Bits8, b: Bits8): Bits8 {
    seq(8, i requires 0 <= i < 8 => a[i] != b[i])
  }

  function XorBytes(a: seq<Bits8>, b: seq<Bits8>): (d: seq<Bits8>)
    requires |a| == |b|
    ensures |d| == |a|
  {
    if a == [] then [] else
      var n := |a| - 1;
      XorBytes(a[..n], b[..n]) + [XorByte(a[n], b[n])]
  }

  /** The difference of two registers depends only on the difference of what went into them. */
  lemma {:induction false} CrcDifference(c: Bits32, d: Bits32, a: seq<Bits8>, b: seq<Bits8>)
    requires |a| == |b|
    ensures Xor(CrcFrom(c, a), CrcFrom(d, b)) == CrcFrom(Xor(c, d), XorBytes(a, b))
  {
    if a != [] {
      var n := |a| - 1;
      var x, y := CrcFrom(c, a[..n]), CrcFrom(d, b[..n]);
      CrcDifference(c, d, a[..n], b[..n]);
      MixDifference(x, y, a[n], b[n]);
      RoundsLinear(Xor(x, Widen(a[n])), Xor(y, Widen(b[n])), 8);
      assert XorBytes(a, b)[..n] == XorBytes(a[..n], b[..n]);
    }
  }

  lemma MixDifference(x: Bits32, y: Bits32, a: Bits8, b: Bits8)
    ensures Xor(Xor(x, Widen(a)), Xor(y, Widen(b))) == Xor(Xor(x, y), Widen(XorByte(a, b)))
  {
  }

  /** The round backwards: the top bit tells whether the polynomial was mixed in. */
  function Unround(crc: Bits32): Bits32 {
    [crc[31]] + (if crc[31] then Xor(crc, POLYNOMIAL) else crc)[..31]
  }

  lemma RoundOfUnround(crc: Bits32)
    ensures Round(Unround(crc)) == crc
  {
    TopPolynomialBit();
    Redo(crc, POLYNOMIAL);
  }

  lemma Redo(crc: Bits32, p: Bits32)
    requires p[31]
    ensures var u := [crc[31]] + (if crc[31] then Xor(crc, p) else crc)[..31];
            (if u[0] then Xor(Shr(u, 1), p) else Shr(u, 1)) == crc
  {
    var v := if crc[31] then Xor(crc, p) else crc;
    var u := [crc[31]] + v[..31];
    assert Shr(u, 1) == v[..31] + [false];
  }

  function Unrounds(crc: Bits32, n: nat): Bits32
    decreases n
  {
    if n == 0 then crc else Unrounds(Unround(crc), n - 1)
  }

  lemma {:induction false} RoundsOfUnrounds(crc: Bits32, n: nat)
    ensures Rounds(Unrounds(crc, n), n) == crc
    decreases n
  {
    if n > 0 {
      RoundsOfUnrounds(Unround(crc), n - 1);
      RoundOfUnround(crc);
    }
  }

  /** From any register state, some four bytes lead to any other. */
  lemma AnyChecksumReachable(crc: Bits32, data: seq<Bits8>, target: Bits32)
    requires |data| == 4 && Pack(data) == Xor(crc, Unrounds(target, 32))
    ensures CrcFrom(crc, data) == target
  {
    WordAtOnce(crc, data);
    assert Xor(crc, Xor(crc, Unrounds(target, 32))) == Unrounds(target, 32);
    RoundsOfUnrounds(target, 32);
  }
}
