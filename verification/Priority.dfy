/**
 `NVIC_EncodePriority` and `NVIC_DecodePriority`: how the implemented priority
 bits are shared between preemption priority and subpriority.
 */
module Priority {
  import opened Bits

  /** Number of implemented priority bits (`__NVIC_PRIO_BITS`). */
  type PrioBits = p: nat | 1 <= p <= 8 witness 4

  function PreemptBits(P: PrioBits, group: nat): nat {
    var g := group % 8;
    if 7 - g > P then P else 7 - g
  }

  /** `g - 7` is unsigned: it wraps below zero for g < 7, and adding `P` wraps it back. */
  function SubBits(P: PrioBits, group: nat): nat {
    var g := group % 8;
    if g + P < 7 then 0 else ((g - 7) % 0x1_0000_0000 + P) % 0x1_0000_0000
  }

  /** The two fields share exactly the implemented bits, whatever the group. */
  lemma FieldsShareBits(P: PrioBits, group: nat)
    ensures PreemptBits(P, group) + SubBits(P, group) == P
  {
  }

  /** The encoded word; the subpriority field lies below the preemption field. */
  function Encode(P: PrioBits, group: nat, preempt: Bits32, sub: Bits32): Bits32 {
    FieldsShareBits(P, group);
    Or(Shl(And(preempt, LowMask(PreemptBits(P, group))), SubBits(P, group)),
       And(sub, LowMask(SubBits(P, group))))
  }

  /** The two out-parameters of `NVIC_DecodePriority`, preemption priority first. */
  function Decode(P: PrioBits, priority: Bits32, group: nat): (Bits32, Bits32) {
    FieldsShareBits(P, group);
    (And(Shr(priority, SubBits(P, group)), LowMask(PreemptBits(P, group))),
     And(priority, LowMask(SubBits(P, group))))
  }

  /** The `k` low bits of a word, as a word. */
  function Low(w: Bits32, k: nat): Bits32
    requires k <= 32
  {
    w[..k] + Zeros(32 - k)
  }

  lemma LowValue(w: Bits32, k: nat)
    requires k <= 32
    ensures Pow2(k) > 0 && Value(Low(w, k)) == Value(w) % Pow2(k)
  {
    LowBitsValue(w, k);
    PadValue(w[..k], 32 - k);
  }

  lemma MaskIsLow(w: Bits32, k: nat)
    requires k <= 32
    ensures And(w, LowMask(k)) == Low(w, k)
  {
  }

  lemma EncodeLayout(P: PrioBits, group: nat, preempt: Bits32, sub: Bits32)
    ensures PreemptBits(P, group) + SubBits(P, group) == P
    ensures Encode(P, group, preempt, sub)
         == sub[..SubBits(P, group)] + preempt[..PreemptBits(P, group)] + Zeros(32 - P)
  {
    FieldsShareBits(P, group);
    var pre, low := PreemptBits(P, group), SubBits(P, group);
    MaskIsLow(preempt, pre);
    MaskIsLow(sub, low);
    assert Shl(Low(preempt, pre), low) == Zeros(low) + preempt[..pre] + Zeros(32 - P);
  }

  /** The encoding is the positional number with digits `preempt` and `sub`. */
  lemma EncodeValue(P: PrioBits, group: nat, preempt: Bits32, sub: Bits32)
    ensures var pre, low := PreemptBits(P, group), SubBits(P, group);
            && Pow2(pre) > 0 && Pow2(low) > 0
            && Value(Encode(P, group, preempt, sub))
            == Value(preempt) % Pow2(pre) * Pow2(low) + Value(sub) % Pow2(low)
  {
    EncodeLayout(P, group, preempt, sub);
    var pre, low := PreemptBits(P, group), SubBits(P, group);
    PadValue(sub[..low] + preempt[..pre], 32 - P);
    ValueAppend(sub[..low], preempt[..pre]);
    LowBitsValue(sub, low);
    LowBitsValue(preempt, pre);
  }

  /** Decoding returns each field reduced to the bits it has under this grouping. */
  lemma DecodeEncode(P: PrioBits, group: nat, preempt: Bits32, sub: Bits32)
    ensures var (p, s) := Decode(P, Encode(P, group, preempt, sub), group);
            var pre, low := PreemptBits(P, group), SubBits(P, group);
            && Pow2(pre) > 0 && Pow2(low) > 0
            && Value(p) == Value(preempt) % Pow2(pre) && Value(s) == Value(sub) % Pow2(low)
  {
    EncodeLayout(P, group, preempt, sub);
    var pre, low := PreemptBits(P, group), SubBits(P, group);
    var e := Encode(P, group, preempt, sub);
    MaskIsLow(Shr(e, low), pre);
    MaskIsLow(e, low);
    assert Low(Shr(e, low), pre) == Low(preempt, pre);
    assert Low(e, low) == Low(sub, low);
    LowValue(preempt, pre);
    LowValue(sub, low);
  }

  ghost predicate InRange(P: PrioBits, group: nat, preempt: Bits32, sub: Bits32) {
    Value(preempt) < Pow2(PreemptBits(P, group)) && Value(sub) < Pow2(SubBits(P, group))
  }

  /** The round trip returns the fields themselves exactly when both are in range. */
  lemma RoundTrip(P: PrioBits, group: nat, preempt: Bits32, sub: Bits32)
    ensures Decode(P, Encode(P, group, preempt, sub), group) == (preempt, sub)
       <==> InRange(P, group, preempt, sub)
  {
    DecodeEncode(P, group, preempt, sub);
    var (p, s) := Decode(P, Encode(P, group, preempt, sub), group);
    SmallRemainder(Value(preempt), Pow2(PreemptBits(P, group)));
    SmallRemainder(Value(sub), Pow2(SubBits(P, group)));
    if InRange(P, group, preempt, sub) {
      ValueInjective(p, preempt);
      ValueInjective(s, sub);
    }
  }

  lemma FieldsRejoin(w: Bits32, low: nat, pre: nat)
    requires low + pre <= 32
    ensures Low(w, low)[..low] + Low(Shr(w, low), pre)[..pre] + Zeros(32 - (low + pre)) == Low(w, low + pre)
  {
    assert Low(w, low)[..low] == w[..low];
    assert Low(Shr(w, low), pre)[..pre] == w[low..low + pre];
    assert w[..low] + w[low..low + pre] == w[..low + pre];
  }

  /** Splitting a priority and joining it again keeps exactly the implemented bits. */
  lemma EncodeDecode(P: PrioBits, group: nat, priority: Bits32)
    ensures var (preempt, sub) := Decode(P, priority, group);
            && Pow2(P) > 0
            && Value(Encode(P, group, preempt, sub)) == Value(priority) % Pow2(P)
  {
    hide Value, Pow2, Low, Encode, Zeros;
    FieldsShareBits(P, group);
    var pre, low := PreemptBits(P, group), SubBits(P, group);
    var (preempt, sub) := Decode(P, priority, group);
    MaskIsLow(Shr(priority, low), pre);
    MaskIsLow(priority, low);
    EncodeLayout(P, group, preempt, sub);
    FieldsRejoin(priority, low, pre);
    LowValue(priority, P);
  }

  /** An encoded priority always fits the implemented bits. */
  lemma EncodeFits(P: PrioBits, group: nat, preempt: Bits32, sub: Bits32)
    ensures Value(Encode(P, group, preempt, sub)) < Pow2(P)
  {
    EncodeLayout(P, group, preempt, sub);
    var e := Encode(P, group, preempt, sub);
    assert e == e[..P] + Zeros(32 - P);
    PadValue(e[..P], 32 - P);
    ValueBound(e[..P]);
  }

  lemma PositionalOrder(p: nat, s: nat, p': nat, s': nat, base: nat)
    requires s < base && s' < base
    ensures p * base + s < p' * base + s' <==> p < p' || (p == p' && s < s')
  {
    assert p' * base - p * base == base * (p' - p);
    if p < p' {
      AtLeastOnce(base, p' - p);
    } else if p' < p {
      AtLeastOnce(base, p - p');
      assert base * (p - p') == -(base * (p' - p));
    }
  }

  /** On in-range fields, encoded order is lexicographic order. */
  lemma EncodeOrdered(P: PrioBits, group: nat, p: Bits32, s: Bits32, p': Bits32, s': Bits32)
    requires InRange(P, group, p, s) && InRange(P, group, p', s')
    ensures Value(Encode(P, group, p, s)) < Value(Encode(P, group, p', s'))
       <==> Value(p) < Value(p') || (Value(p) == Value(p') && Value(s) < Value(s'))
  {
    EncodeValue(P, group, p, s);
    EncodeValue(P, group, p', s');
    var high, base := Pow2(PreemptBits(P, group)), Pow2(SubBits(P, group));
    SmallRemainder(Value(p), high);
    SmallRemainder(Value(p'), high);
    SmallRemainder(Value(s), base);
    SmallRemainder(Value(s'), base);
    PositionalOrder(Value(p), Value(s), Value(p'), Value(s'), base);
  }
}
