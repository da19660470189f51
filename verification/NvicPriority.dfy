/**
 The NVIC priority store in its two forms: four priorities packed in each word and
 updated by read-modify-write, and one priority per byte. The first refines the second.
 */
module NvicPriority {
  import opened Bits
  import opened Priority

  /** Interrupts whose priority both forms can hold: device interrupts, and exceptions 8 to 15. */
  predicate Configurable(irq: int) {
    0 <= irq < 496 || (irq < 0 && irq % 16 >= 8)
  }

  /** The place of an interrupt in the abstract store: device interrupts first, then exceptions 8 to 15. */
  function Slot(irq: int): (slot: nat)
    requires Configurable(irq)
    ensures slot < 504
  {
    if irq >= 0 then irq else 488 + irq % 16
  }

  /** Two numbers of one interrupt: exceptions are told apart by their number modulo 16. */
  predicate SameInterrupt(i: int, j: int) {
    i == j || (i < 0 && j < 0 && i % 16 == j % 16)
  }

  /** Different interrupts never share a place. */
  lemma SlotsDistinct(i: int, j: int)
    requires Configurable(i) && Configurable(j)
    ensures Slot(i) == Slot(j) <==> SameInterrupt(i, j)
  {
  }

  /** The implemented bits are the upper ones of the priority byte. */
  function PriorityByte(P: PrioBits, priority: Bits32): Bits8 {
    Zeros(8 - P) + priority[..P]
  }

  function ReadByte(P: PrioBits, b: Bits8): Bits32 {
    b[8 - P..] + Zeros(32 - P)
  }

  /** `(priority << (8U - P)) & 0xFFUL`, common to both forms. */
  function Scaled(P: PrioBits, priority: Bits32): Bits32 {
    And(Shl(priority, 8 - P), LowMask(8))
  }

  lemma ScaledByte(P: PrioBits, priority: Bits32)
    ensures Scaled(P, priority)[..8] == PriorityByte(P, priority)
    ensures Scaled(P, priority) == PriorityByte(P, priority) + Zeros(24)
  {
  }

  /** The stored byte is the priority modulo 2^P, scaled up to the implemented bits. */
  lemma PriorityByteValue(P: PrioBits, priority: Bits32)
    ensures Pow2(P) > 0
    ensures Value(PriorityByte(P, priority)) == Value(priority) % Pow2(P) * Pow2(8 - P)
  {
    LowBitsValue(priority, P);
    AllClearIsZero(Zeros(8 - P));
    ValueAppend(Zeros(8 - P), priority[..P]);
  }

  /**
   The binary point of group g stands above bit g of the stored byte: implemented bits above it hold
   the preemption priority, those up to it the subpriority.
   */
  lemma BinaryPoint(P: PrioBits, group: nat, preempt: Bits32, sub: Bits32, i: nat)
    requires i < 8
    ensures var g, low := group % 8, 8 - P;
            PriorityByte(P, Encode(P, group, preempt, sub))[i]
            == if i < low then false
               else if i <= g then sub[i - low]
               else preempt[i - if g < low then low else g + 1]
  {
    EncodeLayout(P, group, preempt, sub);
  }

  // ---- Packed words ---------------------------------------------------------

  /** `_BIT_SHIFT`, `_SHP_IDX` and `_IP_IDX`; masking a two's complement number is Euclidean remainder. */
  function BitShift(irq: int): nat { irq % 4 * 8 }

  function ShpIdx(irq: int): nat
    requires irq % 16 >= 8
  {
    (irq % 16 - 8) / 4
  }

  function IpIdx(irq: nat): nat { irq / 4 }

  /** The read-modify-write expression of the word form. */
  function Insert(w: Bits32, shift: nat, b: Bits32): Bits32
    requires shift <= 24
  {
    Or(And(w, Not(Shl(LowMask(8), shift))), Shl(b, shift))
  }

  lemma ByteBit(w: Bits32, k: nat, i: nat)
    requires k < 4 && i < 8
    ensures Byte(w, k)[i] == w[8 * k + i]
  {
    assert 8 * k + i < 32;
  }

  /** A shifted byte shows in its own lane only. */
  lemma FieldBit(b: Bits32, lane: nat, k: nat, i: nat)
    requires lane < 4 && k < 4 && i < 8 && b == b[..8] + Zeros(24)
    ensures Shl(b, 8 * lane)[8 * k + i] == (k == lane && b[i])
  {
    if k > lane {
      var m := 8 * (k - lane) + i;
      assert Shl(b, 8 * lane)[8 * k + i] == b[m] == (b[..8] + Zeros(24))[m];
    } else if k == lane {
      assert Shl(b, 8 * lane)[8 * k + i] == b[i];
    }
  }

  lemma InsertBytes(w: Bits32, lane: nat, b: Bits32, k: nat)
    requires lane < 4 && k < 4
    requires b == b[..8] + Zeros(24)
    ensures Byte(Insert(w, 8 * lane, b), k) == if k == lane then b[..8] else Byte(w, k)
  {
    var v := Insert(w, 8 * lane, b);
    var mask := Shl(LowMask(8), 8 * lane);
    var field := Shl(b, 8 * lane);
    forall i | 0 <= i < 8
      ensures Byte(v, k)[i] == (if k == lane then b[..8] else Byte(w, k))[i]
    {
      var j := 8 * k + i;
      assert v[j] == ((w[j] && !mask[j]) || field[j]);
      assert mask[j] <==> k == lane;
      FieldBit(b, lane, k, i);
      ByteBit(v, k, i);
      ByteBit(w, k, i);
      assert b[..8][i] == b[i];
    }
  }

  function Unpack(words: seq<Bits32>): (bytes: seq<Bits8>)
    ensures |bytes| == 4 * |words|
  {
    seq(4 * |words|, n requires 0 <= n < 4 * |words| => Byte(words[n / 4], n % 4))
  }

  /** Rewriting one lane of one word changes exactly one byte of the unpacked store. */
  lemma UnpackInsert(words: seq<Bits32>, n: nat, b: Bits32)
    requires n < 4 * |words|
    requires b == b[..8] + Zeros(24)
    ensures Unpack(words[n / 4 := Insert(words[n / 4], n % 4 * 8, b)]) == Unpack(words)[n := b[..8]]
  {
    var i, lane := n / 4, n % 4;
    var words' := words[i := Insert(words[i], lane * 8, b)];
    forall m | 0 <= m < 4 * |words|
      ensures Unpack(words')[m] == Unpack(words)[n := b[..8]][m]
    {
      if m / 4 == i {
        InsertBytes(words[i], lane, b, m % 4);
        assert m == n <==> m % 4 == lane;
      }
    }
  }

  class WordNvic {
    const P: PrioBits
    const ipr: array<Bits32>
    const shpr: array<Bits32>

    ghost predicate Valid()
      reads this
    {
      ipr.Length == 124 && shpr.Length == 2 && ipr != shpr
    }

    /** The 504 priority bytes the words hold. */
    ghost function Bytes(): (bytes: seq<Bits8>)
      requires Valid()
      reads this, ipr, shpr
      ensures |bytes| == 504
    {
      Unpack(ipr[..]) + Unpack(shpr[..])
    }

    constructor (P: PrioBits)
      ensures Valid() && fresh(ipr) && fresh(shpr)
      ensures this.P == P
    {
      this.P := P;
      ipr := new Bits32[124](_ => ZERO);
      shpr := new Bits32[2](_ => ZERO);
    }

    method SetPriority(irq: int, priority: Bits32)
      requires Valid() && Configurable(irq)
      modifies ipr, shpr
      ensures Bytes() == old(Bytes())[Slot(irq) := PriorityByte(P, priority)]
    {
      ghost var iprs, shprs := ipr[..], shpr[..];
      var field := Scaled(P, priority);
      ScaledByte(P, priority);
      hide Insert, Scaled, PriorityByte, Unpack;
      if irq >= 0 {
        ipr[IpIdx(irq)] := Insert(ipr[IpIdx(irq)], BitShift(irq), field);
        UnpackInsert(iprs, irq, field);
        assert ipr[..] == iprs[irq / 4 := Insert(iprs[irq / 4], irq % 4 * 8, field)];
      } else {
        shpr[ShpIdx(irq)] := Insert(shpr[ShpIdx(irq)], BitShift(irq), field);
        ghost var n := irq % 16 - 8;
        UnpackInsert(shprs, n, field);
        ExceptionLane(irq);
        assert shpr[..] == shprs[n / 4 := Insert(shprs[n / 4], n % 4 * 8, field)];
      }
    }

    method GetPriority(irq: int) returns (priority: Bits32)
      requires Valid() && Configurable(irq)
      ensures priority == ReadByte(P, Bytes()[Slot(irq)])
    {
      hide Shr, And, LowMask, ReadByte, Unpack;
      if irq >= 0 {
        priority := Shr(And(Shr(ipr[IpIdx(irq)], BitShift(irq)), LowMask(8)), 8 - P);
        ReadWords(P, ipr[..], irq);
      } else {
        priority := Shr(And(Shr(shpr[ShpIdx(irq)], BitShift(irq)), LowMask(8)), 8 - P);
        ghost var n := irq % 16 - 8;
        ExceptionLane(irq);
        ReadWords(P, shpr[..], n);
      }
    }
  }

  /** The macros address an exception's byte as they would the device interrupt numbered from exception 8 on. */
  lemma ExceptionLane(irq: int)
    requires irq < 0 && irq % 16 >= 8
    ensures var n := irq % 16 - 8;
            ShpIdx(irq) == n / 4 && BitShift(irq) == n % 4 * 8
  {
    var q, n := irq / 16, irq % 16 - 8;
    if n < 4 {
      Lane(irq, 4 * q + 2, n);
    } else {
      Lane(irq, 4 * q + 3, n - 4);
    }
  }

  lemma Lane(irq: int, row: int, lane: nat)
    requires irq == 4 * row + lane && lane < 4
    ensures irq % 4 == lane
  {
  }

  /** The shift and mask expression of the word form reads byte `n` of the unpacked store. */
  lemma ReadWords(P: PrioBits, words: seq<Bits32>, n: nat)
    requires n < 4 * |words|
    ensures Shr(And(Shr(words[n / 4], n % 4 * 8), LowMask(8)), 8 - P) == ReadByte(P, Unpack(words)[n])
  {
    ReadLane(P, words[n / 4], n % 4);
  }

  lemma ReadLane(P: PrioBits, w: Bits32, lane: nat)
    requires lane < 4
    ensures Shr(And(Shr(w, lane * 8), LowMask(8)), 8 - P) == ReadByte(P, Byte(w, lane))
  {
    assert And(Shr(w, lane * 8), LowMask(8)) == Byte(w, lane) + Zeros(24);
  }

  // ---- One byte each --------------------------------------------------------

  class ByteNvic {
    const P: PrioBits
    const ipr: array<Bits8>
    const shpr: array<Bits8>

    ghost predicate Valid()
      reads this
    {
      ipr.Length == 496 && shpr.Length == 12 && ipr != shpr
    }

    /** The bytes both forms have: exceptions 4 to 7 exist only here. */
    ghost function Bytes(): (bytes: seq<Bits8>)
      requires Valid()
      reads this, ipr, shpr
      ensures |bytes| == 504
    {
      ipr[..] + shpr[4..]
    }

    constructor (P: PrioBits)
      ensures Valid() && fresh(ipr) && fresh(shpr)
      ensures this.P == P
    {
      this.P := P;
      ipr := new Bits8[496](_ => Zeros(8));
      shpr := new Bits8[12](_ => Zeros(8));
    }

    method SetPriority(irq: int, priority: Bits32)
      requires Valid()
      requires Configurable(irq) || (irq < 0 && 4 <= irq % 16 < 8)
      modifies ipr, shpr
      ensures Configurable(irq) ==> Bytes() == old(Bytes())[Slot(irq) := PriorityByte(P, priority)]
      ensures Configurable(irq) ==> shpr[..4] == old(shpr[..4])
      ensures !Configurable(irq) ==> Bytes() == old(Bytes())
      ensures !Configurable(irq) ==> shpr[..4] == old(shpr[..4])[irq % 16 - 4 := PriorityByte(P, priority)]
    {
      ScaledByte(P, priority);
      if irq >= 0 {
        ipr[irq] := Scaled(P, priority)[..8];
      } else {
        shpr[irq % 16 - 4] := Scaled(P, priority)[..8];
      }
    }

    method GetPriority(irq: int) returns (priority: Bits32)
      requires Valid()
      requires Configurable(irq) || (irq < 0 && 4 <= irq % 16 < 8)
      ensures Configurable(irq) ==> priority == ReadByte(P, Bytes()[Slot(irq)])
      ensures !Configurable(irq) ==> priority == ReadByte(P, shpr[irq % 16 - 4])
    {
      if irq >= 0 {
        priority := Shr(ipr[irq] + Zeros(24), 8 - P);
      } else {
        priority := Shr(shpr[irq % 16 - 4] + Zeros(24), 8 - P);
      }
    }
  }

  // ---- Whole histories ------------------------------------------------------

  datatype Call = Set(irq: int, priority: Bits32) | Get(irq: int)

  ghost predicate AllConfigurable(calls: seq<Call>) {
    forall c :: c in calls ==> Configurable(c.irq)
  }

  type PriorityBytes = b: seq<Bits8> | |b| == 504
    witness seq(504, _ => Zeros(8))

  function Apply(P: PrioBits, s: PriorityBytes, c: Call): PriorityBytes
    requires Configurable(c.irq)
  {
    match c
    case Set(irq, priority) => s[Slot(irq) := PriorityByte(P, priority)]
    case Get(_) => s
  }

  function Run(P: PrioBits, s: PriorityBytes, calls: seq<Call>): PriorityBytes
    requires AllConfigurable(calls)
    decreases |calls|
  {
    if calls == [] then s else Run(P, Apply(P, s, calls[0]), calls[1..])
  }

  /** The answers to the Get calls of a history, in call order. */
  function Answers(P: PrioBits, s: PriorityBytes, calls: seq<Call>): seq<Bits32>
    requires AllConfigurable(calls)
    decreases |calls|
  {
    if calls == [] then []
    else
      (if calls[0].Get? then [ReadByte(P, s[Slot(calls[0].irq)])] else [])
      + Answers(P, Apply(P, s, calls[0]), calls[1..])
  }

  lemma {:induction false} RunAppend(P: PrioBits, s: PriorityBytes, calls: seq<Call>, more: seq<Call>)
    requires AllConfigurable(calls) && AllConfigurable(more)
    ensures AllConfigurable(calls + more)
    ensures Run(P, s, calls + more) == Run(P, Run(P, s, calls), more)
    decreases |calls|
  {
    if calls == [] {
      assert calls + more == more;
    } else {
      assert (calls + more)[1..] == calls[1..] + more;
      RunAppend(P, Apply(P, s, calls[0]), calls[1..], more);
    }
  }

  /** A history one call longer: the state steps once, a Get adds its answer. */
  lemma {:induction false} OneMoreCall(P: PrioBits, s: PriorityBytes, calls: seq<Call>, n: nat)
    requires AllConfigurable(calls) && n < |calls|
    ensures AllConfigurable(calls[..n]) && AllConfigurable(calls[..n + 1]) && Configurable(calls[n].irq)
    ensures var now := Run(P, s, calls[..n]);
            && Run(P, s, calls[..n + 1]) == Apply(P, now, calls[n])
            && Answers(P, s, calls[..n + 1]) == Answers(P, s, calls[..n])
             + if calls[n].Get? then [ReadByte(P, now[Slot(calls[n].irq)])] else []
    decreases n
  {
    assert calls[n] in calls;
    if n == 0 {
      assert calls[..1][1..] == [];
    } else {
      assert calls[..n][1..] == calls[1..][..n - 1];
      assert calls[..n + 1][1..] == calls[1..][..n];
      OneMoreCall(P, Apply(P, s, calls[0]), calls[1..], n - 1);
    }
  }

  /** Driven by the same calls from the same contents, both forms answer alike and stay alike. */
  method Lockstep(words: WordNvic, bytes: ByteNvic, calls: seq<Call>) returns (fromWords: seq<Bits32>, fromBytes: seq<Bits32>)
    requires words.Valid() && bytes.Valid() && words.P == bytes.P
    requires {words.ipr, words.shpr} !! {bytes.ipr, bytes.shpr}
    requires words.Bytes() == bytes.Bytes()
    requires AllConfigurable(calls)
    modifies words.ipr, words.shpr, bytes.ipr, bytes.shpr
    ensures fromWords == fromBytes == Answers(words.P, old(words.Bytes()), calls)
    ensures words.Bytes() == bytes.Bytes() == Run(words.P, old(words.Bytes()), calls)
  {
    fromWords, fromBytes := [], [];
    ghost var start := words.Bytes();
    ghost var now := start;
    for i := 0 to |calls|
      invariant fromWords == fromBytes == Answers(words.P, start, calls[..i])
      invariant now == Run(words.P, start, calls[..i])
      invariant words.Bytes() == bytes.Bytes() == now
    {
      OneMoreCall(words.P, start, calls, i);
      now := Apply(words.P, now, calls[i]);
      match calls[i] {
        case Set(irq, priority) =>
          words.SetPriority(irq, priority);
          bytes.SetPriority(irq, priority);
        case Get(irq) =>
          var w := words.GetPriority(irq);
          var b := bytes.GetPriority(irq);
          fromWords, fromBytes := fromWords + [w], fromBytes + [b];
      }
    }
    assert calls[..|calls|] == calls;
  }

  /** No call of the history sets the priority of this interrupt. */
  ghost predicate LeavesAlone(calls: seq<Call>, irq: int) {
    forall c :: c in calls && c.Set? ==> !SameInterrupt(c.irq, irq)
  }

  lemma {:induction false} Untouched(P: PrioBits, s: PriorityBytes, calls: seq<Call>, irq: int)
    requires AllConfigurable(calls) && Configurable(irq) && LeavesAlone(calls, irq)
    ensures Run(P, s, calls)[Slot(irq)] == s[Slot(irq)]
    decreases |calls|
  {
    if calls != [] {
      assert calls[0] in calls;
      SlotsDistinct(calls[0].irq, irq);
      Untouched(P, Apply(P, s, calls[0]), calls[1..], irq);
    }
  }

  /** After any history, a priority reads back as the value last set, reduced to the implemented bits. */
  lemma LastSetWins(P: PrioBits, s: PriorityBytes, before: seq<Call>, irq: int, priority: Bits32, after: seq<Call>)
    requires AllConfigurable(before) && AllConfigurable(after) && Configurable(irq)
    requires LeavesAlone(after, irq)
    ensures AllConfigurable(before + [Set(irq, priority)] + after)
    ensures var end := Run(P, s, before + [Set(irq, priority)] + after);
            && ReadByte(P, end[Slot(irq)]) == Low(priority, P)
            && Pow2(P) > 0
            && Value(ReadByte(P, end[Slot(irq)])) == Value(priority) % Pow2(P)
  {
    var call := [Set(irq, priority)];
    RunAppend(P, s, before, call);
    RunAppend(P, s, before + call, after);
    var middle := Run(P, Run(P, s, before), call);
    assert middle[Slot(irq)] == PriorityByte(P, priority) by {
      assert call[1..] == [];
    }
    Untouched(P, middle, after, irq);
    LowValue(priority, P);
  }

  /** A grouped priority survives storage and any later traffic on other interrupts. */
  lemma GroupedPriorityKept(P: PrioBits, s: PriorityBytes, before: seq<Call>, irq: int, group: nat,
                            preempt: Bits32, sub: Bits32, after: seq<Call>)
    requires AllConfigurable(before) && AllConfigurable(after) && Configurable(irq)
    requires LeavesAlone(after, irq)
    ensures var call := Set(irq, Encode(P, group, preempt, sub));
            && AllConfigurable(before + [call] + after)
            && var end := Run(P, s, before + [call] + after);
            (Decode(P, ReadByte(P, end[Slot(irq)]), group) == (preempt, sub) <==> InRange(P, group, preempt, sub))
  {
    var encoded := Encode(P, group, preempt, sub);
    LastSetWins(P, s, before, irq, encoded, after);
    EncodeLayout(P, group, preempt, sub);
    assert Low(encoded, P) == encoded;
    RoundTrip(P, group, preempt, sub);
  }
}
