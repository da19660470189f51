/**
 The enable and pending bits of the NVIC. Writing a one to a set or clear register
 changes one bit of the state behind it; writing a zero changes nothing.
 */
module InterruptSets {
  import opened Bits

  const DEVICE_IRQS := 512

  /** The interrupts whose bit is set in a bank of registers. */
  function Members(bank: seq<Bits32>): (irqs: set<int>)
    requires |bank| == 16
  {
    set n | 0 <= n < DEVICE_IRQS && bank[n / 32][n % 32]
  }

  /** Writing one interrupt's mask to a set register adds that interrupt and no other. */
  lemma SetOne(bank: seq<Bits32>, irq: nat)
    requires |bank| == 16 && irq < DEVICE_IRQS
    ensures Members(bank[irq / 32 := Or(bank[irq / 32], Shl(ONE, irq % 32))]) == Members(bank) + {irq}
  {
    var bank' := bank[irq / 32 := Or(bank[irq / 32], Shl(ONE, irq % 32))];
    forall n | 0 <= n < DEVICE_IRQS
      ensures bank'[n / 32][n % 32] <==> bank[n / 32][n % 32] || n == irq
    {
      MaskBit(irq % 32, n % 32);
    }
  }

  /** Writing one interrupt's mask to a clear register removes that interrupt and no other. */
  lemma ClearOne(bank: seq<Bits32>, irq: nat)
    requires |bank| == 16 && irq < DEVICE_IRQS
    ensures Members(bank[irq / 32 := And(bank[irq / 32], Not(Shl(ONE, irq % 32)))]) == Members(bank) - {irq}
  {
    var bank' := bank[irq / 32 := And(bank[irq / 32], Not(Shl(ONE, irq % 32)))];
    forall n | 0 <= n < DEVICE_IRQS
      ensures bank'[n / 32][n % 32] <==> bank[n / 32][n % 32] && n != irq
    {
      MaskBit(irq % 32, n % 32);
    }
  }

  /** Testing one interrupt's mask decides membership. */
  lemma TestOne(bank: seq<Bits32>, irq: nat)
    requires |bank| == 16 && irq < DEVICE_IRQS
    ensures And(bank[irq / 32], Shl(ONE, irq % 32)) != ZERO <==> irq in Members(bank)
  {
    var w, mask := bank[irq / 32], Shl(ONE, irq % 32);
    assert And(w, mask)[irq % 32] == w[irq % 32];
    if !w[irq % 32] {
      assert forall i :: 0 <= i < 32 ==> !And(w, mask)[i];
      assert And(w, mask) == ZERO;
    }
  }

  datatype Operation = Enable | Disable | SetPending | ClearPending

  datatype Call = Call(op: Operation, irq: int)

  /** The abstract controller state. */
  datatype Sets = Sets(enabled: set<int>, pending: set<int>)

  function Apply(s: Sets, c: Call): Sets {
    if c.irq < 0 then s
    else
      match c.op
      case Enable => s.(enabled := s.enabled + {c.irq})
      case Disable => s.(enabled := s.enabled - {c.irq})
      case SetPending => s.(pending := s.pending + {c.irq})
      case ClearPending => s.(pending := s.pending - {c.irq})
  }

  function Run(s: Sets, calls: seq<Call>): Sets {
    if calls == [] then s else Apply(Run(s, calls[..|calls| - 1]), calls[|calls| - 1])
  }

  class Nvic {
    const enabled: array<Bits32>
    const pending: array<Bits32>

    ghost predicate Valid()
      reads this
    {
      enabled.Length == 16 && pending.Length == 16 && enabled != pending
    }

    ghost function State(): Sets
      requires Valid()
      reads this, enabled, pending
    {
      Sets(Members(enabled[..]), Members(pending[..]))
    }

    constructor ()
      ensures Valid() && fresh(enabled) && fresh(pending)
    {
      enabled := new Bits32[16](_ => ZERO);
      pending := new Bits32[16](_ => ZERO);
    }

    /** A store to ISER or ISPR. */
    method WriteSet(bank: array<Bits32>, i: nat, v: Bits32)
      requires i < bank.Length
      modifies bank
      ensures bank[..] == old(bank[..])[i := Or(old(bank[i]), v)]
    {
      bank[i] := Or(bank[i], v);
    }

    /** A store to ICER or ICPR. */
    method WriteClear(bank: array<Bits32>, i: nat, v: Bits32)
      requires i < bank.Length
      modifies bank
      ensures bank[..] == old(bank[..])[i := And(old(bank[i]), Not(v))]
    {
      bank[i] := And(bank[i], Not(v));
    }

    method EnableIRQ(irq: int)
      requires Valid() && irq < DEVICE_IRQS
      modifies enabled
      ensures State() == Apply(old(State()), Call(Enable, irq))
      ensures forall n :: 0 <= n < 512 ==> (enabled[n / 32][n % 32] <==> n == irq || old(enabled[..])[n / 32][n % 32])
    {
      if irq >= 0 {
        SetOne(enabled[..], irq);
        WriteSet(enabled, irq / 32, Shl(ONE, irq % 32));
      }
    }

    method DisableIRQ(irq: int)
      requires Valid() && irq < DEVICE_IRQS
      modifies enabled
      ensures State() == Apply(old(State()), Call(Disable, irq))
      ensures forall n :: 0 <= n < 512 ==> (enabled[n / 32][n % 32] <==> n != irq && old(enabled[..])[n / 32][n % 32])
    {
      if irq >= 0 {
        ClearOne(enabled[..], irq);
        WriteClear(enabled, irq / 32, Shl(ONE, irq % 32));
      }
    }

    method SetPendingIRQ(irq: int)
      requires Valid() && irq < DEVICE_IRQS
      modifies pending
      ensures State() == Apply(old(State()), Call(SetPending, irq))
      ensures forall n :: 0 <= n < 512 ==> (pending[n / 32][n % 32] <==> n == irq || old(pending[..])[n / 32][n % 32])
    {
      if irq >= 0 {
        SetOne(pending[..], irq);
        WriteSet(pending, irq / 32, Shl(ONE, irq % 32));
      }
    }

    method ClearPendingIRQ(irq: int)
      requires Valid() && irq < DEVICE_IRQS
      modifies pending
      ensures State() == Apply(old(State()), Call(ClearPending, irq))
      ensures forall n :: 0 <= n < 512 ==> (pending[n / 32][n % 32] <==> n != irq && old(pending[..])[n / 32][n % 32])
    {
      if irq >= 0 {
        ClearOne(pending[..], irq);
        WriteClear(pending, irq / 32, Shl(ONE, irq % 32));
      }
    }

    method GetEnableIRQ(irq: int) returns (answer: nat)
      requires Valid() && irq < DEVICE_IRQS
      ensures answer == if irq in State().enabled then 1 else 0
    {
      if irq >= 0 {
        TestOne(enabled[..], irq);
        return if And(enabled[irq / 32], Shl(ONE, irq % 32)) != ZERO then 1 else 0;
      } else {
        return 0;
      }
    }

    method GetPendingIRQ(irq: int) returns (answer: nat)
      requires Valid() && irq < DEVICE_IRQS
      ensures answer == if irq in State().pending then 1 else 0
    {
      if irq >= 0 {
        TestOne(pending[..], irq);
        return if And(pending[irq / 32], Shl(ONE, irq % 32)) != ZERO then 1 else 0;
      } else {
        return 0;
      }
    }

    /** Any run of calls leaves the registers holding exactly the abstract sets. */
    method Drive(calls: seq<Call>)
      requires Valid() && forall c :: c in calls ==> c.irq < DEVICE_IRQS
      modifies enabled, pending
      ensures State() == Run(old(State()), calls)
    {
      ghost var start := State();
      for i := 0 to |calls|
        invariant State() == Run(start, calls[..i])
      {
        var c := calls[i];
        assert c in calls;
        assert calls[..i + 1][..i] == calls[..i];
        match c.op {
          case Enable => EnableIRQ(c.irq);
          case Disable => DisableIRQ(c.irq);
          case SetPending => SetPendingIRQ(c.irq);
          case ClearPending => ClearPendingIRQ(c.irq);
        }
      }
      assert calls[..|calls|] == calls;
    }
  }

  /** The calls of a run that set or clear one interrupt's bit, `on` and `off` naming the pair of operations. */
  function CallsAbout(calls: seq<Call>, irq: int, on: Operation, off: Operation): seq<Operation> {
    if calls == [] then []
    else
      var last := calls[|calls| - 1];
      CallsAbout(calls[..|calls| - 1], irq, on, off)
      + if last.irq == irq && (last.op == on || last.op == off) then [last.op] else []
  }

  /** What a bit is after a run: the last call about it decides, or its value before if there was none. */
  predicate BitAfter(before: bool, about: seq<Operation>, on: Operation) {
    if about == [] then before else about[|about| - 1] == on
  }

  /** An interrupt is enabled or pending exactly as the last call about it left it. */
  lemma {:induction false} LastCallDecides(s: Sets, calls: seq<Call>, irq: nat)
    ensures irq in Run(s, calls).enabled
       <==> BitAfter(irq in s.enabled, CallsAbout(calls, irq, Enable, Disable), Enable)
    ensures irq in Run(s, calls).pending
       <==> BitAfter(irq in s.pending, CallsAbout(calls, irq, SetPending, ClearPending), SetPending)
  {
    if calls != [] {
      LastCallDecides(s, calls[..|calls| - 1], irq);
    }
  }
}
