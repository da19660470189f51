/** `SysTick_Config`: the reload range check, and the priority it gives to the SysTick exception. */
module SysTickTimer {
  import opened Bits
  import opened Priority
  import opened NvicPriority

  const SYSTICK_IRQN := -1
  const LOAD_RELOAD_MSK: nat := 0xFF_FFFF

  class SysTick {
    var load: nat
    var val: nat
    var ctrl: nat
    const nvic: WordNvic

    constructor (nvic: WordNvic)
      ensures this.nvic == nvic
      ensures load == val == ctrl == 0
    {
      this.nvic := nvic;
      load, val, ctrl := 0, 0, 0;
    }

    /** `ticks - 1` is unsigned: 0 wraps to the largest word and is rejected by the same comparison. */
    method Config(ticks: nat) returns (status: nat)
      requires ticks < 0x1_0000_0000 && nvic.Valid()
      modifies this, nvic.ipr, nvic.shpr
      ensures status == if 1 <= ticks <= 0x100_0000 then 0 else 1
      ensures status == 1 ==> load == old(load) && val == old(val) && ctrl == old(ctrl)
      ensures status == 1 ==> nvic.Bytes() == old(nvic.Bytes())
      ensures status == 0 ==> load + 1 == ticks && val == 0 && ctrl == 4 + 2 + 1
      ensures status == 0 ==> Value(ReadByte(nvic.P, nvic.Bytes()[Slot(-1)])) == Pow2(nvic.P) - 1
      ensures forall slot :: 0 <= slot < 504 && slot != Slot(-1) ==>
                nvic.Bytes()[slot] == old(nvic.Bytes())[slot]
    {
      if (ticks - 1) % 0x1_0000_0000 > LOAD_RELOAD_MSK {
        return 1;
      }
      load := (ticks - 1) % 0x1_0000_0000;
      nvic.SetPriority(SYSTICK_IRQN, LowMask(nvic.P));
      LowestUrgency(nvic.P);
      val := 0;
      ctrl := 4 + 2 + 1;
      return 0;
    }
  }

  /** All implemented bits set is the largest priority number the store can hold. */
  lemma LowestUrgency(P: PrioBits)
    ensures Value(ReadByte(P, PriorityByte(P, LowMask(P)))) == Pow2(P) - 1
    ensures forall b: Bits8 :: Value(ReadByte(P, b)) <= Pow2(P) - 1
  {
    assert ReadByte(P, PriorityByte(P, LowMask(P))) == LowMask(P);
    LowMaskValue(P);
    forall b: Bits8
      ensures Value(ReadByte(P, b)) <= Pow2(P) - 1
    {
      PadValue(b[8 - P..], 32 - P);
      ValueBound(b[8 - P..]);
    }
  }
}
