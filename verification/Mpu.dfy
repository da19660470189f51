/**
 Programming the Armv7-M memory protection unit: region by region through RBAR and
 RASR, and table-wise through their alias registers (DDI 0403, sections B3.5.8 to B3.5.10).
 */
module Mpu {
  type Word = bv32

  /** `ARM_MPU_Region_t` */
  datatype Entry = Entry(rbar: Word, rasr: Word)

  /** The selected region, and the base address and attributes of every region. */
  datatype State = State(rnr: nat, base: seq<Word>, attr: seq<Word>)

  predicate WellFormed(s: State) {
    |s.base| == |s.attr| && s.rnr < |s.base|
  }

  /** RBAR fields: REGION in bits 3:0, VALID in bit 4, ADDR above. */
  function Region(rbar: Word): nat { (rbar & 0xF) as nat }

  predicate IsValid(rbar: Word) { rbar & 0x10 != 0 }

  function Address(rbar: Word): Word { rbar & 0xFFFF_FFE0 }

  /** `ARM_MPU_RBAR` names the region and the 32-byte aligned part of the address; without VALID no region is named. */
  lemma RbarFields(region: Word, baseAddress: Word)
    requires region < 16
    ensures var aligned := (baseAddress >> 5) << 5;
            var rbar := (baseAddress & 0xFFFF_FFE0) | (region & 0xF) | 0x10;
            && IsValid(rbar) && Region(rbar) == region as nat && Address(rbar) == aligned
            && !IsValid(aligned) && Address(aligned) == aligned
  {
    assert ((baseAddress & 0xFFFF_FFE0) | (region & 0xF) | 0x10) & 0xF == region;
  }

  /** Naming a region the unit does not have is architecturally unpredictable. */
  predicate Accepts(regions: nat, rbar: Word) {
    IsValid(rbar) ==> Region(rbar) < regions
  }

  function WriteRbar(s: State, v: Word): (s': State)
    requires WellFormed(s) && Accepts(|s.base|, v)
    ensures WellFormed(s') && |s'.base| == |s.base|
  {
    var n := if IsValid(v) then Region(v) else s.rnr;
    State(n, s.base[n := Address(v)], s.attr)
  }

  function WriteRasr(s: State, v: Word): (s': State)
    requires WellFormed(s)
    ensures WellFormed(s') && |s'.base| == |s.base|
  {
    s.(attr := s.attr[s.rnr := v])
  }

  /** What programming one region does. */
  function SetOne(s: State, e: Entry): (s': State)
    requires WellFormed(s) && Accepts(|s.base|, e.rbar)
    ensures WellFormed(s') && |s'.base| == |s.base|
  {
    WriteRasr(WriteRbar(s, e.rbar), e.rasr)
  }

  predicate AllAccepted(regions: nat, table: seq<Entry>) {
    forall k :: 0 <= k < |table| ==> Accepts(regions, table[k].rbar)
  }

  /** Programming the first `n` entries of a table one after the other. */
  function SetMany(s: State, table: seq<Entry>, n: nat): (s': State)
    requires WellFormed(s) && n <= |table| && AllAccepted(|s.base|, table)
    ensures WellFormed(s') && |s'.base| == |s.base|
  {
    if n == 0 then s else SetOne(SetMany(s, table, n - 1), table[n - 1])
  }

  // ---- Bursts into the alias window -------------------------------------------------

  /** Word `k` of the memory a table occupies. */
  function WordAt(table: seq<Entry>, k: nat): Word
    requires k < 2 * |table|
  {
    if k % 2 == 0 then table[k / 2].rbar else table[k / 2].rasr
  }

  /** The unit after the words `src` to `end` of a table went to the window: even words reach RBAR or an alias of it. */
  function Burst(s: State, table: seq<Entry>, src: nat, end: nat): (s': State)
    requires WellFormed(s) && AllAccepted(|s.base|, table) && src % 2 == 0 && src <= end <= 2 * |table|
    ensures WellFormed(s') && |s'.base| == |s.base|
    decreases end
  {
    if end == src then s
    else if end % 2 == 1 then WriteRbar(Burst(s, table, src, end - 1), WordAt(table, end - 1))
    else WriteRasr(Burst(s, table, src, end - 1), WordAt(table, end - 1))
  }

  lemma BurstPair(s: State, table: seq<Entry>, src: nat, k: nat)
    requires WellFormed(s) && AllAccepted(|s.base|, table) && src % 2 == 0 && src <= 2 * k && k < |table|
    ensures Burst(s, table, src, 2 * k + 2) == SetOne(Burst(s, table, src, 2 * k), table[k])
  {
    assert Burst(s, table, src, 2 * k + 1) == WriteRbar(Burst(s, table, src, 2 * k), table[k].rbar);
  }

  /** A burst of table words programs the entries one at a time. */
  lemma {:induction false} BurstIsSetMany(s: State, table: seq<Entry>, n: nat)
    requires WellFormed(s) && AllAccepted(|s.base|, table) && n <= |table|
    ensures Burst(s, table, 0, 2 * n) == SetMany(s, table, n)
  {
    if n > 0 {
      BurstIsSetMany(s, table, n - 1);
      BurstPair(s, table, 0, n - 1);
    }
  }

  /** A second burst continues where the first one stopped. */
  lemma {:induction false} BurstJoin(s: State, table: seq<Entry>, mid: nat, end: nat)
    requires WellFormed(s) && AllAccepted(|s.base|, table) && mid % 2 == 0 && mid <= end <= 2 * |table|
    ensures Burst(Burst(s, table, 0, mid), table, mid, end) == Burst(s, table, 0, end)
    decreases end
  {
    if mid < end {
      BurstJoin(s, table, mid, end - 1);
    }
  }

  /** Bursting the next `k` entries programs them after the first ones. */
  lemma ChunkIsSetMany(s: State, table: seq<Entry>, first: nat, k: nat)
    requires WellFormed(s) && AllAccepted(|s.base|, table) && first + k <= |table|
    ensures Burst(SetMany(s, table, first), table, 2 * first, 2 * first + 2 * k) == SetMany(s, table, first + k)
  {
    hide *;
    BurstIsSetMany(s, table, first);
    BurstIsSetMany(s, table, first + k);
    BurstJoin(s, table, 2 * first, 2 * (first + k));
  }

  class Unit {
    /** Number of RBAR/RASR pairs visible in the register window (`MPU_TYPE_RALIASES`). */
    const aliases: nat
    var rnr: nat
    const base: array<Word>
    const attr: array<Word>

    ghost predicate Valid()
      reads this
    {
      aliases >= 1 && base.Length == attr.Length && base != attr && rnr < base.Length
    }

    ghost function Contents(): (s: State)
      requires Valid()
      reads this, base, attr
      ensures WellFormed(s) && |s.base| == base.Length
    {
      State(rnr, base[..], attr[..])
    }

    constructor (regions: nat, aliases: nat)
      requires 1 <= regions && 1 <= aliases
      ensures Valid() && base.Length == regions && this.aliases == aliases
      ensures fresh(base) && fresh(attr)
    {
      this.aliases := aliases;
      rnr := 0;
      base := new Word[regions](_ => 0);
      attr := new Word[regions](_ => 0);
    }

    /** A store to word `k` of the window that starts at RBAR: even words are RBAR or an alias of it, odd words RASR. */
    method WriteWord(k: nat, v: Word)
      requires Valid() && k < 2 * aliases
      requires k % 2 == 0 ==> Accepts(base.Length, v)
      modifies this, base, attr
      ensures Valid()
      ensures Contents() == if k % 2 == 0 then WriteRbar(old(Contents()), v) else WriteRasr(old(Contents()), v)
    {
      if k % 2 == 0 {
        if IsValid(v) {
          rnr := Region(v);
        }
        base[rnr] := Address(v);
      } else {
        attr[rnr] := v;
      }
    }

    method WriteRnr(n: nat)
      requires Valid() && n < base.Length
      modifies this
      ensures Valid() && Contents() == old(Contents()).(rnr := n)
    {
      rnr := n;
    }

    /** `ARM_MPU_SetRegion` */
    method SetRegion(rbar: Word, rasr: Word)
      requires Valid() && Accepts(base.Length, rbar)
      modifies this, base, attr
      ensures Valid() && Contents() == SetOne(old(Contents()), Entry(rbar, rasr))
    {
      WriteWord(0, rbar);
      WriteWord(1, rasr);
    }

    /** `ARM_MPU_SetRegionEx` */
    method SetRegionEx(n: nat, rbar: Word, rasr: Word)
      requires Valid() && n < base.Length && Accepts(base.Length, rbar)
      modifies this, base, attr
      ensures Valid() && Contents() == SetOne(old(Contents()).(rnr := n), Entry(rbar, rasr))
    {
      WriteRnr(n);
      WriteWord(0, rbar);
      WriteWord(1, rasr);
    }

    /** `ARM_MPU_ClrRegion`: the base address stays, all attributes including ENABLE become zero. */
    method ClrRegion(n: nat)
      requires Valid() && n < base.Length
      modifies this, base, attr
      ensures Valid()
      ensures Contents() == State(n, old(Contents()).base, old(Contents()).attr[n := 0])
    {
      WriteRnr(n);
      WriteWord(1, 0);
    }

    /** `ARM_MPU_OrderedMemcpy` into the window, from word `src` of a table; every word must have a register behind it. */
    method OrderedMemcpy(table: seq<Entry>, src: nat, len: nat)
      requires Valid() && len <= 2 * aliases && src % 2 == 0 && src + len <= 2 * |table|
      requires AllAccepted(base.Length, table)
      modifies this, base, attr
      ensures Valid() && Contents() == Burst(old(Contents()), table, src, src + len)
    {
      ghost var start := Contents();
      var i := 0;
      while i < len
        invariant Valid() && 0 <= i <= len
        invariant Contents() == Burst(start, table, src, src + i)
      {
        WriteWord(i, WordAt(table, src + i));
        i := i + 1;
      }
    }

    /** `ARM_MPU_Load`: full windows while more than one remains, then the rest; entries behind the first `count` do not matter. */
    method Load(table: seq<Entry>, count: nat)
      requires Valid() && count <= |table| && AllAccepted(base.Length, table[..count])
      modifies this, base, attr
      ensures Valid() && Contents() == SetMany(old(Contents()), table[..count], count)
    {
      hide Burst;
      ghost var start := Contents();
      var entries := table[..count];
      var cnt: nat, first: nat := count, 0;
      while cnt > aliases
        invariant Valid() && first + cnt == count
        invariant Contents() == SetMany(start, entries, first)
        decreases cnt
      {
        ChunkIsSetMany(start, entries, first, aliases);
        OrderedMemcpy(entries, 2 * first, aliases * 2);
        first := first + aliases;
        cnt := cnt - aliases;
      }
      ChunkIsSetMany(start, entries, first, cnt);
      OrderedMemcpy(entries, 2 * first, cnt * 2);
    }
  }

  // ---- What a loaded table leaves behind ------------------------------------------

  /** The last of the first `n` entries that names region `r`, if any. */
  function LastFor(table: seq<Entry>, n: nat, r: nat): (k: int)
    requires n <= |table|
    ensures k < n && (k >= 0 ==> Region(table[k].rbar) == r)
    decreases n
  {
    if n == 0 then -1
    else if Region(table[n - 1].rbar) == r then n - 1
    else LastFor(table, n - 1, r)
  }

  /** When every entry names its region, later entries win and unnamed regions keep their settings. */
  lemma {:induction false} LaterEntriesWin(s: State, table: seq<Entry>, n: nat, r: nat)
    requires WellFormed(s) && n <= |table| && AllAccepted(|s.base|, table) && r < |s.base|
    requires forall k :: 0 <= k < |table| ==> IsValid(table[k].rbar)
    ensures var s', k := SetMany(s, table, n), LastFor(table, n, r);
            && s'.base[r] == (if k < 0 then s.base[r] else Address(table[k].rbar))
            && s'.attr[r] == (if k < 0 then s.attr[r] else table[k].rasr)
  {
    if n > 0 {
      LaterEntriesWin(s, table, n - 1, r);
    }
  }

  /** The region argument of `ARM_MPU_SetRegionEx` is obeyed exactly when RBAR does not name another one. */
  lemma SetRegionExTarget(s: State, n: nat, e: Entry)
    requires WellFormed(s) && n < |s.base| && Accepts(|s.base|, e.rbar)
    ensures SetOne(s.(rnr := n), e).rnr == n <==> !IsValid(e.rbar) || Region(e.rbar) == n
    ensures !IsValid(e.rbar) || Region(e.rbar) == n ==>
              SetOne(s.(rnr := n), e) == State(n, s.base[n := Address(e.rbar)], s.attr[n := e.rasr])
  {
  }

  /** The hazard in numbers: asked for region 0 with an RBAR that names region 1, the call programs region 1. */
  lemma SetRegionExElsewhere(base: seq<Word>, attr: seq<Word>, rasr: Word)
    requires |base| == |attr| == 8
    ensures SetOne(State(0, base, attr), Entry(0x2000_0011, rasr)) == State(1, base[1 := 0x2000_0000], attr[1 := rasr])
  {
    assert Region(0x2000_0011) == 1 && Address(0x2000_0011) == 0x2000_0000;
  }
}
