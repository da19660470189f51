/**
 The storage operations over a flash that may fail at any operation. A failing erase or
 program leaves its target in any state; a power loss is a failure after which nothing
 more is done, so every state a power loss can leave is the result of one of these failures.
 Flash offsets are (page, position in page) pairs.
 */
module StorageDevice {
  import opened Options
  import opened Bits
  import opened Crc
  import opened StorageRecord
  import opened Storage

  class Flash {
    const pageSize: nat
    /** Bytes are programmed in multiples of this. */
    const unit: nat
    /** Whether the flash never fails an operation it can perform. */
    const reliable: bool
    const pages: array<seq<Bits8>>

    ghost predicate Valid()
      reads this, pages
    {
      && pageSize >= PROGRAM_BUFFER_MAX && pages.Length >= 6 && unit in {1, 2, 4, 8}
      && forall p :: 0 <= p < pages.Length ==> |pages[p]| == pageSize
    }

    constructor (pageSize: nat, pageCount: nat, unit: nat, reliable: bool)
      requires pageSize >= PROGRAM_BUFFER_MAX && pageCount >= 6 && unit in {1, 2, 4, 8}
      ensures Valid() && fresh(pages) && pages.Length == pageCount
      ensures this.unit == unit && this.reliable == reliable
    {
      this.pageSize, this.unit, this.reliable := pageSize, unit, reliable;
      pages := new seq<Bits8>[pageCount](_ => seq(pageSize, _ => ERASED_BYTE));
    }

    ghost predicate Blank(page: nat, size: nat)
      requires Valid() && page < pages.Length && size <= pageSize
      reads this, pages
    {
      forall k :: 0 <= k < size ==> pages[page][k] == ERASED_BYTE
    }

    method Read(page: nat, offset: nat, size: nat) returns (r: Option<seq<Bits8>>)
      requires Valid() && page < pages.Length && offset + size <= pageSize
      ensures r.Some? ==> r.value == pages[page][offset..offset + size]
      ensures reliable ==> r.Some?
    {
      var fails: bool := *;
      if fails && !reliable {
        return None;
      }
      return Some(pages[page][offset..offset + size]);
    }

    /** Bytes nobody can predict. */
    method Anything(size: nat) returns (bytes: seq<Bits8>)
      ensures |bytes| == size
    {
      bytes := *;
      if |bytes| != size {
        bytes := seq(size, _ => ERASED_BYTE);
      }
    }

    method Erase(page: nat) returns (ok: bool)
      requires Valid() && page < pages.Length
      modifies pages
      ensures Valid() && forall p :: 0 <= p < pages.Length && p != page ==> pages[p] == old(pages[p])
      ensures ok ==> Blank(page, pageSize)
      ensures reliable ==> ok
    {
      var fails: bool := *;
      if fails && !reliable {
        pages[page] := Anything(pageSize);
        return false;
      }
      pages[page] := seq(pageSize, _ => ERASED_BYTE);
      return true;
    }

    /** Even when it reports success something else may be stored; a reliable flash stores whole units over blank bytes. */
    method Program(page: nat, data: seq<Bits8>) returns (ok: bool)
      requires Valid() && page < pages.Length && |data| <= pageSize
      modifies pages
      ensures Valid() && forall p :: 0 <= p < pages.Length && p != page ==> pages[p] == old(pages[p])
      ensures reliable && |data| % unit == 0 && old(Blank(page, |data|)) ==> ok && pages[page][..|data|] == data
    {
      var stored := Anything(|data|);
      if reliable && |data| % unit == 0 {
        stored := data;
      }
      pages[page] := stored + pages[page][|data|..];
      ok := *;
      ok := ok || (reliable && |data| % unit == 0);
    }
  }

  datatype WriteStatus = WriteOk | InvalidArgument | UnsafeState | WriteIoError | VerifyFailed

  datatype RepairStatus = RepairDone | NotNeeded | NothingStored | RepairRefused | InvalidRecordType

  datatype RecoveryStatus = RecoveryOk | RecoveryNotNeeded | RecoveryIoError | RecoveryInvalidArgument | RecoveryFailed

  /** The sequence number after `s`, in 32 bits and never 0. */
  function Following(s: nat): nat {
    if s == 0xFFFF_FFFF then 1 else s + 1
  }

  predicate RecordType(rtype: nat) { 1 <= rtype <= 3 }

  /** `SlotPage`: the A/B pairs of the three record types occupy consecutive pages. */
  function SlotPage(rtype: nat, slot: nat): (page: nat)
    requires RecordType(rtype) && slot < 2
    ensures page < 6
  {
    (rtype - 1) * 2 + slot
  }

  /** No two slots share a page. */
  lemma SlotPagesDistinct(rtype: nat, slot: nat, rtype': nat, slot': nat)
    requires RecordType(rtype) && RecordType(rtype') && slot < 2 && slot' < 2
    ensures SlotPage(rtype, slot) == SlotPage(rtype', slot') <==> rtype == rtype' && slot == slot'
  {
  }

  /** Two pages a type, from page 0 on. */
  lemma SlotPagesInOrder(rtype: nat, slot: nat)
    requires RecordType(rtype) && slot < 2
    ensures SlotPage(1, 0) == 0
    ensures slot == 0 ==> SlotPage(rtype, 1) == SlotPage(rtype, 0) + 1
    ensures rtype < 3 ==> SlotPage(rtype + 1, slot) == SlotPage(rtype, slot) + 2
  {
  }

  /** A repair writes only when both slots were read and exactly one is valid. */
  predicate CopiesOver(a: Report, b: Report) {
    !a.IoError? && !b.IoError? && a.IsValid() != b.IsValid()
  }

  lemma SeenCopies(a: Report, b: Report, p: Pair)
    requires a.Seen? && b.Seen? && Truthful(a, p.a) && Truthful(b, p.b)
    ensures CopiesOver(a, b) <==> p.a.Valid? != p.b.Valid?
  {
  }

  lemma ClassifiedFits(page: seq<Bits8>, rtype: nat)
    requires |page| >= PROGRAM_BUFFER_MAX
    ensures SequenceFits(Classify(page, rtype))
    ensures Classify(page, rtype).Valid? ==> |Classify(page, rtype).payload| <= PAYLOAD_MAX
  {
    ValueBound(Join(page[10..14]));
    FieldBounds();
  }

  /** `(total + unit - 1) & ~(unit - 1)` for a power-of-two unit. */
  function RoundUp(total: nat, unit: nat): nat
    requires unit in {1, 2, 4, 8}
  {
    (total + unit - 1) / unit * unit
  }

  lemma RoundUpFits(total: nat, unit: nat)
    requires unit in {1, 2, 4, 8} && total <= HEADER_SIZE + PAYLOAD_MAX
    ensures total <= RoundUp(total, unit) <= PROGRAM_BUFFER_MAX
    ensures RoundUp(total, unit) % unit == 0 && RoundUp(total, unit) < total + unit
  {
  }

  class Store {
    const flash: Flash
    const programUnit: nat

    ghost predicate Valid()
      reads this, flash, flash.pages
    {
      flash.Valid() && programUnit == flash.unit
    }

    /** The pair of slots of one record type, as a faultless read would classify them. */
    ghost function PairOf(rtype: nat): (p: Pair)
      requires Valid() && RecordType(rtype)
      reads this, flash, flash.pages
      ensures InRange(p)
      ensures p.a.Valid? ==> |p.a.payload| <= PAYLOAD_MAX
      ensures p.b.Valid? ==> |p.b.payload| <= PAYLOAD_MAX
    {
      var a, b := flash.pages[SlotPage(rtype, 0)], flash.pages[SlotPage(rtype, 1)];
      ClassifiedFits(a, rtype);
      ClassifiedFits(b, rtype);
      Pair(Classify(a, rtype), Classify(b, rtype))
    }

    constructor (flash: Flash, programUnit: nat)
      requires flash.Valid() && programUnit == flash.unit
      ensures Valid() && this.flash == flash
    {
      this.flash, this.programUnit := flash, programUnit;
    }

    /** `Storage_ReadSlot` */
    method ReadSlot(rtype: nat, slot: nat) returns (r: Report)
      requires Valid() && RecordType(rtype) && slot < 2
      ensures Truthful(r, PairOf(rtype).Slot(slot)) && (flash.reliable ==> r.Seen?)
    {
      hide Classify;
      r := ReadPage(SlotPage(rtype, slot), rtype);
    }

    /** The header first, then as much payload as the header announces. */
    method ReadPage(page: nat, rtype: nat) returns (r: Report)
      requires Valid() && RecordType(rtype) && page < 6
      ensures Truthful(r, Classify(flash.pages[page], rtype)) && (flash.reliable ==> r.Seen?)
    {
      ghost var content := flash.pages[page];
      var h := flash.Read(page, 0, HEADER_SIZE);
      if h.None? {
        return IoError;
      }
      var hdr := h.value;
      HeaderSlices(content, hdr);
      var allFF := true;
      for i := 0 to HEADER_SIZE
        invariant allFF <==> forall k :: 0 <= k < i ==> hdr[k] == ERASED_BYTE
      {
        if hdr[i] != ERASED_BYTE {
          allFF := false;
        }
      }
      if allFF {
        return Seen(Erased);
      }
      var size := Number(hdr[6..8]);
      if Number(hdr[..4]) != STORAGE_MAGIC || Number(hdr[4..6]) != FORMAT_VERSION || Number(hdr[8..9]) != rtype
         || size > PAYLOAD_MAX || Number(hdr[14..16]) != 0 || Number(hdr[16..18]) != 0 {
        return Seen(Corrupt);
      }
      var payload := [];
      if size > 0 {
        var p := flash.Read(page, HEADER_SIZE, size);
        if p.None? {
          return IoError;
        }
        payload := p.value;
      }
      assert payload == Payload(content);
      var crc := StorageCrc32(Message(hdr[..18], payload));
      if crc != Join(hdr[18..]) {
        return Seen(Corrupt);
      }
      return Seen(StorageRecord.Valid(Number(hdr[10..14]), payload));
    }

    /** `Storage_Read` */
    method Read(rtype: nat) returns (r: ReadResult, ghost a: Report, ghost b: Report)
      requires Valid()
      ensures r == InvalidRequest <==> !RecordType(rtype)
      ensures RecordType(rtype) ==>
                Truthful(a, PairOf(rtype).a) && Truthful(b, PairOf(rtype).b) && r == ReadPolicy(a, b)
      ensures RecordType(rtype) && flash.reliable ==> r == PairOf(rtype).Reading()
    {
      if !RecordType(rtype) {
        return InvalidRequest, IoError, IoError;
      }
      var slotA := ReadSlot(rtype, 0);
      var slotB := ReadSlot(rtype, 1);
      a, b := slotA, slotB;
      ReadPolicyMatrix(a, b);
      r := ReadPolicy(slotA, slotB);
    }

    /** `memcpy` into a buffer. */
    method CopyTo(buf: array<Bits8>, at: nat, bytes: seq<Bits8>)
      requires at + |bytes| <= buf.Length
      modifies buf
      ensures buf[..] == Overwritten(old(buf[..]), at, bytes)
    {
      for i := 0 to |bytes|
        invariant forall k :: 0 <= k < i ==> buf[at + k] == bytes[k]
        invariant forall k :: 0 <= k < buf.Length && !(at <= k < at + i) ==> buf[k] == old(buf[k])
      {
        buf[at + i] := bytes[i];
      }
    }

    /** Fills the program buffer: erased padding, the header with a zero checksum, the payload, then the checksum of just that. */
    method BuildRecord(rtype: nat, data: seq<Bits8>, sequence: nat) returns (programBuf: array<Bits8>)
      requires RecordType(rtype) && sequence < WORDS && |data| <= PAYLOAD_MAX
      ensures fresh(programBuf) && programBuf.Length == PROGRAM_BUFFER_MAX
      ensures programBuf[HEADER_SIZE..HEADER_SIZE + |data|] == data
      ensures forall k :: HEADER_SIZE + |data| <= k < PROGRAM_BUFFER_MAX ==> programBuf[k] == ERASED_BYTE
      ensures forall page :: StartsWith(page, programBuf[..HEADER_SIZE + |data|]) ==>
                Classify(page, rtype) == StorageRecord.Valid(sequence, data)
    {
      programBuf := new Bits8[PROGRAM_BUFFER_MAX](_ => ERASED_BYTE);
      FillRecord(programBuf, rtype, data, sequence);
      RecordLayout(programBuf[..], rtype, sequence, data);
    }

    method FillRecord(buf: array<Bits8>, rtype: nat, data: seq<Bits8>, sequence: nat)
      requires HEADER_SIZE + |data| <= buf.Length
      modifies buf
      ensures buf[..] == Record(rtype, sequence, data) + old(buf[HEADER_SIZE + |data|..])
    {
      hide Overwritten, Prefix, Crc32, Chop;
      ghost var before := buf[..];
      var fields := Prefix(rtype, sequence, |data|);
      CopyTo(buf, 0, fields + NO_CRC);
      CopyTo(buf, HEADER_SIZE, data);
      CopyTwice(before, fields + NO_CRC, data);
      var crc := StorageCrc32(buf[..HEADER_SIZE + |data|]);
      CopyTo(buf, 0, fields + Chop(crc));
      CopyOver(fields + NO_CRC, fields + Chop(crc), data, before[HEADER_SIZE + |data|..]);
    }

    /** `WriteProgramRecord`: program the padded record, then compare what was stored with what was meant. */
    method WriteProgramRecord(page: nat, rtype: nat, data: seq<Bits8>, sequence: nat) returns (status: WriteStatus)
      requires Valid() && RecordType(rtype) && page < 6 && sequence < WORDS && |data| <= PAYLOAD_MAX
      modifies flash.pages
      ensures Valid() && forall p :: 0 <= p < flash.pages.Length && p != page ==> flash.pages[p] == old(flash.pages[p])
      ensures status in {WriteOk, WriteIoError, VerifyFailed}
      ensures status == WriteOk ==> Classify(flash.pages[page], rtype) == StorageRecord.Valid(sequence, data)
      ensures flash.reliable && old(flash.Blank(page, flash.pageSize)) ==> status == WriteOk
    {
      var total := HEADER_SIZE + |data|;
      var aligned := RoundUp(total, programUnit);
      RoundUpFits(total, programUnit);
      var programBuf := BuildRecord(rtype, data, sequence);
      var ok := flash.Program(page, programBuf[..aligned]);
      if !ok {
        return WriteIoError;
      }
      var verify := flash.Read(page, 0, total);
      assert programBuf[..aligned][..total] == programBuf[..total];
      assert flash.pages[page][0..total] == flash.pages[page][..aligned][..total];
      if verify.None? {
        return WriteIoError;
      }
      if verify.value != programBuf[..total] {
        return VerifyFailed;
      }
      assert StartsWith(flash.pages[page], programBuf[..total]);
      return WriteOk;
    }

    /** Erase one slot's page and write a record there: the common tail of writing and repairing. */
    method ReplaceSlot(rtype: nat, slot: nat, data: seq<Bits8>, sequence: nat) returns (status: WriteStatus, ghost left: SlotView)
      requires Valid() && RecordType(rtype) && slot < 2 && sequence < WORDS && |data| <= PAYLOAD_MAX
      modifies flash.pages
      ensures Valid() && PairOf(rtype) == old(PairOf(rtype)).With(slot, left) && SequenceFits(left)
      ensures status in {WriteOk, WriteIoError, VerifyFailed}
      ensures status == WriteOk ==> left == StorageRecord.Valid(sequence, data)
      ensures flash.reliable ==> status == WriteOk
      ensures forall p :: 0 <= p < flash.pages.Length && p != SlotPage(rtype, slot) ==> flash.pages[p] == old(flash.pages[p])
    {
      var page := SlotPage(rtype, slot);
      var erased := flash.Erase(page);
      if !erased {
        status := WriteIoError;
      } else {
        status := WriteProgramRecord(page, rtype, data, sequence);
      }
      left := Classify(flash.pages[page], rtype);
      ClassifiedFits(flash.pages[page], rtype);
    }

    /** `Storage_WriteEx`. `a` and `b` are what was seen of the slots, `landing` how far the write got. */
    method WriteEx(rtype: nat, data: seq<Bits8>) returns (status: WriteStatus, ghost a: Report, ghost b: Report, ghost landing: Landing)
      requires Valid()
      modifies flash.pages
      ensures Valid()
      ensures status == InvalidArgument <==> !(1 <= rtype <= 3) || |data| > 256
      ensures status in {InvalidArgument, UnsafeState} ==> flash.pages[..] == old(flash.pages[..])
      ensures status != InvalidArgument ==>
                && Truthful(a, old(PairOf(rtype)).a) && Truthful(b, old(PairOf(rtype)).b)
                && (status == UnsafeState <==>
                      a.IoError? || b.IoError? || (!a.IsValid() && !b.IsValid() && (a.IsCorrupt() || b.IsCorrupt())))
                && PairOf(rtype) == AfterWrite(old(PairOf(rtype)), data, landing)
      ensures flash.reliable && 1 <= rtype <= 3 && |data| <= 256 ==>
                (status == WriteOk <==> old(PairOf(rtype)).Reading().Ok? || old(PairOf(rtype)) == Pair(Erased, Erased))
      ensures status == WriteOk && old(PairOf(rtype)) == Pair(Erased, Erased) ==>
                PairOf(rtype) == Pair(StorageRecord.Valid(1, data), Erased)
      ensures status == WriteOk && old(PairOf(rtype)).Reading().Ok? ==>
                var k := CurrentSlot(old(PairOf(rtype)));
                && old(PairOf(rtype)).Slot(k).Valid?
                && PairOf(rtype).Slot(1 - k) == StorageRecord.Valid(Following(old(PairOf(rtype)).Slot(k).sequence), data)
      ensures status != InvalidArgument && old(PairOf(rtype)).Reading().Ok? ==>
                var k := CurrentSlot(old(PairOf(rtype)));
                PairOf(rtype).Slot(k) == old(PairOf(rtype)).Slot(k)
      ensures status in {InvalidArgument, UnsafeState} <==> landing.Refused?
      ensures status == WriteOk ==> landing.Completed?
      ensures landing.Interrupted? ==> SequenceFits(landing.left)
      ensures RecordType(rtype) ==> forall p :: 0 <= p < flash.pages.Length && p / 2 != rtype - 1 ==>
                flash.pages[p] == old(flash.pages[p])
    {
      hide Classify;
      if |data| > PAYLOAD_MAX || !RecordType(rtype) {
        return InvalidArgument, IoError, IoError, Refused;
      }
      var slotA := ReadSlot(rtype, 0);
      var slotB := ReadSlot(rtype, 1);
      a, b := slotA, slotB;
      ghost var pair := PairOf(rtype);
      WriteRefusals(slotA, slotB);
      var choice := SelectWriteSlot(slotA, slotB);
      if choice.Refuse? {
        return UnsafeState, a, b, Refused;
      }
      ghost var left;
      status, left := ReplaceSlot(rtype, choice.slot, data, NextSequence(choice.base));
      landing := if status == WriteOk then Completed else Interrupted(left);
      WriteLands(pair, data, landing);
      if pair.Reading().Ok? {
        SuccessorMeans(pair.Slot(CurrentSlot(pair)).sequence);
      }
    }

    /** The last part of `Storage_EnsureRedundancy`: copy the valid slot over its peer. */
    method Mirror(rtype: nat, slot: nat, source: SlotView) returns (status: RepairStatus, ghost landing: Landing)
      requires Valid() && RecordType(rtype) && slot < 2
      requires source == PairOf(rtype).Slot(slot) && source.Valid? && !PairOf(rtype).Slot(1 - slot).Valid?
      modifies flash.pages
      ensures Valid() && status in {RepairDone, RepairRefused}
      ensures PairOf(rtype) == AfterRepair(old(PairOf(rtype)), landing)
      ensures status == RepairDone ==> landing.Completed?
      ensures flash.reliable && |source.payload| <= PAYLOAD_MAX ==> status == RepairDone
      ensures landing.Interrupted? ==> SequenceFits(landing.left)
      ensures forall p :: 0 <= p < flash.pages.Length && p != SlotPage(rtype, 1 - slot) ==> flash.pages[p] == old(flash.pages[p])
    {
      ghost var pair := PairOf(rtype);
      if |source.payload| > PAYLOAD_MAX {
        return RepairRefused, Refused;
      }
      var written;
      ghost var left;
      written, left := ReplaceSlot(rtype, 1 - slot, source.payload, NextSequence(source.sequence));
      landing := if written == WriteOk then Completed else Interrupted(left);
      RepairTarget(pair, slot, landing);
      status := if written == WriteOk then RepairDone else RepairRefused;
    }

    /** `Storage_EnsureRedundancy`: the valid source is never touched, and without one nothing is. `a` and `b` are what was seen of the slots. */
    method EnsureRedundancy(rtype: nat) returns (status: RepairStatus, ghost a: Report, ghost b: Report, ghost landing: Landing)
      requires Valid()
      modifies flash.pages
      ensures Valid()
      ensures status == InvalidRecordType <==> !RecordType(rtype)
      ensures status == InvalidRecordType ==> flash.pages[..] == old(flash.pages[..])
      ensures status != InvalidRecordType ==>
                && Truthful(a, old(PairOf(rtype)).a) && Truthful(b, old(PairOf(rtype)).b)
                && (status == NotNeeded <==> a.IsValid() && b.IsValid())
                && (status == NothingStored <==> a.IsErased() && b.IsErased())
                && (!CopiesOver(a, b) ==> flash.pages[..] == old(flash.pages[..]))
                && PairOf(rtype) == AfterRepair(old(PairOf(rtype)), landing)
      ensures status == RepairDone ==> landing.Completed?
      ensures flash.reliable && 1 <= rtype <= 3 ==>
                (status == RepairDone <==> old(PairOf(rtype)).a.Valid? != old(PairOf(rtype)).b.Valid?)
      ensures status == RepairDone ==>
                var p, k := old(PairOf(rtype)), CurrentSlot(old(PairOf(rtype)));
                && p.Slot(k).Valid? && !p.Slot(1 - k).Valid? && PairOf(rtype).Slot(k) == p.Slot(k)
                && PairOf(rtype).Slot(1 - k) == StorageRecord.Valid(Following(p.Slot(k).sequence), p.Slot(k).payload)
      ensures landing.Interrupted? ==> SequenceFits(landing.left)
      ensures RecordType(rtype) ==> forall p :: 0 <= p < flash.pages.Length && p / 2 != rtype - 1 ==>
                flash.pages[p] == old(flash.pages[p])
    {
      hide Classify, AfterRepair, Truthful, CopiesOver;
      if !RecordType(rtype) {
        return InvalidRecordType, IoError, IoError, Refused;
      }
      var slotA := ReadSlot(rtype, 0);
      var slotB := ReadSlot(rtype, 1);
      a, b := slotA, slotB;
      ghost var pair := PairOf(rtype);
      if flash.reliable {
        SeenCopies(slotA, slotB, pair);
      }
      status, landing := Repair(rtype, slotA, slotB);
      if status == RepairDone {
        RepairLands(pair, landing);
        SuccessorMeans(pair.Slot(CurrentSlot(pair)).sequence);
      }
    }

    /** The decision, once both slots have been read. */
    method Repair(rtype: nat, a: Report, b: Report) returns (status: RepairStatus, ghost landing: Landing)
      requires Valid() && RecordType(rtype) && Truthful(a, PairOf(rtype).a) && Truthful(b, PairOf(rtype).b)
      modifies flash.pages
      ensures Valid() && status != InvalidRecordType
      ensures status == NotNeeded <==> a.IsValid() && b.IsValid()
      ensures status == NothingStored <==> a.IsErased() && b.IsErased()
      ensures !CopiesOver(a, b) ==> flash.pages[..] == old(flash.pages[..])
      ensures PairOf(rtype) == AfterRepair(old(PairOf(rtype)), landing)
      ensures status == RepairDone ==> landing.Completed? && old(PairOf(rtype)).a.Valid? != old(PairOf(rtype)).b.Valid?
      ensures flash.reliable && CopiesOver(a, b) ==> status == RepairDone
      ensures landing.Interrupted? ==> SequenceFits(landing.left)
      ensures forall p :: 0 <= p < flash.pages.Length && p / 2 != rtype - 1 ==> flash.pages[p] == old(flash.pages[p])
    {
      hide Classify;
      landing := Refused;
      if a.IsValid() && b.IsValid() {
        return NotNeeded, landing;
      }
      if a.IsErased() && b.IsErased() {
        return NothingStored, landing;
      }
      if a.IoError? || b.IoError? {
        return RepairRefused, landing;
      }
      if !(a.IsValid() || b.IsValid()) {
        return RepairRefused, landing;
      }
      status, landing := Mirror(rtype, if a.IsValid() then 0 else 1, if a.IsValid() then a.view else b.view);
    }

    /** `Storage_RecoverCorruptRecord`: destroys the pair only when both slots were read and neither is valid. */
    method RecoverCorruptRecord(rtype: nat, data: seq<Bits8>) returns (status: RecoveryStatus, ghost a: Report, ghost b: Report)
      requires Valid()
      modifies flash.pages
      ensures Valid()
      ensures status == RecoveryInvalidArgument <==> !(1 <= rtype <= 3) || |data| > 256
      ensures status in {RecoveryNotNeeded, RecoveryIoError, RecoveryInvalidArgument} ==> flash.pages[..] == old(flash.pages[..])
      ensures status != RecoveryInvalidArgument ==>
                && Truthful(a, old(PairOf(rtype)).a) && Truthful(b, old(PairOf(rtype)).b)
                && (status == RecoveryIoError <==> a.IoError? || b.IoError?)
                && (status in {RecoveryOk, RecoveryFailed} <==> ReadPolicy(a, b) == CorruptRecord)
      ensures RecordType(rtype) && old(PairOf(rtype)).Reading().Ok? ==> flash.pages[..] == old(flash.pages[..])
      ensures flash.reliable && 1 <= rtype <= 3 && |data| <= 256 ==>
                (status == RecoveryOk <==> old(PairOf(rtype)).Reading() == CorruptRecord)
      ensures status == RecoveryOk ==> PairOf(rtype) == Pair(StorageRecord.Valid(1, data), Erased)
      ensures RecordType(rtype) ==> forall p :: 0 <= p < flash.pages.Length && p / 2 != rtype - 1 ==>
                flash.pages[p] == old(flash.pages[p])
    {
      if |data| > PAYLOAD_MAX || !RecordType(rtype) {
        return RecoveryInvalidArgument, IoError, IoError;
      }
      var slotA := ReadSlot(rtype, 0);
      var slotB := ReadSlot(rtype, 1);
      a, b := slotA, slotB;
      ReadPolicyMatrix(a, b);
      hide Classify, ReadPolicy;
      if slotA.IoError? || slotB.IoError? {
        return RecoveryIoError, a, b;
      }
      if slotA.IsValid() || slotB.IsValid() {
        return RecoveryNotNeeded, a, b;
      }
      if slotA.IsErased() && slotB.IsErased() {
        return RecoveryNotNeeded, a, b;
      }
      var ok := flash.Erase(SlotPage(rtype, 0));
      if !ok {
        return RecoveryFailed, a, b;
      }
      ok := flash.Erase(SlotPage(rtype, 1));
      if !ok {
        return RecoveryFailed, a, b;
      }
      var written := WriteProgramRecord(SlotPage(rtype, 0), rtype, data, 1);
      status := if written == WriteOk then RecoveryOk else RecoveryFailed;
    }

    /** One call of a history. */
    method Perform(rtype: nat, c: Call) returns (answer: Answer, ghost e: Event)
      requires Valid() && RecordType(rtype)
      modifies flash.pages
      ensures Valid() && PairOf(rtype) == After(old(PairOf(rtype)), e)
      ensures Reports(c, answer, e) && (e.Read? ==> Truthful(e.a, old(PairOf(rtype)).a) && Truthful(e.b, old(PairOf(rtype)).b))
      ensures e.Interrupted() ==> SequenceFits(e.landing.left)
      ensures flash.reliable ==> Achieves(old(PairOf(rtype)), c, answer)
    {
      hide Classify, AfterWrite, AfterRepair, ReadPolicy, Truthful;
      ghost var pair := PairOf(rtype);
      match c {
        case CallWrite(data) =>
          var status;
          ghost var a, b, landing;
          status, a, b, landing := WriteEx(rtype, data);
          answer, e := Wrote(status), Event.Write(data, landing);
          if landing.Refused? {
            RefusedWrite(pair, data);
          }
        case CallRepair =>
          var status;
          ghost var a, b, landing;
          status, a, b, landing := EnsureRedundancy(rtype);
          answer, e := Repaired(status), Event.Repair(landing);
        case CallRead =>
          var r;
          ghost var a, b;
          r, a, b := Read(rtype);
          answer, e := Returned(r), Event.Read(a, b);
      }
    }

    /** Any history of calls on one record is a run of the slot discipline, and each answer tells the truth about its call. */
    method Serve(rtype: nat, calls: seq<Call>) returns (answers: seq<Answer>, ghost events: seq<Event>)
      requires Valid() && RecordType(rtype)
      modifies flash.pages
      ensures Valid() && |answers| == |events| == |calls| && LandingsFit(events)
      ensures PairOf(rtype) == Run(old(PairOf(rtype)), events, |events|)
      ensures forall i :: 0 <= i < |calls| ==> Reports(calls[i], answers[i], events[i])
      ensures ReadsTruthfully(old(PairOf(rtype)), events)
      ensures flash.reliable ==> AllAchieve(old(PairOf(rtype)), calls, answers, events, |calls|)
    {
      hide Reports, Truthful, Classify, After, Achieves, AllAchieve;
      ghost var start := PairOf(rtype);
      answers, events := [], [];
      NothingToAchieve(start, calls);
      for i := 0 to |calls|
        invariant Valid() && |answers| == |events| == i && LandingsFit(events)
        invariant PairOf(rtype) == Run(start, events, i)
        invariant forall k :: 0 <= k < i ==> Reports(calls[k], answers[k], events[k])
        invariant ReadsTruthfully(start, events)
        invariant flash.reliable ==> AllAchieve(start, calls, answers, events, i)
      {
        ghost var before := events;
        var answer;
        ghost var e;
        answer, e := Perform(rtype, calls[i]);
        RunExtends(start, before, e);
        if flash.reliable {
          OneMoreAchieves(start, calls, answers, before, answer, e);
        }
        answers, events := answers + [answer], events + [e];
      }
    }
  }

  // ---- Histories of calls -----------------------------------------------------------------

  datatype Call = CallWrite(data: seq<Bits8>) | CallRepair | CallRead

  datatype Answer = Wrote(status: WriteStatus) | Repaired(repair: RepairStatus) | Returned(result: ReadResult)

  /** The answer is what the caller is told about this event: success means completion, a read returns what it saw. */
  predicate Reports(c: Call, answer: Answer, e: Event) {
    match c
    case CallWrite(data) =>
      && answer.Wrote? && e.Write? && e.data == data && (answer.status == WriteOk ==> e.landing.Completed?)
      && (answer.status in {InvalidArgument, UnsafeState} <==> e.landing.Refused?)
    case CallRepair => answer.Repaired? && e.Repair? && (answer.repair == RepairDone ==> e.landing.Completed?)
    case CallRead => answer.Returned? && e.Read? && answer.result == ReadPolicy(e.a, e.b)
  }

  /** What a call must achieve on a flash that does not fail. */
  predicate Achieves(p: Pair, c: Call, answer: Answer) {
    match c
    case CallWrite(data) =>
      answer.Wrote? && (answer.status == WriteOk <==> |data| <= 256 && (p.Reading().Ok? || p == Pair(Erased, Erased)))
    case CallRepair => answer.Repaired? && (answer.repair == RepairDone <==> p.a.Valid? != p.b.Valid?)
    case CallRead => answer == Returned(p.Reading())
  }

  ghost predicate AllAchieve(p: Pair, calls: seq<Call>, answers: seq<Answer>, events: seq<Event>, n: nat)
    requires InRange(p) && LandingsFit(events) && n <= |events| && n <= |calls| && n <= |answers|
  {
    forall i :: 0 <= i < n ==> Achieves(Run(p, events, i), calls[i], answers[i])
  }

  lemma NothingToAchieve(p: Pair, calls: seq<Call>)
    requires InRange(p)
    ensures AllAchieve(p, calls, [], [], 0)
  {
  }

  lemma OneMoreAchieves(p: Pair, calls: seq<Call>, answers: seq<Answer>, events: seq<Event>, answer: Answer, e: Event)
    requires InRange(p) && LandingsFit(events) && LandingsFit(events + [e]) && |events| == |answers| < |calls|
    requires AllAchieve(p, calls, answers, events, |events|) && Achieves(Run(p, events, |events|), calls[|events|], answer)
    ensures AllAchieve(p, calls, answers + [answer], events + [e], |events| + 1)
  {
    hide Achieves, Run, LandingsFit, InRange;
    var longer, all := events + [e], answers + [answer];
    forall i | 0 <= i < |events| + 1
      ensures Achieves(Run(p, longer, i), calls[i], all[i])
    {
      RunPrefix(p, events, [e], i);
      if i < |events| {
        assert all[i] == answers[i];
      }
    }
  }

  /** Every read of the run saw the slots as they were, or a flash failure. */
  ghost predicate ReadsTruthfully(p: Pair, events: seq<Event>)
    requires InRange(p) && LandingsFit(events)
  {
    forall i :: 0 <= i < |events| && events[i].Read? ==>
      Truthful(events[i].a, Run(p, events, i).a) && Truthful(events[i].b, Run(p, events, i).b)
  }

  lemma RefusedWrite(p: Pair, data: seq<Bits8>)
    requires InRange(p)
    ensures AfterWrite(p, data, Refused) == p
  {
  }

  /** A run one event longer: the pair steps once, what came before stays. */
  lemma RunExtends(p: Pair, events: seq<Event>, e: Event)
    requires InRange(p) && LandingsFit(events) && (e.Interrupted() ==> SequenceFits(e.landing.left))
    ensures LandingsFit(events + [e])
    ensures Run(p, events + [e], |events| + 1) == After(Run(p, events, |events|), e)
    ensures forall i :: 0 <= i <= |events| ==> Run(p, events + [e], i) == Run(p, events, i)
  {
    forall i | 0 <= i <= |events|
      ensures Run(p, events + [e], i) == Run(p, events, i)
    {
      RunPrefix(p, events, [e], i);
    }
  }

  lemma {:induction false} RunPrefix(p: Pair, events: seq<Event>, more: seq<Event>, n: nat)
    requires InRange(p) && LandingsFit(events) && LandingsFit(events + more) && n <= |events|
    ensures Run(p, events + more, n) == Run(p, events, n)
  {
    if n > 0 {
      RunPrefix(p, events, more, n - 1);
    }
  }

  /** A sequence after `bytes` were copied into it. */
  function Overwritten(s: seq<Bits8>, at: nat, bytes: seq<Bits8>): (r: seq<Bits8>)
    requires at + |bytes| <= |s|
    ensures |r| == |s|
  {
    s[..at] + bytes + s[at + |bytes|..]
  }

  lemma CopyTwice(s: seq<Bits8>, a: seq<Bits8>, b: seq<Bits8>)
    requires |a| + |b| <= |s|
    ensures Overwritten(Overwritten(s, 0, a), |a|, b) == a + b + s[|a| + |b|..]
    ensures Overwritten(Overwritten(s, 0, a), |a|, b)[..|a| + |b|] == a + b
  {
  }

  lemma CopyOver(a: seq<Bits8>, a': seq<Bits8>, b: seq<Bits8>, tail: seq<Bits8>)
    requires |a'| == |a|
    ensures Overwritten(a + b + tail, 0, a') == a' + b + tail
  {
  }

  predicate StartsWith(page: seq<Bits8>, bytes: seq<Bits8>) {
    |page| >= PROGRAM_BUFFER_MAX && |bytes| <= |page| && page[..|bytes|] == bytes
  }

  /** What a buffer holds that starts with a record. */
  lemma RecordLayout(buf: seq<Bits8>, rtype: nat, sequence: nat, data: seq<Bits8>)
    requires RecordType(rtype) && sequence < WORDS && |data| <= PAYLOAD_MAX
    requires HEADER_SIZE + |data| <= |buf| && buf[..HEADER_SIZE + |data|] == Record(rtype, sequence, data)
    ensures buf[HEADER_SIZE..HEADER_SIZE + |data|] == data
    ensures forall page :: StartsWith(page, buf[..HEADER_SIZE + |data|]) ==>
              Classify(page, rtype) == StorageRecord.Valid(sequence, data)
  {
    TailSlice(Record(rtype, sequence, data), HEADER_SIZE, HEADER_SIZE, HEADER_SIZE + |data|);
    RecordPages(buf[..HEADER_SIZE + |data|], rtype, sequence, data);
  }

  /** Every page that starts with the record is classified as holding it. */
  lemma RecordPages(record: seq<Bits8>, rtype: nat, sequence: nat, data: seq<Bits8>)
    requires RecordType(rtype) && sequence < WORDS && |data| <= PAYLOAD_MAX
    requires record == Record(rtype, sequence, data)
    ensures forall page :: StartsWith(page, record) ==> Classify(page, rtype) == StorageRecord.Valid(sequence, data)
  {
    forall page | StartsWith(page, record)
      ensures Classify(page, rtype) == StorageRecord.Valid(sequence, data)
    {
      RecordReadsBack(page, rtype, sequence, data);
    }
  }

  /** The header checks read the same bytes from the header buffer as from the page. */
  lemma HeaderSlices(page: seq<Bits8>, hdr: seq<Bits8>)
    requires |page| >= PROGRAM_BUFFER_MAX && hdr == page[0..HEADER_SIZE]
    ensures hdr[..4] == page[..4] && hdr[4..6] == page[4..6] && hdr[6..8] == page[6..8] && hdr[8..9] == page[8..9]
    ensures hdr[10..14] == page[10..14] && hdr[14..16] == page[14..16] && hdr[16..18] == page[16..18]
    ensures hdr[..18] == page[..18] && hdr[18..] == page[18..HEADER_SIZE]
    ensures forall k :: 0 <= k < HEADER_SIZE ==> hdr[k] == page[k]
  {
  }
}
