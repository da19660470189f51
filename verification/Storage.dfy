/**
 The A/B slot discipline: which copy a read returns, which slot a write may erase, and
 why an interruption at any point leaves the last complete record readable.
 */
module Storage {
  import opened Bits
  import opened StorageRecord

  // ---- Policies over what the two slots report ---------------------------------------

  /** The outcome of reading one slot: the flash failed, or the slot was classified. */
  datatype Report = IoError | Seen(view: SlotView) {
    predicate IsValid() { Seen? && view.Valid? }
    predicate IsErased() { Seen? && view.Erased? }
    predicate IsCorrupt() { Seen? && view.Corrupt? }
  }

  datatype ReadResult = Ok(payload: seq<Bits8>) | NotFound | CorruptRecord | IoFailure | InvalidRequest

  const WORDS := 0x1_0000_0000

  /** `(int32_t)(a - b) >= 0` on 32-bit sequence numbers. */
  predicate NotOlder(a: nat, b: nat) {
    (a - b) % WORDS < WORDS / 2
  }

  /** The successor, skipping 0. */
  function NextSequence(s: nat): (next: nat)
    requires s < WORDS
    ensures 0 < next < WORDS
  {
    var n := (s + 1) % WORDS;
    if n == 0 then 1 else n
  }

  /** Successors stay newer across the wrap-around. */
  lemma SuccessorIsNewer(s: nat)
    requires s < WORDS
    ensures NotOlder(NextSequence(s), s) && !NotOlder(s, NextSequence(s))
  {
  }

  /** A sequence number is not older than another exactly when it lies less than 2^31 steps after it. */
  lemma NotOlderMeans(b: nat, d: nat)
    requires b < WORDS && d < WORDS
    ensures NotOlder((b + d) % 0x1_0000_0000, b) <==> d < 0x8000_0000
  {
    if b + d < WORDS {
      assert (b + d) % WORDS - b == d;
    } else {
      assert (b + d) % WORDS - b == d - WORDS;
    }
  }

  /** The successor in numbers: one more, and 1 after the largest. */
  lemma SuccessorMeans(s: nat)
    requires s < WORDS
    ensures NextSequence(s) == if s == 0xFFFF_FFFF then 1 else s + 1
  {
  }

  /** `Storage_Read` */
  function ReadPolicy(a: Report, b: Report): ReadResult {
    if a.IsValid() && b.IsValid() then
      Ok(if NotOlder(a.view.sequence, b.view.sequence) then a.view.payload else b.view.payload)
    else if a.IsValid() && b.IsCorrupt() then Ok(a.view.payload)
    else if b.IsValid() && a.IsCorrupt() then Ok(b.view.payload)
    else if a.IsValid() && b.IsErased() then Ok(a.view.payload)
    else if b.IsValid() && a.IsErased() then Ok(b.view.payload)
    else if a.IsValid() && b.IoError? then Ok(a.view.payload)
    else if b.IsValid() && a.IoError? then Ok(b.view.payload)
    else if a.IoError? || b.IoError? then IoFailure
    else if a.IsErased() && b.IsErased() then NotFound
    else CorruptRecord
  }

  /** A valid slot's payload is returned, the newer one's of two; else the worst thing seen decides the failure. */
  lemma ReadPolicyMatrix(a: Report, b: Report)
    ensures ReadPolicy(a, b).Ok? <==> a.IsValid() || b.IsValid()
    ensures a.IsValid() && (b.IsValid() ==> NotOlder(a.view.sequence, b.view.sequence)) ==> ReadPolicy(a, b) == Ok(a.view.payload)
    ensures b.IsValid() && (a.IsValid() ==> !NotOlder(a.view.sequence, b.view.sequence)) ==> ReadPolicy(a, b) == Ok(b.view.payload)
    ensures ReadPolicy(a, b) == IoFailure <==> !a.IsValid() && !b.IsValid() && (a.IoError? || b.IoError?)
    ensures ReadPolicy(a, b) == NotFound <==> a.IsErased() && b.IsErased()
    ensures ReadPolicy(a, b) == CorruptRecord <==>
              !a.IsValid() && !b.IsValid() && !a.IoError? && !b.IoError? && (a.IsCorrupt() || b.IsCorrupt())
    ensures ReadPolicy(a, b) != InvalidRequest
  {
  }

  datatype Choice = Refuse | Target(slot: nat, base: nat)

  /** `SelectWriteSlot`: the slot a write may erase and the sequence number it counts from. */
  function SelectWriteSlot(a: Report, b: Report): (c: Choice)
    ensures c.Target? ==> c.slot < 2
  {
    if a.IoError? || b.IoError? then Refuse
    else if a.IsErased() && b.IsErased() then Target(0, 0)
    else if a.IsValid() && b.IsErased() then Target(1, a.view.sequence)
    else if b.IsValid() && a.IsErased() then Target(0, b.view.sequence)
    else if a.IsValid() && b.IsCorrupt() then Target(1, a.view.sequence)
    else if b.IsValid() && a.IsCorrupt() then Target(0, b.view.sequence)
    else if a.IsValid() && b.IsValid() then
      if NotOlder(a.view.sequence, b.view.sequence) then Target(1, a.view.sequence) else Target(0, b.view.sequence)
    else Refuse
  }

  // ---- One record's pair of slots -------------------------------------------------------

  datatype Pair = Pair(a: SlotView, b: SlotView) {
    function Slot(i: nat): SlotView
      requires i < 2
    {
      if i == 0 then a else b
    }

    function With(i: nat, v: SlotView): Pair
      requires i < 2
    {
      if i == 0 then Pair(v, b) else Pair(a, v)
    }

    /** What a read returns while the flash answers. */
    function Reading(): ReadResult {
      ReadPolicy(Seen(a), Seen(b))
    }
  }

  /** The slot that is read from when some slot is valid. */
  function CurrentSlot(p: Pair): (slot: nat)
    ensures slot < 2
  {
    if p.a.Valid? && (p.b.Valid? ==> NotOlder(p.a.sequence, p.b.sequence)) then 0 else 1
  }

  /** A report is either a flash failure or the truth. */
  predicate Truthful(r: Report, v: SlotView) {
    r == IoError || r == Seen(v)
  }

  /**
   What a read returns when the flash fails it on some slot: the current record unless the
   failure hits its slot, else the other record, which is stale, or the failure.
   */
  lemma TruthfulRead(p: Pair, a: Report, b: Report)
    requires Truthful(a, p.a) && Truthful(b, p.b)
    ensures var (current, other) := if CurrentSlot(p) == 0 then (a, b) else (b, a);
            ReadPolicy(a, b) == if p.Reading().Ok? && current.IoError? && other.IsValid() then Ok(other.view.payload)
                                else if p.Reading().Ok? && !current.IoError? then p.Reading()
                                else if a.IoError? || b.IoError? then IoFailure
                                else p.Reading()
  {
  }

  /** So a read returns the current record if and only if its slot was seen, or the other slot holds the same payload. */
  lemma ReadIsCurrent(p: Pair, a: Report, b: Report)
    requires Truthful(a, p.a) && Truthful(b, p.b) && p.Reading().Ok?
    ensures var (current, other) := if CurrentSlot(p) == 0 then (a, b) else (b, a);
            (ReadPolicy(a, b) == p.Reading() <==> !current.IoError? || (other.IsValid() && Ok(other.view.payload) == p.Reading()))
  {
    TruthfulRead(p, a, b);
  }

  /** The hazard: when the newer slot cannot be read, the older record is returned as if it were current. */
  lemma StaleRead(older: seq<Bits8>, newer: seq<Bits8>)
    ensures Pair(Valid(1, older), Valid(2, newer)).Reading() == Ok(newer)
    ensures ReadPolicy(Seen(Valid(1, older)), IoError) == Ok(older)
  {
  }

  /** A write is refused exactly when a slot could not be read, or neither is valid and not both are erased. */
  lemma WriteRefusals(a: Report, b: Report)
    ensures SelectWriteSlot(a, b).Refuse? <==>
              a.IoError? || b.IoError? || (!a.IsValid() && !b.IsValid() && (a.IsCorrupt() || b.IsCorrupt()))
  {
  }

  ghost predicate SequenceFits(v: SlotView) {
    v.Valid? ==> v.sequence < WORDS
  }

  ghost predicate InRange(p: Pair) {
    SequenceFits(p.a) && SequenceFits(p.b)
  }

  /** How far a write got: not at all, to the end, or to some intermediate content of the slot it erased. */
  datatype Landing = Refused | Completed | Interrupted(left: SlotView)

  /** The pair after a write of `data`. */
  ghost function AfterWrite(p: Pair, data: seq<Bits8>, l: Landing): Pair
    requires InRange(p)
  {
    var c := SelectWriteSlot(Seen(p.a), Seen(p.b));
    if c.Refuse? || l.Refused? then p
    else p.With(c.slot, if l.Completed? then Valid(NextSequence(c.base), data) else l.left)
  }

  /**
   Where a write goes, slot by slot: into A when nothing was stored, else into the slot that is not
   current, with the sequence number after the current one.
   */
  lemma WriteLands(p: Pair, data: seq<Bits8>, l: Landing)
    requires InRange(p) && !l.Refused?
    ensures p.a.Erased? && p.b.Erased? ==>
              AfterWrite(p, data, l) == Pair(if l.Completed? then Valid(1, data) else l.left, Erased)
    ensures p.Reading().Ok? ==>
              var k, after := CurrentSlot(p), AfterWrite(p, data, l);
              && p.Slot(k).Valid? && after.Slot(k) == p.Slot(k)
              && after.Slot(1 - k) == if l.Completed? then Valid(NextSequence(p.Slot(k).sequence), data) else l.left
  {
  }

  /** A repair goes to the slot that is not valid and copies the one that is. */
  lemma RepairLands(p: Pair, l: Landing)
    requires InRange(p) && !l.Refused? && p.a.Valid? != p.b.Valid?
    ensures var k, after := CurrentSlot(p), AfterRepair(p, l);
            && p.Slot(k).Valid? && !p.Slot(1 - k).Valid? && after.Slot(k) == p.Slot(k)
            && after.Slot(1 - k) == if l.Completed? then Valid(NextSequence(p.Slot(k).sequence), p.Slot(k).payload) else l.left
  {
  }

  /** A completed write is what the next read returns. */
  lemma CompletedWriteIsRead(p: Pair, data: seq<Bits8>)
    requires InRange(p) && SelectWriteSlot(Seen(p.a), Seen(p.b)).Target?
    ensures AfterWrite(p, data, Completed).Reading() == Ok(data)
  {
    var c := SelectWriteSlot(Seen(p.a), Seen(p.b));
    SuccessorIsNewer(c.base);
  }

  /** The write slot is never the one the current record is read from. */
  lemma WriteSparesCurrent(p: Pair)
    requires InRange(p) && p.Reading().Ok?
    ensures var c := SelectWriteSlot(Seen(p.a), Seen(p.b));
            && c.Target? && p.Slot(1 - c.slot).Valid?
            && p.Reading() == Ok(p.Slot(1 - c.slot).payload) && c.base == p.Slot(1 - c.slot).sequence
  {
  }

  /** A slot left behind by an interruption would be preferred to the current record. */
  predicate Overtakes(left: SlotView, c: Choice)
    requires c.Target?
  {
    left.Valid? && if c.slot == 0 then NotOlder(left.sequence, c.base) else !NotOlder(c.base, left.sequence)
  }

  /**
   An interrupted write leaves the old record readable unless the half-written slot itself
   passes for a newer record with other contents; some record stays readable always.
   */
  lemma InterruptedWrite(p: Pair, data: seq<Bits8>, left: SlotView)
    requires InRange(p) && p.Reading().Ok? && SequenceFits(left)
    ensures var c := SelectWriteSlot(Seen(p.a), Seen(p.b));
            var after := AfterWrite(p, data, Interrupted(left)).Reading();
            && c.Target? && after.Ok?
            && (after == p.Reading() <==> !(Overtakes(left, c) && Ok(left.payload) != p.Reading()))
  {
    WriteSparesCurrent(p);
  }

  /** `Storage_EnsureRedundancy` copies the only valid record over its erased or corrupt peer. */
  ghost function AfterRepair(p: Pair, l: Landing): Pair
    requires InRange(p)
  {
    if p.a.Valid? && !p.b.Valid? then AfterWrite(p, p.a.payload, l)
    else if p.b.Valid? && !p.a.Valid? then AfterWrite(p, p.b.payload, l)
    else p
  }

  /** What a repair comes to once the valid slot is known. */
  lemma RepairTarget(p: Pair, source: nat, l: Landing)
    requires InRange(p) && source < 2 && p.Slot(source).Valid? && !p.Slot(1 - source).Valid? && !l.Refused?
    ensures var s := p.Slot(source);
            AfterRepair(p, l) == p.With(1 - source, if l.Completed? then Valid(NextSequence(s.sequence), s.payload) else l.left)
  {
  }

  /** A repair keeps what is read unless it is interrupted and the torn copy overtakes with other contents; completed, both copies are valid. */
  lemma RepairKeepsReading(p: Pair, l: Landing)
    requires InRange(p) && p.Reading().Ok? && (l.Interrupted? ==> SequenceFits(l.left))
    ensures var c := SelectWriteSlot(Seen(p.a), Seen(p.b));
            && c.Target?
            && (AfterRepair(p, l).Reading() == p.Reading() <==>
                  !(p.a.Valid? != p.b.Valid? && l.Interrupted? && Overtakes(l.left, c) && Ok(l.left.payload) != p.Reading()))
    ensures l.Completed? ==> AfterRepair(p, l).a.Valid? && AfterRepair(p, l).b.Valid?
  {
    WriteSparesCurrent(p);
    if p.a.Valid? != p.b.Valid? {
      var data := p.Reading().payload;
      assert AfterRepair(p, l) == AfterWrite(p, data, l);
      if l.Completed? {
        CompletedWriteIsRead(p, data);
      } else if l.Interrupted? {
        InterruptedWrite(p, data, l.left);
      }
    }
  }

  // ---- Whole runs -----------------------------------------------------------------------------

  /** One call on the store: how a write or a repair landed, or what a read saw of the two slots. */
  datatype Event = Write(data: seq<Bits8>, landing: Landing) | Repair(landing: Landing) | Read(a: Report, b: Report) {
    predicate Interrupted() {
      !Read? && landing.Interrupted?
    }
  }

  ghost function After(p: Pair, e: Event): Pair
    requires InRange(p)
  {
    match e
    case Write(data, landing) => AfterWrite(p, data, landing)
    case Repair(landing) => AfterRepair(p, landing)
    case Read(_, _) => p
  }

  ghost function Run(p: Pair, events: seq<Event>, n: nat): (p': Pair)
    requires n <= |events| && InRange(p) && LandingsFit(events)
    ensures InRange(p')
  {
    if n == 0 then p else After(Run(p, events, n - 1), events[n - 1])
  }

  ghost predicate LandingsFit(events: seq<Event>) {
    forall i :: 0 <= i < |events| && events[i].Interrupted() ==> SequenceFits(events[i].landing.left)
  }

  /** The payload that is read after a call: what it stored, a torn copy that overtakes, or what was read before. */
  ghost function Outcome(p: Pair, e: Event): seq<Bits8>
    requires InRange(p) && p.Reading().Ok?
  {
    var c, before := SelectWriteSlot(Seen(p.a), Seen(p.b)), p.Reading().payload;
    if e.Read? || c.Refuse? || (e.Repair? && p.a.Valid? == p.b.Valid?) then before
    else
      match e.landing
      case Refused => before
      case Completed => Stored(p, e)
      case Interrupted(left) => if Overtakes(left, c) then left.payload else before
  }

  /** The payload that is read after the first `n` calls of a run that began with `d`. */
  ghost function Current(p: Pair, d: seq<Bits8>, events: seq<Event>, n: nat): seq<Bits8>
    requires n <= |events| && InRange(p) && LandingsFit(events) && p.Reading() == Ok(d)
  {
    if n == 0 then d
    else
      AlwaysReadable(p, events, n - 1);
      Outcome(Run(p, events, n - 1), events[n - 1])
  }

  lemma OneOutcome(p: Pair, e: Event)
    requires InRange(p) && p.Reading().Ok? && (e.Interrupted() ==> SequenceFits(e.landing.left))
    ensures After(p, e).Reading() == Ok(Outcome(p, e))
  {
    WriteSparesCurrent(p);
    if !e.Read? && e.landing.Completed? && (e.Write? || p.a.Valid? != p.b.Valid?) {
      CompletedWriteIsRead(p, Stored(p, e));
    } else if e.Interrupted() {
      InterruptedWrite(p, Stored(p, e), e.landing.left);
    }
  }

  /** Whatever the interruptions leave behind, a run reads as its calls' outcomes say, one after the other. */
  lemma {:induction false} RunReads(p: Pair, d: seq<Bits8>, events: seq<Event>, n: nat)
    requires n <= |events| && InRange(p) && LandingsFit(events) && p.Reading() == Ok(d)
    ensures Run(p, events, n).Reading() == Ok(Current(p, d, events, n))
  {
    if n > 0 {
      RunReads(p, d, events, n - 1);
      OneOutcome(Run(p, events, n - 1), events[n - 1]);
    }
  }

  /** The payload a write or repair stores in the slot it replaces. */
  ghost function Stored(p: Pair, e: Event): seq<Bits8>
    requires !e.Read?
  {
    if e.Write? then e.data else if p.Reading().Ok? then p.Reading().payload else []
  }

  /** The write took effect, whether or not its caller learned of it: an interruption may come after the last byte. */
  ghost predicate TookEffect(p: Pair, e: Event)
    requires InRange(p)
  {
    var c := SelectWriteSlot(Seen(p.a), Seen(p.b));
    e.Write? && c.Target?
    && (e.landing.Completed? || (e.landing.Interrupted? && Overtakes(e.landing.left, c) && e.landing.left.payload == e.data))
  }

  /** An interruption left a slot that passes for a newer record with contents that were neither to be written nor current. */
  ghost predicate ForeignRecord(p: Pair, e: Event)
    requires InRange(p) && p.Reading().Ok?
  {
    var c := SelectWriteSlot(Seen(p.a), Seen(p.b));
    && e.Interrupted() && c.Target? && (e.Repair? ==> p.a.Valid? != p.b.Valid?)
    && Overtakes(e.landing.left, c)
    && e.landing.left.payload != Stored(p, e) && e.landing.left.payload != p.Reading().payload
  }

  /** The payload of the last write that took effect among the first `n` calls, or `d` if none did. */
  ghost function LastWritten(p: Pair, d: seq<Bits8>, events: seq<Event>, n: nat): seq<Bits8>
    requires n <= |events| && InRange(p) && LandingsFit(events)
  {
    if n == 0 then d
    else if TookEffect(Run(p, events, n - 1), events[n - 1]) then events[n - 1].data
    else LastWritten(p, d, events, n - 1)
  }

  lemma OutcomeIsWritten(p: Pair, e: Event)
    requires InRange(p) && p.Reading().Ok?
    ensures Outcome(p, e) == (if TookEffect(p, e) then e.data else p.Reading().payload) <==> !ForeignRecord(p, e)
  {
  }

  /** Call `i` of a run left a foreign record. */
  ghost predicate ForeignAt(p: Pair, events: seq<Event>, i: nat)
    requires i < |events| && InRange(p) && LandingsFit(events) && p.Reading().Ok?
  {
    AlwaysReadable(p, events, i);
    ForeignRecord(Run(p, events, i), events[i])
  }

  /** After `n` calls the record read is the last one written in full. */
  ghost predicate AsWritten(p: Pair, d: seq<Bits8>, events: seq<Event>, n: nat)
    requires n <= |events| && InRange(p) && LandingsFit(events)
  {
    Run(p, events, n).Reading() == Ok(LastWritten(p, d, events, n))
  }

  lemma NextAsWritten(p: Pair, d: seq<Bits8>, events: seq<Event>, n: nat)
    requires n < |events| && InRange(p) && LandingsFit(events) && p.Reading().Ok?
    requires AsWritten(p, d, events, n)
    ensures AsWritten(p, d, events, n + 1) <==> !ForeignAt(p, events, n)
  {
    hide Outcome, TookEffect, ForeignRecord, After;
    AlwaysReadable(p, events, n);
    var q, e := Run(p, events, n), events[n];
    OneOutcome(q, e);
    OutcomeIsWritten(q, e);
  }

  /** So it was all along. */
  ghost predicate AlwaysAsWritten(p: Pair, d: seq<Bits8>, events: seq<Event>, n: nat)
    requires n <= |events| && InRange(p) && LandingsFit(events)
  {
    AsWritten(p, d, events, n) && (n == 0 || AlwaysAsWritten(p, d, events, n - 1))
  }

  ghost predicate NoForeignRecord(p: Pair, events: seq<Event>, n: nat)
    requires n <= |events| && InRange(p) && LandingsFit(events) && p.Reading().Ok?
  {
    n == 0 || (NoForeignRecord(p, events, n - 1) && !ForeignAt(p, events, n - 1))
  }

  lemma BeforeTheRun(p: Pair, d: seq<Bits8>, events: seq<Event>)
    requires InRange(p) && LandingsFit(events) && p.Reading() == Ok(d)
    ensures AlwaysAsWritten(p, d, events, 0) && NoForeignRecord(p, events, 0)
  {
    hide After, ForeignAt;
    assert Run(p, events, 0) == p && LastWritten(p, d, events, 0) == d;
  }

  lemma OneStepBack(p: Pair, d: seq<Bits8>, events: seq<Event>, n: nat)
    requires 0 < n <= |events| && InRange(p) && LandingsFit(events) && p.Reading().Ok?
    ensures AlwaysAsWritten(p, d, events, n) <==> AsWritten(p, d, events, n) && AlwaysAsWritten(p, d, events, n - 1)
    ensures AlwaysAsWritten(p, d, events, n - 1) ==> AsWritten(p, d, events, n - 1)
    ensures NoForeignRecord(p, events, n) <==> NoForeignRecord(p, events, n - 1) && !ForeignAt(p, events, n - 1)
  {
    hide AsWritten, ForeignAt;
  }

  /** Throughout a run the record read is the last one written in full, if and only if no interruption leaves a foreign record. */
  lemma {:induction false} RunKeepsLastRecord(p: Pair, d: seq<Bits8>, events: seq<Event>, n: nat)
    requires n <= |events| && InRange(p) && LandingsFit(events) && p.Reading() == Ok(d)
    ensures AlwaysAsWritten(p, d, events, n) <==> NoForeignRecord(p, events, n)
  {
    hide *;
    if n == 0 {
      BeforeTheRun(p, d, events);
    } else {
      OneStepBack(p, d, events, n);
      RunKeepsLastRecord(p, d, events, n - 1);
      if AsWritten(p, d, events, n - 1) {
        NextAsWritten(p, d, events, n - 1);
      }
    }
  }

  /** A read in the middle of a run returns the current record if and only if it saw the current slot, or an equal copy. */
  lemma ReadsOfRun(p: Pair, d: seq<Bits8>, events: seq<Event>, n: nat)
    requires n < |events| && InRange(p) && LandingsFit(events) && p.Reading() == Ok(d)
    requires events[n].Read?
    requires Truthful(events[n].a, Run(p, events, n).a) && Truthful(events[n].b, Run(p, events, n).b)
    ensures var record := Ok(Current(p, d, events, n));
            var (a, b) := (events[n].a, events[n].b);
            var (current, other) := if CurrentSlot(Run(p, events, n)) == 0 then (a, b) else (b, a);
            (ReadPolicy(a, b) == record <==> !current.IoError? || (other.IsValid() && Ok(other.view.payload) == record))
  {
    RunReads(p, d, events, n);
    ReadIsCurrent(Run(p, events, n), events[n].a, events[n].b);
  }

  /** Whatever interruptions leave behind, a record that was once readable never becomes unreadable. */
  lemma {:induction false} AlwaysReadable(p: Pair, events: seq<Event>, n: nat)
    requires n <= |events| && InRange(p) && LandingsFit(events) && p.Reading().Ok?
    ensures Run(p, events, n).Reading().Ok?
  {
    if n > 0 {
      AlwaysReadable(p, events, n - 1);
      StaysReadable(Run(p, events, n - 1), events[n - 1]);
    }
  }

  lemma StaysReadable(p: Pair, e: Event)
    requires InRange(p) && p.Reading().Ok?
    ensures After(p, e).Reading().Ok?
  {
    WriteSparesCurrent(p);
  }
}
