/**
 Which ways of arriving lose nothing: a short packet is safe exactly when some arrival ends
 between its decoded header and its end, as long as every run keeps up with what has arrived.
 */
module MqttCuts {
  import opened Options
  import opened MqttCodec
  import opened MqttStream

  /** No run leaves a complete packet behind for the next one: its four rounds were enough. */
  predicate AllSettle(chunks: seq<seq<byte>>, accepts: Dispatcher) {
    chunks == [] || (AllSettle(chunks[..|chunks| - 1], accepts) && Settled(Run(chunks, accepts), accepts))
  }

  /** Some arrival ends at a position of the stream from `lo` to `hi`. */
  predicate EndsWithin(chunks: seq<seq<byte>>, lo: int, hi: int) {
    lo <= |Concat(chunks)| <= hi || (chunks != [] && EndsWithin(chunks[..|chunks| - 1], lo, hi))
  }

  /** An accepted frame shorter than the header fetch, with a byte behind it. */
  predicate AtRisk(s: seq<byte>, k: nat, accepts: Dispatcher)
    ensures AtRisk(s, k, accepts) ==> Cut(s, k + 1).Some? && Cut(s, k).Some?
  {
    Passes(s, k + 1, accepts) && LengthOf(s, k) < FIXED_HEADER_MAX && Cut(s, k + 1).value.1 != []
  }

  /** Where frame `k` begins. */
  function StartOf(s: seq<byte>, k: nat): int
    requires Cut(s, k).Some?
  {
    |s| - |Cut(s, k).value.1|
  }

  function HeaderOf(s: seq<byte>, k: nat): nat
    requires Cut(s, k + 1).Some?
  {
    DecodeFixedHeader(Cut(s, k).value.1).fixedLen
  }

  /** Some arrival ends behind the header of frame `k` and not behind the frame. */
  predicate Parted(chunks: seq<seq<byte>>, s: seq<byte>, k: nat)
    requires Cut(s, k + 1).Some?
  {
    EndsWithin(chunks, StartOf(s, k) + HeaderOf(s, k), StartOf(s, k) + LengthOf(s, k))
  }

  ghost predicate EveryShortFrameParted(chunks: seq<seq<byte>>, s: seq<byte>, accepts: Dispatcher) {
    forall k: nat :: AtRisk(s, k, accepts) ==> Parted(chunks, s, k)
  }

  // ---- Positions -----------------------------------------------------------------------------------

  lemma {:induction false} EndsBelow(chunks: seq<seq<byte>>, lo: int, hi: int)
    requires EndsWithin(chunks, lo, hi)
    ensures lo <= |Concat(chunks)|
  {
    if !(lo <= |Concat(chunks)| <= hi) {
      EndsBelow(chunks[..|chunks| - 1], lo, hi);
    }
  }

  lemma OneMoreEnd(chunks: seq<seq<byte>>, chunk: seq<byte>, lo: int, hi: int)
    ensures EndsWithin(chunks + [chunk], lo, hi) <==> lo <= |Concat(chunks)| + |chunk| <= hi || EndsWithin(chunks, lo, hi)
  {
    assert (chunks + [chunk])[..|chunks|] == chunks;
  }

  /** A frame ends where the rest begins, and its header ends before. */
  lemma FramePlace(s: seq<byte>, k: nat, accepts: Dispatcher)
    requires Passes(s, k + 1, accepts)
    ensures Cut(s, k).Some? && StartOf(s, k) + LengthOf(s, k) == |s| - |Cut(s, k + 1).value.1|
    ensures 2 <= HeaderOf(s, k) <= LengthOf(s, k)
    ensures LengthOf(s, k) <= RX_CAPACITY
  {
    LastFrame(s, k + 1, accepts);
  }

  /** Frames keep their places when more of the stream arrives. */
  lemma SamePlace(q: seq<byte>, c: seq<byte>, k: nat, accepts: Dispatcher)
    requires Passes(q, k + 1, accepts)
    ensures Passes(q + c, k + 1, accepts) && Cut(q + c, k).Some? && Cut(q, k).Some?
    ensures StartOf(q + c, k) == StartOf(q, k) && LengthOf(q + c, k) == LengthOf(q, k) && HeaderOf(q + c, k) == HeaderOf(q, k)
    ensures |Cut(q + c, k + 1).value.1| == |Cut(q, k + 1).value.1| + |c|
  {
    hide Passes, Cut, FirstFrame, DecodeFixedHeader;
    LastFrame(q, k + 1, accepts);
    PassesExtends(q, c, k + 1, accepts);
    CutExtends(q, c, k);
    CutExtends(q, c, k + 1);
    var rest := Cut(q, k).value.1;
    FrameStable(rest, c);
    FrameHasHeader(rest);
    HeaderStable(rest, c);
  }

  lemma FrameHasHeader(s: seq<byte>)
    requires FirstFrame(s).Some?
    ensures DecodeFixedHeader(s).Header?
  {
  }

  // ---- Frames of earlier arrivals ----------------------------------------------------------------

  /** A frame complete before the last arrival is parted in the whole as it was before, or ends where the arrivals before end. */
  lemma OldFrame(before: seq<seq<byte>>, chunk: seq<byte>, k: nat, accepts: Dispatcher)
    requires Passes(Concat(before), k + 1, accepts) && EveryShortFrameParted(before, Concat(before), accepts)
    requires AtRisk(Concat(before) + chunk, k, accepts)
    ensures Parted(before + [chunk], Concat(before) + chunk, k)
  {
    var q := Concat(before);
    hide Passes, Cut, LengthOf, HeaderOf, StartOf, Concat;
    SamePlace(q, chunk, k, accepts);
    FramePlace(q, k, accepts);
    var lo, hi := StartOf(q, k) + HeaderOf(q, k), StartOf(q, k) + LengthOf(q, k);
    OneMoreEnd(before, chunk, lo, hi);
    if Cut(q, k + 1).value.1 != [] {
      assert AtRisk(q, k, accepts);
    }
  }

  /** A frame that was lost before is not parted by a later arrival. */
  lemma LostFrame(before: seq<seq<byte>>, chunk: seq<byte>, k: nat, accepts: Dispatcher)
    requires AtRisk(Concat(before), k, accepts) && !Parted(before, Concat(before), k)
    ensures AtRisk(Concat(before) + chunk, k, accepts) && !Parted(before + [chunk], Concat(before) + chunk, k)
  {
    hide Passes, Cut, LengthOf, HeaderOf, StartOf, EndsWithin, Concat, AtRisk;
    var q := Concat(before);
    RiskPasses(q, k, accepts);
    RiskFollowed(q, k, accepts);
    RiskStays(q, chunk, k, accepts);
    SamePlace(q, chunk, k, accepts);
    OneMoreEnd(before, chunk, StartOf(q, k) + HeaderOf(q, k), StartOf(q, k) + LengthOf(q, k));
  }

  lemma RiskStays(q: seq<byte>, c: seq<byte>, k: nat, accepts: Dispatcher)
    requires AtRisk(q, k, accepts)
    ensures AtRisk(q + c, k, accepts)
  {
    hide Passes, Cut, LengthOf;
    SamePlace(q, c, k, accepts);
  }

  /** A client that stopped is not given another frame. */
  lemma StoppedFrames(s: seq<byte>, w: Wire, k: nat, accepts: Dispatcher)
    requires Faithful(s, w, accepts) && !w.link.Open? && Passes(s, k, accepts)
    ensures k <= |w.delivered|
  {
    if |w.delivered| < k {
      PassingFrame(s, |w.delivered|, k, accepts);
    }
  }

  lemma SettledFrames(s: seq<byte>, w: Wire, k: nat, accepts: Dispatcher)
    requires Faithful(s, w, accepts) && Settled(w, accepts) && Passes(s, k, accepts)
    ensures k <= |w.delivered|
  {
    if |w.delivered| < k {
      PassingFrame(s, |w.delivered|, k, accepts);
      if w.link.Open? {
        SettledWaits(w, accepts);
      }
    }
  }

  // ---- The rounds of one run -----------------------------------------------------------------------

  /** The client before the run. */
  ghost predicate Waiting(before: seq<seq<byte>>, w: Wire, accepts: Dispatcher) {
    && InStep(Concat(before), w, accepts) && w.dropped == 0 && w.link.Open? && Settled(w, accepts)
    && (w.known ==> DecodeFixedHeader(w.pending).Header?)
  }

  /** What has arrived with the new chunk. */
  predicate Arrived(before: seq<seq<byte>>, chunk: seq<byte>, s: seq<byte>) {
    s == Concat(before) + chunk
  }

  /** In the middle of the run: a header is known from before the run only for the frame that was waited for. */
  ghost predicate Midway(s: seq<byte>, w: Wire, v: Wire, accepts: Dispatcher) {
    && InStep(s, v, accepts) && v.dropped == 0 && |w.delivered| <= |v.delivered|
    && (v.link.Open? && FirstFrame(v.pending).Some? ==> (v.known <==> w.known && |v.delivered| == |w.delivered|))
  }

  /** The frame about to be dispatched is the next one of the stream. */
  lemma DueFrame(s: seq<byte>, w: Wire, v: Wire, accepts: Dispatcher)
    requires Midway(s, w, v, accepts) && v.link.Open?
    requires FirstFrame(v.pending).Some? && !TooLong(v.pending) && accepts(v.delivered, FirstFrame(v.pending).value.0)
    ensures var k, n := |v.delivered|, FirstFrame(v.pending).value.1;
            && Passes(s, k + 1, accepts) && Cut(s, k + 1).Some? && LengthOf(s, k) == n
            && (AtRisk(s, k, accepts) <==> n < FIXED_HEADER_MAX && n < |v.pending|)
            && |w.delivered| <= k && (v.known <==> w.known && k == |w.delivered|)
  {
    var k, n := |v.delivered|, FirstFrame(v.pending).value.1;
    NextFrame(s, k, v.delivered, v.pending, accepts);
    hide Passes, Cut, FirstFrame, LengthOf, TooLong;
    assert |v.pending[n..]| == |v.pending| - n;
  }

  /** If it is at risk, it is parted exactly when its header was known before the run. */
  lemma DueParted(before: seq<seq<byte>>, chunk: seq<byte>, s: seq<byte>, w: Wire, k: nat, accepts: Dispatcher)
    requires Waiting(before, w, accepts) && Arrived(before, chunk, s) && |w.delivered| <= k && AtRisk(s, k, accepts)
    ensures Parted(before + [chunk], s, k) <==> w.known && k == |w.delivered|
  {
    hide *;
    WhereParted(before, chunk, s, k, accepts);
    if k > |w.delivered| {
      LaterFrame(before, chunk, s, w, k, accepts);
    } else {
      WaitedFrame(before, chunk, s, w, accepts);
    }
  }

  /** A frame with bytes behind it is parted by an earlier arrival or not at all. */
  lemma WhereParted(before: seq<seq<byte>>, chunk: seq<byte>, s: seq<byte>, k: nat, accepts: Dispatcher)
    requires Arrived(before, chunk, s) && AtRisk(s, k, accepts)
    ensures Parted(before + [chunk], s, k) <==> EndsWithin(before, StartOf(s, k) + HeaderOf(s, k), StartOf(s, k) + LengthOf(s, k))
  {
    RiskPasses(s, k, accepts);
    FramePlace(s, k, accepts);
    OneMoreEnd(before, chunk, StartOf(s, k) + HeaderOf(s, k), StartOf(s, k) + LengthOf(s, k));
    RiskFollowed(s, k, accepts);
    hide AtRisk, Passes, Cut, LengthOf, HeaderOf, StartOf, EndsWithin;
  }

  lemma RiskFollowed(s: seq<byte>, k: nat, accepts: Dispatcher)
    requires AtRisk(s, k, accepts)
    ensures StartOf(s, k) + LengthOf(s, k) < |s|
  {
    RiskPasses(s, k, accepts);
    FramePlace(s, k, accepts);
  }

  lemma RiskPasses(s: seq<byte>, k: nat, accepts: Dispatcher)
    requires AtRisk(s, k, accepts)
    ensures Passes(s, k + 1, accepts) && Cut(s, k + 1).Some? && Cut(s, k).Some?
  {
  }

  /** The frame waited for begins where the delivered ones end, and is not complete without the new arrival. */
  lemma WaitedPlace(before: seq<seq<byte>>, chunk: seq<byte>, s: seq<byte>, w: Wire, accepts: Dispatcher)
    requires Waiting(before, w, accepts) && Arrived(before, chunk, s) && Passes(s, |w.delivered| + 1, accepts)
    ensures var i := |w.delivered|;
            && Cut(s, i).Some? && Cut(s, i).value.1 == w.pending + chunk
            && StartOf(s, i) + |w.pending| == |Concat(before)| < StartOf(s, i) + LengthOf(s, i)
  {
    var i := |w.delivered|;
    CutExtends(Concat(before), chunk, i);
    LastFrame(s, i + 1, accepts);
    SettledWaits(w, accepts);
    hide Passes, Cut, FirstFrame;
    if FirstFrame(w.pending + chunk).value.1 <= |w.pending| {
      FrameInPrefix(w.pending, chunk);
    }
  }

  lemma EndsTooEarly(chunks: seq<seq<byte>>, lo: int, hi: int)
    requires |Concat(chunks)| < lo
    ensures !EndsWithin(chunks, lo, hi)
  {
    if EndsWithin(chunks, lo, hi) {
      EndsBelow(chunks, lo, hi);
    }
  }

  lemma EndsHere(chunks: seq<seq<byte>>, lo: int, hi: int)
    requires lo <= |Concat(chunks)| <= hi
    ensures EndsWithin(chunks, lo, hi)
  {
  }

  lemma LaterStart(s: seq<byte>, i: nat, k: nat, accepts: Dispatcher)
    requires i < k && Passes(s, k + 1, accepts)
    ensures Passes(s, i + 1, accepts) && Cut(s, i).Some? && Cut(s, i + 1).Some? && Cut(s, k).Some?
    ensures StartOf(s, i) + LengthOf(s, i) <= StartOf(s, k)
  {
    PassesEarlier(s, k, k + 1, accepts);
    PassesEarlier(s, i + 1, k, accepts);
    FramePlace(s, i, accepts);
  }

  /** A frame behind the one waited for begins behind all earlier arrivals. */
  lemma LaterFrame(before: seq<seq<byte>>, chunk: seq<byte>, s: seq<byte>, w: Wire, k: nat, accepts: Dispatcher)
    requires Waiting(before, w, accepts) && Arrived(before, chunk, s) && |w.delivered| < k && AtRisk(s, k, accepts)
    ensures !EndsWithin(before, StartOf(s, k) + HeaderOf(s, k), StartOf(s, k) + LengthOf(s, k))
  {
    hide *;
    RiskPasses(s, k, accepts);
    LaterStart(s, |w.delivered|, k, accepts);
    WaitedPlace(before, chunk, s, w, accepts);
    FramePlace(s, k, accepts);
    EndsTooEarly(before, StartOf(s, k) + HeaderOf(s, k), StartOf(s, k) + LengthOf(s, k));
  }

  /** The frame waited for is parted by an earlier arrival exactly when its header was already known. */
  lemma WaitedFrame(before: seq<seq<byte>>, chunk: seq<byte>, s: seq<byte>, w: Wire, accepts: Dispatcher)
    requires Waiting(before, w, accepts) && Arrived(before, chunk, s) && AtRisk(s, |w.delivered|, accepts)
    ensures var i := |w.delivered|;
            EndsWithin(before, StartOf(s, i) + HeaderOf(s, i), StartOf(s, i) + LengthOf(s, i)) <==> w.known
  {
    hide *;
    var i := |w.delivered|;
    RiskPasses(s, i, accepts);
    var lo, hi := StartOf(s, i) + HeaderOf(s, i), StartOf(s, i) + LengthOf(s, i);
    WaitedHeader(before, chunk, s, w, accepts);
    WaitedPlace(before, chunk, s, w, accepts);
    if w.known {
      EndsHere(before, lo, hi);
    } else {
      EndsTooEarly(before, lo, hi);
    }
  }

  /** The header of the frame waited for is in what is pending exactly when it is known. */
  lemma WaitedHeader(before: seq<seq<byte>>, chunk: seq<byte>, s: seq<byte>, w: Wire, accepts: Dispatcher)
    requires Waiting(before, w, accepts) && Arrived(before, chunk, s) && Passes(s, |w.delivered| + 1, accepts)
    ensures Cut(s, |w.delivered| + 1).Some?
    ensures HeaderOf(s, |w.delivered|) <= |w.pending| <==> w.known
  {
    LastFrame(s, |w.delivered| + 1, accepts);
    WaitedPlace(before, chunk, s, w, accepts);
    SettledWaits(w, accepts);
    hide Passes, Cut, InStep, Settled, Round;
    PendingHeader(w.pending, chunk, w.known);
  }

  lemma PendingHeader(s: seq<byte>, t: seq<byte>, known: bool)
    requires FirstFrame(s + t).Some? && !BadHeader(s)
    requires known <==> DecodeFixedHeader(s).Header?
    ensures DecodeFixedHeader(s + t).fixedLen <= |s| <==> known
  {
    if known {
      HeaderStable(s, t);
    } else {
      HeaderInPrefix(s, t);
    }
  }

  /** A header is decoded as soon as its bytes are there. */
  lemma HeaderInPrefix(s: seq<byte>, t: seq<byte>)
    requires DecodeFixedHeader(s + t).Header? && DecodeFixedHeader(s).Incomplete?
    ensures |s| < DecodeFixedHeader(s + t).fixedLen
  {
    if DecodeFixedHeader(s + t).fixedLen <= |s| {
      HeaderEnough(s, t);
    }
  }

  lemma HeaderEnough(s: seq<byte>, t: seq<byte>)
    requires DecodeFixedHeader(s + t).Header? && DecodeFixedHeader(s + t).fixedLen <= |s|
    ensures !DecodeFixedHeader(s).Incomplete?
  {
    assert (s + t)[1..][..|s| - 1] == s[1..];
    VarIntPrefix((s + t)[1..], |s| - 1, 0, 1, 0);
  }

  /** One round: it drops nothing exactly if the frame it dispatches is parted where it is at risk. */
  lemma RoundParted(before: seq<seq<byte>>, chunk: seq<byte>, s: seq<byte>, w: Wire, v: Wire, accepts: Dispatcher)
    requires Waiting(before, w, accepts) && Arrived(before, chunk, s) && Midway(s, w, v, accepts)
    ensures var k, next := |v.delivered|, Round(v, accepts);
            && (next.dropped == 0 ==> Midway(s, w, next, accepts))
            && (|next.delivered| == k ==> next.dropped == 0)
            && (|next.delivered| > k ==> (next.dropped == 0 <==> (AtRisk(s, k, accepts) ==> Parted(before + [chunk], s, k))))
  {
    hide Passes, Cut, LengthOf, AtRisk, Parted, Waiting, InStep, Arrived, FirstFrame, TooLong, Round;
    RoundInStep(s, v, accepts);
    RoundCases(v, accepts);
    if |Round(v, accepts).delivered| > |v.delivered| {
      DueFrame(s, w, v, accepts);
      if AtRisk(s, |v.delivered|, accepts) {
        DueParted(before, chunk, s, w, |v.delivered|, accepts);
      }
    }
  }

  /** What a round does to the counters: it delivers the frame that is due or leaves them alone. */
  lemma RoundCases(v: Wire, accepts: Dispatcher)
    ensures var next := Round(v, accepts);
            && |v.delivered| <= |next.delivered|
            && (|next.delivered| == |v.delivered| ==> next.dropped == v.dropped)
            && (|next.delivered| == |v.delivered| && next.link.Open? && FirstFrame(next.pending).Some? ==> next == v)
            && (|next.delivered| > |v.delivered| ==>
                  && v.link.Open? && !next.known && FirstFrame(v.pending).Some? && !TooLong(v.pending)
                  && accepts(v.delivered, FirstFrame(v.pending).value.0) && FirstFrame(v.pending).value.1 <= |v.pending|
                  && (next.dropped == v.dropped <==>
                        v.known || FirstFrame(v.pending).value.1 >= FIXED_HEADER_MAX || |v.pending| == FirstFrame(v.pending).value.1))
  {
    if FirstFrame(v.pending).Some? {
      NothingLostExactly(v.pending, v.known);
    }
  }

  /** The frames dispatched in the run so far are parted where they are at risk. */
  ghost predicate PartedUpTo(before: seq<seq<byte>>, chunk: seq<byte>, s: seq<byte>, w: Wire, v: Wire, accepts: Dispatcher) {
    forall k: nat :: |w.delivered| <= k < |v.delivered| && AtRisk(s, k, accepts) ==> Parted(before + [chunk], s, k)
  }

  lemma {:induction false} RoundsParted(before: seq<seq<byte>>, chunk: seq<byte>, s: seq<byte>, w: Wire, n: nat, accepts: Dispatcher)
    requires Waiting(before, w, accepts) && Arrived(before, chunk, s)
    ensures var v := Rounds(w.(pending := w.pending + chunk), n, accepts);
            && (v.dropped == 0 ==> Midway(s, w, v, accepts) && PartedUpTo(before, chunk, s, w, v, accepts))
            && (EveryShortFrameParted(before + [chunk], s, accepts) ==> v.dropped == 0)
    decreases n
  {
    hide *;
    var start := w.(pending := w.pending + chunk);
    if n == 0 {
      FirstParted(before, chunk, s, w, accepts);
    } else {
      RoundsParted(before, chunk, s, w, n - 1, accepts);
      RoundsOnlyDropMore(start, n - 1, n, accepts);
      RoundsStep(start, n, accepts);
      var v := Rounds(start, n - 1, accepts);
      if v.dropped == 0 {
        NextParted(before, chunk, s, w, v, accepts);
      }
    }
  }

  lemma FirstParted(before: seq<seq<byte>>, chunk: seq<byte>, s: seq<byte>, w: Wire, accepts: Dispatcher)
    requires Waiting(before, w, accepts) && Arrived(before, chunk, s)
    ensures var v := Rounds(w.(pending := w.pending + chunk), 0, accepts);
            v.dropped == 0 && Midway(s, w, v, accepts) && PartedUpTo(before, chunk, s, w, v, accepts)
  {
    hide Passes, Cut, AtRisk, Parted;
    ArrivalInStep(Concat(before), w, chunk, accepts);
  }

  lemma NextParted(before: seq<seq<byte>>, chunk: seq<byte>, s: seq<byte>, w: Wire, v: Wire, accepts: Dispatcher)
    requires Waiting(before, w, accepts) && Arrived(before, chunk, s) && Midway(s, w, v, accepts)
    requires PartedUpTo(before, chunk, s, w, v, accepts)
    ensures var next := Round(v, accepts);
            && (next.dropped == 0 ==> Midway(s, w, next, accepts) && PartedUpTo(before, chunk, s, w, next, accepts))
            && (EveryShortFrameParted(before + [chunk], s, accepts) ==> next.dropped == 0)
  {
    hide Midway, Waiting, Arrived, AtRisk, Parted, Round, Passes, Cut;
    RoundParted(before, chunk, s, w, v, accepts);
    DeliversAtMostOne(v, accepts);
  }

  lemma RoundsStep(w: Wire, n: nat, accepts: Dispatcher)
    requires n > 0
    ensures Rounds(w, n, accepts) == Round(Rounds(w, n - 1, accepts), accepts)
  {
  }

  lemma DeliversAtMostOne(v: Wire, accepts: Dispatcher)
    ensures |v.delivered| <= |Round(v, accepts).delivered| <= |v.delivered| + 1
  {
  }

  // ---- The theorem -----------------------------------------------------------------------------------

  /** A header is marked as known only when it is decoded. */
  lemma {:induction false} KnownIsDecoded(chunks: seq<seq<byte>>, accepts: Dispatcher)
    ensures var w := Run(chunks, accepts);
            w.link.Open? && w.known ==> DecodeFixedHeader(w.pending).Header?
  {
    if chunks != [] {
      var w, chunk := Run(chunks[..|chunks| - 1], accepts), chunks[|chunks| - 1];
      KnownIsDecoded(chunks[..|chunks| - 1], accepts);
      if w.link.Open? {
        if w.known {
          HeaderStable(w.pending, chunk);
        }
        RoundsKnown(w.(pending := w.pending + chunk), MAX_PACKETS_PER_RUN, accepts);
      }
    }
  }

  lemma {:induction false} RoundsKnown(w: Wire, n: nat, accepts: Dispatcher)
    requires w.known ==> DecodeFixedHeader(w.pending).Header?
    ensures var v := Rounds(w, n, accepts);
            v.link.Open? && v.known ==> DecodeFixedHeader(v.pending).Header?
    decreases n
  {
    if n > 0 {
      RoundsKnown(w, n - 1, accepts);
      RoundKnown(Rounds(w, n - 1, accepts), accepts);
    }
  }

  lemma RoundKnown(w: Wire, accepts: Dispatcher)
    requires w.link.Open? && w.known ==> DecodeFixedHeader(w.pending).Header?
    ensures var v := Round(w, accepts);
            v.link.Open? && v.known ==> DecodeFixedHeader(v.pending).Header?
  {
  }

  lemma ReceiveDropsMore(w: Wire, chunk: seq<byte>, accepts: Dispatcher)
    ensures w.dropped <= Receive(w, chunk, accepts).dropped
  {
    if w.link.Open? {
      RoundsOnlyDropMore(w.(pending := w.pending + chunk), 0, MAX_PACKETS_PER_RUN, accepts);
    }
  }

  /** While every run keeps up, nothing is lost if and only if every short frame followed by a byte is parted by some arrival. */
  lemma {:induction false} CutLosesNothing(chunks: seq<seq<byte>>, accepts: Dispatcher)
    requires AllSettle(chunks, accepts)
    ensures Run(chunks, accepts).dropped == 0 <==> EveryShortFrameParted(chunks, Concat(chunks), accepts)
  {
    if chunks == [] {
      NothingAtRisk(accepts);
    } else {
      var before, chunk := chunks[..|chunks| - 1], chunks[|chunks| - 1];
      CutLosesNothing(before, accepts);
      assert chunks == before + [chunk];
      OneMoreChunk(before, chunk, accepts);
      SettledBefore(before, accepts);
      NextArrival(before, chunk, accepts);
    }
  }

  lemma NothingAtRisk(accepts: Dispatcher)
    ensures EveryShortFrameParted([], [], accepts)
  {
    forall k: nat
      ensures !AtRisk([], k, accepts)
    {
      if AtRisk([], k, accepts) {
        FramePlace([], k, accepts);
        PassesEarlier([], 0, k + 1, accepts);
        PassesEarlier([], 0, k, accepts);
      }
    }
  }

  lemma SettledBefore(chunks: seq<seq<byte>>, accepts: Dispatcher)
    requires AllSettle(chunks, accepts)
    ensures Settled(Run(chunks, accepts), accepts)
  {
    if chunks == [] {
      EmptyStart(accepts);
    }
  }

  lemma NextArrival(before: seq<seq<byte>>, chunk: seq<byte>, accepts: Dispatcher)
    requires Settled(Run(before, accepts), accepts) && Settled(Run(before + [chunk], accepts), accepts)
    requires Run(before, accepts).dropped == 0 <==> EveryShortFrameParted(before, Concat(before), accepts)
    ensures Run(before + [chunk], accepts).dropped == 0 <==> EveryShortFrameParted(before + [chunk], Concat(before) + chunk, accepts)
  {
    var w := Run(before, accepts);
    OneMoreChunk(before, chunk, accepts);
    RunInStep(before, accepts);
    RunInStep(before + [chunk], accepts);
    hide AtRisk, Parted, Run, Receive, Settled, InStep;
    if w.dropped > 0 {
      var k: nat :| AtRisk(Concat(before), k, accepts) && !Parted(before, Concat(before), k);
      LostFrame(before, chunk, k, accepts);
      ReceiveDropsMore(w, chunk, accepts);
    } else if w.link.Open? {
      OpenArrival(before, chunk, accepts);
    } else {
      StoppedArrival(before, chunk, accepts);
    }
  }

  lemma StoppedArrival(before: seq<seq<byte>>, chunk: seq<byte>, accepts: Dispatcher)
    requires var w := Run(before, accepts); w.dropped == 0 && !w.link.Open?
    requires EveryShortFrameParted(before, Concat(before), accepts)
    ensures Run(before + [chunk], accepts).dropped == 0
    ensures EveryShortFrameParted(before + [chunk], Concat(before) + chunk, accepts)
  {
    var w, s := Run(before, accepts), Concat(before) + chunk;
    OneMoreChunk(before, chunk, accepts);
    RunInStep(before, accepts);
    RunInStep(before + [chunk], accepts);
    forall k: nat | AtRisk(s, k, accepts)
      ensures Parted(before + [chunk], s, k)
    {
      StoppedFrames(s, w, k + 1, accepts);
      PassesEarlier(Concat(before), k + 1, |w.delivered|, accepts);
      OldFrame(before, chunk, k, accepts);
    }
  }

  lemma OpenArrival(before: seq<seq<byte>>, chunk: seq<byte>, accepts: Dispatcher)
    requires var w := Run(before, accepts); w.dropped == 0 && w.link.Open? && Settled(w, accepts)
    requires Settled(Run(before + [chunk], accepts), accepts)
    requires EveryShortFrameParted(before, Concat(before), accepts)
    ensures Run(before + [chunk], accepts).dropped == 0 <==> EveryShortFrameParted(before + [chunk], Concat(before) + chunk, accepts)
  {
    var w, v, s := Run(before, accepts), Run(before + [chunk], accepts), Concat(before) + chunk;
    OneMoreChunk(before, chunk, accepts);
    RunInStep(before, accepts);
    KnownIsDecoded(before, accepts);
    RoundsParted(before, chunk, s, w, MAX_PACKETS_PER_RUN, accepts);
    hide Run, Rounds, Settled, Passes, Cut, AtRisk, Parted;
    if v.dropped == 0 {
      RunParted(before, chunk, s, w, v, accepts);
    }
  }

  /** A run that dropped nothing and settled dispatched every frame that passes, and found each parted that was at risk. */
  lemma RunParted(before: seq<seq<byte>>, chunk: seq<byte>, s: seq<byte>, w: Wire, v: Wire, accepts: Dispatcher)
    requires Waiting(before, w, accepts) && Arrived(before, chunk, s) && Midway(s, w, v, accepts) && Settled(v, accepts)
    requires EveryShortFrameParted(before, Concat(before), accepts) && PartedUpTo(before, chunk, s, w, v, accepts)
    ensures EveryShortFrameParted(before + [chunk], s, accepts)
  {
    hide Settled, Cut, Parted, AtRisk, Passes;
    forall k: nat | AtRisk(s, k, accepts)
      ensures Parted(before + [chunk], s, k)
    {
      RiskPasses(s, k, accepts);
      SettledFrames(s, v, k + 1, accepts);
      if k < |w.delivered| {
        PassesEarlier(Concat(before), k + 1, |w.delivered|, accepts);
        OldFrame(before, chunk, k, accepts);
      }
    }
  }
}
