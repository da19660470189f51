/**
 What the MQTT client does to the transport's byte stream, as a function of the bytes: which
 packets it delivers, when it loses bytes, and when a packet does not fit its receive buffer.
 The header fetch takes up to five bytes whatever the packet's length, and dispatching a packet
 empties the buffer: bytes that followed a shorter packet and were fetched with it are dropped.
 */
module MqttStream {
  import opened Options
  import opened MqttCodec

  const FIXED_HEADER_MAX: nat := 5
  const MAX_PACKETS_PER_RUN: nat := 4
  /** `sizeof rx_buf`; the header check bounds the Remaining Length by the same number, without the header. */
  const RX_CAPACITY: nat := MAX_PACKET

  /** The dispatcher's verdict on a packet, given the packets before it; a packet it refuses closes the connection. */
  type Dispatcher = (seq<Frame>, Frame) -> bool

  function Min(a: nat, b: nat): nat {
    if a <= b then a else b
  }

  predicate BadHeader(s: seq<byte>) {
    DecodeFixedHeader(s).Malformed? || DecodeFixedHeader(s).TooLarge?
  }

  /** More bytes of one packet have arrived than the receive buffer holds. */
  predicate TooLong(s: seq<byte>) {
    DecodeFixedHeader(s).Header? && FrameLength(s) > RX_CAPACITY && |s| > RX_CAPACITY
  }

  // ---- The frames of a stream ---------------------------------------------------------------

  /** The first `k` frames of a stream and what follows them. */
  function Cut(s: seq<byte>, k: nat): (r: Option<(seq<Frame>, seq<byte>)>)
    ensures r.Some? ==> |r.value.0| == k
    decreases k
  {
    if k == 0 then Some(([], s))
    else
      match Cut(s, k - 1)
      case None => None
      case Some((frames, rest)) =>
        match FirstFrame(rest)
        case None => None
        case Some((frame, n)) => Some((frames + [frame], rest[n..]))
  }

  /** The first `k` frames exist, fit the receive buffer, and are accepted. */
  predicate Passes(s: seq<byte>, k: nat, accepts: Dispatcher)
    ensures Passes(s, k, accepts) ==> Cut(s, k).Some?
    decreases k
  {
    k == 0
    || (Passes(s, k - 1, accepts)
        && var (frames, rest) := Cut(s, k - 1).value;
           FirstFrame(rest).Some? && FirstFrame(rest).value.1 <= RX_CAPACITY && accepts(frames, FirstFrame(rest).value.0))
  }

  /** The length of frame `k`. */
  function LengthOf(s: seq<byte>, k: nat): nat
    requires Cut(s, k + 1).Some?
  {
    FirstFrame(Cut(s, k).value.1).value.1
  }

  /** Every accepted frame that is followed by another byte is at least as long as the header fetch. */
  ghost predicate NoShortFrameFollowed(s: seq<byte>, accepts: Dispatcher) {
    forall k: nat {:trigger Cut(s, k)} :: Passes(s, k + 1, accepts) ==> Cut(s, k + 1).value.1 == [] || LengthOf(s, k) >= FIXED_HEADER_MAX
  }

  /** No frame after accepted ones outgrows the receive buffer. */
  ghost predicate EveryFrameFits(s: seq<byte>, accepts: Dispatcher) {
    forall k: nat :: Passes(s, k, accepts) ==> !TooLong(Cut(s, k).value.1)
  }

  // ---- Arrivals ----------------------------------------------------------------------------------

  /** `NETWORK_RX_BUF_CAP` and `NETWORK_MAX_RX_FETCH`: the transport's ring, and what one run may add to it. */
  const RING_CAPACITY: nat := 256
  const MAX_FETCH: nat := 64

  // ---- The client -------------------------------------------------------------------------------

  /** `Overrun`: a store behind the receive buffer was due; nothing is claimed about what follows it. */
  datatype Link = Open | Closed | Overrun

  /**
   The client between two rounds: the bytes received and not consumed, whether the header of the
   current packet is decoded, and the packets delivered. `spent` counts the bytes of those packets,
   `dropped` the other bytes that went with them.
   */
  datatype Wire = Wire(pending: seq<byte>, known: bool, delivered: seq<Frame>, link: Link, spent: nat, dropped: nat)

  const START: Wire := Wire([], false, [], Open, 0, 0)

  /** How many bytes the client takes out of `pending` with its first frame. */
  function Taken(pending: seq<byte>, known: bool): nat
    requires FirstFrame(pending).Some?
  {
    var total := FirstFrame(pending).value.1;
    if !known && total < FIXED_HEADER_MAX then Min(|pending|, FIXED_HEADER_MAX) else total
  }

  /** A delivered packet takes exactly its own bytes unless it is shorter than the fetch and was fetched along with what follows it. */
  lemma NothingLostExactly(pending: seq<byte>, known: bool)
    requires FirstFrame(pending).Some?
    ensures FirstFrame(pending).value.1 <= Taken(pending, known) <= |pending|
    ensures Taken(pending, known) == FirstFrame(pending).value.1
       <==> known || FirstFrame(pending).value.1 >= 5 || |pending| == FirstFrame(pending).value.1
    ensures Taken(pending, known) == FirstFrame(pending).value.1 || Taken(pending, known) == Min(|pending|, 5)
  {
  }

  /** One round of the `Ingest` loop. */
  function Round(w: Wire, accepts: Dispatcher): Wire {
    var s := w.pending;
    if w.link != Open || DecodeFixedHeader(s).Incomplete? then w
    else if BadHeader(s) then w.(pending := [], known := false, link := Closed)
    else if TooLong(s) then w.(known := true, link := Overrun)
    else
      match FirstFrame(s)
      case None => w.(known := true)
      case Some((frame, n)) =>
        NothingLostExactly(s, w.known);
        var t := Taken(s, w.known);
        if accepts(w.delivered, frame) then
          Wire(s[t..], false, w.delivered + [frame], Open, w.spent + n, w.dropped + (t - n))
        else
          w.(pending := [], known := false, link := Closed)
  }

  function Rounds(w: Wire, n: nat, accepts: Dispatcher): Wire {
    if n == 0 then w else Round(Rounds(w, n - 1, accepts), accepts)
  }

  /** An arrival and the `Ingest` call that follows it. */
  function Receive(w: Wire, chunk: seq<byte>, accepts: Dispatcher): Wire {
    if w.link != Open then w
    else Rounds(w.(pending := w.pending + chunk), MAX_PACKETS_PER_RUN, accepts)
  }

  /** A connection whose stream arrives in these pieces. */
  function Run(chunks: seq<seq<byte>>, accepts: Dispatcher): Wire {
    if chunks == [] then START
    else Receive(Run(chunks[..|chunks| - 1], accepts), chunks[|chunks| - 1], accepts)
  }

  /** One run can bring this much: once a header is known the ring is empty, before that it holds no more than what is pending. */
  predicate Fetchable(w: Wire, chunk: seq<byte>) {
    |chunk| <= MAX_FETCH && (w.known || |w.pending| + |chunk| <= RING_CAPACITY)
  }

  /** The transport can deliver the stream in these pieces; a closed connection receives nothing that counts. */
  predicate Feasible(chunks: seq<seq<byte>>, accepts: Dispatcher) {
    chunks == []
    || (var n := |chunks| - 1;
        Feasible(chunks[..n], accepts) && (Run(chunks[..n], accepts).link.Open? ==> Fetchable(Run(chunks[..n], accepts), chunks[n])))
  }

  function Concat(chunks: seq<seq<byte>>): seq<byte> {
    if chunks == [] then [] else Concat(chunks[..|chunks| - 1]) + chunks[|chunks| - 1]
  }

  /** A round that neither delivered nor closed will not do so when repeated. */
  lemma RoundSettles(w: Wire, accepts: Dispatcher)
    requires Round(w, accepts).delivered == w.delivered
    ensures Round(Round(w, accepts), accepts) == Round(w, accepts)
  {
  }

  lemma {:induction false} RoundsSettle(w: Wire, i: nat, n: nat, accepts: Dispatcher)
    requires i <= n && Round(Rounds(w, i, accepts), accepts) == Rounds(w, i, accepts)
    ensures Rounds(w, n, accepts) == Rounds(w, i, accepts)
    decreases n
  {
    if i < n {
      RoundsSettle(w, i, n - 1, accepts);
    }
  }

  // ---- Stability under more bytes ------------------------------------------------------------

  /** More bytes do not change a decoded header. */
  lemma HeaderStable(s: seq<byte>, t: seq<byte>)
    requires !DecodeFixedHeader(s).Incomplete?
    ensures DecodeFixedHeader(s + t) == DecodeFixedHeader(s)
  {
    assert (s + t)[1..] == s[1..] + t;
    if 1 <= s[0] / 16 <= 14 {
      VarIntStable(s[1..], t, 0, 1, 0);
    }
  }

  lemma {:induction false} VarIntStable(s: seq<byte>, t: seq<byte>, i: nat, m: nat, sum: nat)
    requires i <= 4 && !ReadFrom(s, i, m, sum).NeedMore?
    ensures ReadFrom(s + t, i, m, sum) == ReadFrom(s, i, m, sum)
    decreases 4 - i
  {
    if i < 4 && i < |s| && s[i] >= 128 {
      VarIntStable(s, t, i + 1, m * 128, sum + s[i] % 128 * m);
    }
  }

  /** Five bytes always decide a header. */
  lemma FiveBytesDecide(s: seq<byte>)
    requires |s| >= FIXED_HEADER_MAX
    ensures !DecodeFixedHeader(s).Incomplete?
  {
    VarIntDecided(s[1..], 0, 1, 0);
  }

  lemma IncompleteIsShort(s: seq<byte>)
    requires DecodeFixedHeader(s).Incomplete?
    ensures |s| < FIXED_HEADER_MAX
  {
    if |s| >= FIXED_HEADER_MAX {
      FiveBytesDecide(s);
    }
  }

  lemma {:induction false} VarIntDecided(s: seq<byte>, i: nat, m: nat, sum: nat)
    requires i <= 4 <= |s|
    ensures !ReadFrom(s, i, m, sum).NeedMore?
    decreases 4 - i
  {
    if i < 4 && s[i] >= 128 {
      VarIntDecided(s, i + 1, m * 128, sum + s[i] % 128 * m);
    }
  }

  lemma HeaderFrame(s: seq<byte>)
    requires DecodeFixedHeader(s).Header?
    ensures var h := DecodeFixedHeader(s);
            var n := h.fixedLen + h.remaining;
            FirstFrame(s) == if n <= |s| then Some((Frame(h.packetType, h.flags, s[h.fixedLen..n]), n)) else None
  {
  }

  lemma FrameStable(s: seq<byte>, t: seq<byte>)
    requires FirstFrame(s).Some?
    ensures FirstFrame(s + t) == FirstFrame(s)
  {
    HeaderStable(s, t);
    var h := DecodeFixedHeader(s);
    assert (s + t)[h.fixedLen..FrameLength(s)] == s[h.fixedLen..FrameLength(s)];
  }

  /** A frame is decided by its own bytes. */
  lemma FrameAlone(s: seq<byte>)
    requires FirstFrame(s).Some?
    ensures FirstFrame(s[..FirstFrame(s).value.1]) == FirstFrame(s)
  {
    var h, n := DecodeFixedHeader(s), FirstFrame(s).value.1;
    HeaderFrame(s);
    assert s[..n][1..] == s[1..n];
    VarIntPrefix(s[1..], n - 1, 0, 1, 0);
    assert s[1..][..n - 1] == s[1..n];
    assert s[..n][h.fixedLen..n] == s[h.fixedLen..n];
  }

  lemma {:induction false} VarIntPrefix(s: seq<byte>, n: nat, i: nat, m: nat, sum: nat)
    requires i <= 4 && n <= |s| && ReadFrom(s, i, m, sum).Value? && ReadFrom(s, i, m, sum).consumed <= n
    ensures ReadFrom(s[..n], i, m, sum) == ReadFrom(s, i, m, sum)
    decreases 4 - i
  {
    if i < 4 && s[i] >= 128 {
      VarIntPrefix(s, n, i + 1, m * 128, sum + s[i] % 128 * m);
    }
  }

  /** Frames already complete stay the first frames of the stream, whatever arrives. */
  lemma {:induction false} CutExtends(s: seq<byte>, t: seq<byte>, k: nat)
    requires Cut(s, k).Some?
    ensures Cut(s + t, k) == Some((Cut(s, k).value.0, Cut(s, k).value.1 + t))
    decreases k
  {
    if k > 0 {
      CutExtends(s, t, k - 1);
      var rest := Cut(s, k - 1).value.1;
      FrameStable(rest, t);
      var n := FirstFrame(rest).value.1;
      assert (rest + t)[n..] == rest[n..] + t;
    }
  }

  lemma {:induction false} PassesExtends(s: seq<byte>, t: seq<byte>, k: nat, accepts: Dispatcher)
    requires Passes(s, k, accepts)
    ensures Passes(s + t, k, accepts)
    decreases k
  {
    hide Cut, FirstFrame;
    if k > 0 {
      PassesExtends(s, t, k - 1, accepts);
      CutExtends(s, t, k - 1);
      FrameStable(Cut(s, k - 1).value.1, t);
    }
  }

  lemma TooLongStable(s: seq<byte>, t: seq<byte>)
    requires TooLong(s)
    ensures TooLong(s + t)
  {
    HeaderStable(s, t);
  }

  lemma BadHeaderStable(s: seq<byte>, t: seq<byte>)
    requires BadHeader(s)
    ensures BadHeader(s + t)
  {
    HeaderStable(s, t);
  }

  // ---- What every connection keeps ---------------------------------------------------------------

  /** The packets so far are followed by a malformed or oversized header, or by a packet that the dispatcher refuses. */
  predicate Refused(frames: seq<Frame>, rest: seq<byte>, accepts: Dispatcher) {
    BadHeader(rest)
    || (FirstFrame(rest).Some? && FirstFrame(rest).value.1 <= RX_CAPACITY && !accepts(frames, FirstFrame(rest).value.0))
  }

  /** The packets delivered are the first frames of the stream, and the client stands right behind them. */
  predicate Faithful(s: seq<byte>, w: Wire, accepts: Dispatcher) {
    && Passes(s, |w.delivered|, accepts)
    && var (frames, rest) := Cut(s, |w.delivered|).value;
       && frames == w.delivered
       && match w.link {
            case Open => rest == w.pending
            case Closed => Refused(frames, rest, accepts)
            case Overrun => TooLong(rest)
          }
  }

  /** Every byte of an open connection is accounted for, and unless one was dropped the client is faithful to the stream. */
  predicate InStep(s: seq<byte>, w: Wire, accepts: Dispatcher) {
    && (w.link.Open? ==> |s| == w.spent + w.dropped + |w.pending|)
    && (w.dropped == 0 ==> Faithful(s, w, accepts))
  }

  lemma NextFrame(s: seq<byte>, k: nat, frames: seq<Frame>, rest: seq<byte>, accepts: Dispatcher)
    requires Passes(s, k, accepts) && Cut(s, k) == Some((frames, rest)) && !TooLong(rest)
    requires FirstFrame(rest).Some? && accepts(frames, FirstFrame(rest).value.0)
    ensures var (frame, n) := FirstFrame(rest).value;
            n <= RX_CAPACITY && Passes(s, k + 1, accepts) && Cut(s, k + 1) == Some((frames + [frame], rest[n..])) && LengthOf(s, k) == n
  {
  }

  lemma RoundInStep(s: seq<byte>, w: Wire, accepts: Dispatcher)
    requires InStep(s, w, accepts)
    ensures InStep(s, Round(w, accepts), accepts)
  {
    hide Cut, Passes, LengthOf;
    if w.link.Open? && w.dropped == 0 && FirstFrame(w.pending).Some? && !TooLong(w.pending)
       && accepts(w.delivered, FirstFrame(w.pending).value.0) {
      NextFrame(s, |w.delivered|, w.delivered, w.pending, accepts);
    }
  }

  lemma {:induction false} RoundsInStep(s: seq<byte>, w: Wire, n: nat, accepts: Dispatcher)
    requires InStep(s, w, accepts)
    ensures InStep(s, Rounds(w, n, accepts), accepts)
    decreases n
  {
    if n > 0 {
      RoundsInStep(s, w, n - 1, accepts);
      RoundInStep(s, Rounds(w, n - 1, accepts), accepts);
    }
  }

  lemma RefusedStable(frames: seq<Frame>, rest: seq<byte>, t: seq<byte>, accepts: Dispatcher)
    requires Refused(frames, rest, accepts)
    ensures Refused(frames, rest + t, accepts)
  {
    if BadHeader(rest) {
      BadHeaderStable(rest, t);
    } else {
      FrameStable(rest, t);
    }
  }

  lemma ReceiveInStep(s: seq<byte>, w: Wire, chunk: seq<byte>, accepts: Dispatcher)
    requires InStep(s, w, accepts)
    ensures InStep(s + chunk, Receive(w, chunk, accepts), accepts)
  {
    if w.dropped == 0 {
      var rest := Cut(s, |w.delivered|).value.1;
      PassesExtends(s, chunk, |w.delivered|, accepts);
      CutExtends(s, chunk, |w.delivered|);
      match w.link {
        case Open =>
        case Closed => RefusedStable(w.delivered, rest, chunk, accepts);
        case Overrun => TooLongStable(rest, chunk);
      }
    }
    if w.link.Open? {
      RoundsInStep(s + chunk, w.(pending := w.pending + chunk), MAX_PACKETS_PER_RUN, accepts);
    }
  }

  /** However the stream is cut into arrivals, no byte goes missing unaccounted, and the first dropped byte is the only way to lose step. */
  lemma {:induction false} RunInStep(chunks: seq<seq<byte>>, accepts: Dispatcher)
    ensures InStep(Concat(chunks), Run(chunks, accepts), accepts)
  {
    if chunks == [] {
      assert Passes([], 0, accepts);
    } else {
      var n := |chunks| - 1;
      RunInStep(chunks[..n], accepts);
      ReceiveInStep(Concat(chunks[..n]), Run(chunks[..n], accepts), chunks[n], accepts);
    }
  }

  // ---- When no byte is ever dropped ----------------------------------------------------------------

  /** On a stream without short frames before other bytes, a client in step drops nothing in a round. */
  lemma RoundDropsNothing(s: seq<byte>, t: seq<byte>, w: Wire, accepts: Dispatcher)
    requires InStep(s, w, accepts) && w.dropped == 0 && NoShortFrameFollowed(s + t, accepts)
    ensures Round(w, accepts).dropped == 0
  {
    hide Cut, Passes, LengthOf;
    if w.link.Open? && FirstFrame(w.pending).Some? && !TooLong(w.pending) && accepts(w.delivered, FirstFrame(w.pending).value.0) {
      var k, n := |w.delivered|, FirstFrame(w.pending).value.1;
      NextFrame(s, k, w.delivered, w.pending, accepts);
      PassesExtends(s, t, k + 1, accepts);
      CutExtends(s, t, k);
      CutExtends(s, t, k + 1);
      SameLength(s, t, k);
      assert |w.pending[n..] + t| == |w.pending| - n + |t|;
      NothingLostExactly(w.pending, w.known);
    }
  }

  lemma SameLength(s: seq<byte>, t: seq<byte>, k: nat)
    requires Cut(s, k + 1).Some?
    ensures Cut(s + t, k + 1).Some? && LengthOf(s + t, k) == LengthOf(s, k)
  {
    CutExtends(s, t, k + 1);
    CutExtends(s, t, k);
    FrameStable(Cut(s, k).value.1, t);
  }

  lemma {:induction false} RoundsDropNothing(s: seq<byte>, t: seq<byte>, w: Wire, n: nat, accepts: Dispatcher)
    requires InStep(s, w, accepts) && w.dropped == 0 && NoShortFrameFollowed(s + t, accepts)
    ensures Rounds(w, n, accepts).dropped == 0
    decreases n
  {
    if n > 0 {
      RoundsDropNothing(s, t, w, n - 1, accepts);
      RoundsInStep(s, w, n - 1, accepts);
      RoundDropsNothing(s, t, Rounds(w, n - 1, accepts), accepts);
    }
  }

  lemma {:induction false} RunDropsNothing(chunks: seq<seq<byte>>, t: seq<byte>, accepts: Dispatcher)
    requires NoShortFrameFollowed(Concat(chunks) + t, accepts)
    ensures Run(chunks, accepts).dropped == 0
  {
    if chunks != [] {
      var n := |chunks| - 1;
      var before, chunk := Concat(chunks[..n]), chunks[n];
      assert Concat(chunks) + t == before + (chunk + t);
      RunDropsNothing(chunks[..n], chunk + t, accepts);
      RunInStep(chunks[..n], accepts);
      var w := Run(chunks[..n], accepts);
      if w.link.Open? {
        ArrivalInStep(before, w, chunk, accepts);
        RoundsDropNothing(before + chunk, t, w.(pending := w.pending + chunk), MAX_PACKETS_PER_RUN, accepts);
      }
    }
  }

  lemma ArrivalInStep(s: seq<byte>, w: Wire, chunk: seq<byte>, accepts: Dispatcher)
    requires InStep(s, w, accepts) && w.link.Open?
    ensures InStep(s + chunk, w.(pending := w.pending + chunk), accepts)
  {
    if w.dropped == 0 {
      PassesExtends(s, chunk, |w.delivered|, accepts);
      CutExtends(s, chunk, |w.delivered|);
    }
  }

  // ---- What passing frames say -----------------------------------------------------------------

  /** What passing `k` frames says about the last of them. */
  lemma LastFrame(s: seq<byte>, k: nat, accepts: Dispatcher)
    requires k > 0 && Passes(s, k, accepts)
    ensures Passes(s, k - 1, accepts) && Cut(s, k - 1).Some? && Cut(s, k).Some? && FirstFrame(Cut(s, k - 1).value.1).Some?
    ensures var (frames, rest) := Cut(s, k - 1).value;
            var (frame, n) := FirstFrame(rest).value;
            n <= RX_CAPACITY && accepts(frames, frame) && Cut(s, k).value.0 == frames + [frame] && Cut(s, k).value.1 == rest[n..]
  {
  }

  /** Earlier frames pass too, and fewer frames leave more of the stream. */
  lemma {:induction false} PassesEarlier(s: seq<byte>, i: nat, k: nat, accepts: Dispatcher)
    requires i <= k && Passes(s, k, accepts)
    ensures Passes(s, i, accepts) && |Cut(s, k).value.1| <= |Cut(s, i).value.1|
    decreases k
  {
    hide Passes, Cut, FirstFrame;
    if i < k {
      LastFrame(s, k, accepts);
      PassesEarlier(s, i, k - 1, accepts);
    }
  }

  /** A frame that passes is neither refused nor too long. */
  lemma PassingFrame(s: seq<byte>, i: nat, k: nat, accepts: Dispatcher)
    requires i < k && Passes(s, k, accepts)
    ensures Cut(s, i).Some?
    ensures var (frames, rest) := Cut(s, i).value;
            && FirstFrame(rest).Some? && FirstFrame(rest).value.1 <= RX_CAPACITY && accepts(frames, FirstFrame(rest).value.0)
            && !Refused(frames, rest, accepts) && !TooLong(rest)
  {
    PassesEarlier(s, i + 1, k, accepts);
    LastFrame(s, i + 1, accepts);
  }

  /** The bytes of the first `k` frames. */
  function Consumed(s: seq<byte>, k: nat): (q: seq<byte>)
    requires Cut(s, k).Some? && |Cut(s, k).value.1| <= |s|
  {
    s[..|s| - |Cut(s, k).value.1|]
  }

  /** They are a stream of exactly those frames. */
  lemma {:induction false} ConsumedPasses(s: seq<byte>, k: nat, accepts: Dispatcher)
    requires Passes(s, k, accepts)
    ensures |Cut(s, k).value.1| <= |s| && s == Consumed(s, k) + Cut(s, k).value.1
    ensures Passes(Consumed(s, k), k, accepts) && Cut(Consumed(s, k), k) == Some((Cut(s, k).value.0, []))
    decreases k
  {
    hide Passes, Cut, FirstFrame;
    if k == 0 {
      StartOfCut(s, accepts);
      StartOfCut([], accepts);
    } else {
      LastFrame(s, k, accepts);
      ConsumedPasses(s, k - 1, accepts);
      var (frames, rest) := Cut(s, k - 1).value;
      var (frame, n) := FirstFrame(rest).value;
      var q := Consumed(s, k - 1);
      FrameAlone(rest);
      Regroup(q, rest, n);
      assert Consumed(s, k) == q + rest[..n] by {
        assert s == (q + rest[..n]) + rest[n..];
      }
      PassesExtends(q, rest[..n], k - 1, accepts);
      CutExtends(q, rest[..n], k - 1);
      assert [] + rest[..n] == rest[..n];
      StillShort(rest[..n]);
      NextFrame(q + rest[..n], k - 1, frames, rest[..n], accepts);
      assert rest[..n][n..] == [];
    }
  }

  lemma StillShort(s: seq<byte>)
    requires |s| <= RX_CAPACITY
    ensures !TooLong(s)
  {
  }

  lemma StartOfCut(s: seq<byte>, accepts: Dispatcher)
    ensures Cut(s, 0) == Some(([], s)) && Passes(s, 0, accepts)
  {
  }

  lemma Regroup(a: seq<byte>, b: seq<byte>, n: nat)
    requires n <= |b|
    ensures a + b[..n] + b[n..] == a + b
  {
  }

  // ---- One outcome for every way of arriving -----------------------------------------------------

  /** The client has done all it can with what it has. */
  predicate Settled(w: Wire, accepts: Dispatcher) {
    Round(w, accepts) == w
  }

  /** A settled open client waits for bytes: there is no bad header, no packet to dispatch, none too long. */
  lemma SettledWaits(w: Wire, accepts: Dispatcher)
    requires Settled(w, accepts) && w.link.Open?
    ensures FirstFrame(w.pending).None? && !BadHeader(w.pending) && !TooLong(w.pending)
    ensures DecodeFixedHeader(w.pending).Header? ==> w.known
  {
  }

  lemma SettledCounts(s: seq<byte>, w: Wire, v: Wire, accepts: Dispatcher)
    requires Faithful(s, w, accepts) && Faithful(s, v, accepts) && Settled(w, accepts)
    ensures |v.delivered| <= |w.delivered|
  {
    if |w.delivered| < |v.delivered| {
      PassingFrame(s, |w.delivered|, |v.delivered|, accepts);
      if w.link.Open? {
        SettledWaits(w, accepts);
      }
    }
  }

  /** Whoever settles on a stream without dropping a byte ends alike: the same packets, the same fate, the same bytes left. */
  lemma OutcomeDetermined(s: seq<byte>, w: Wire, v: Wire, accepts: Dispatcher)
    requires Faithful(s, w, accepts) && Faithful(s, v, accepts) && Settled(w, accepts) && Settled(v, accepts)
    ensures w.delivered == v.delivered && w.link == v.link
    ensures w.link.Open? ==> w.pending == v.pending
  {
    SettledCounts(s, w, v, accepts);
    SettledCounts(s, v, w, accepts);
    if w.link.Open? {
      SettledWaits(w, accepts);
    }
    if v.link.Open? {
      SettledWaits(v, accepts);
    }
  }

  // ---- Byte by byte ----------------------------------------------------------------------------------

  /** Every byte an arrival of its own. */
  function Bytewise(s: seq<byte>): (chunks: seq<seq<byte>>)
    ensures |chunks| == |s|
  {
    if s == [] then [] else Bytewise(s[..|s| - 1]) + [[s[|s| - 1]]]
  }

  lemma FrameInPrefix(s: seq<byte>, t: seq<byte>)
    requires FirstFrame(s + t).Some? && FirstFrame(s + t).value.1 <= |s|
    ensures FirstFrame(s) == FirstFrame(s + t)
  {
    var n := FirstFrame(s + t).value.1;
    FrameAlone(s + t);
    assert (s + t)[..n] == s[..n];
    FrameStable(s[..n], s[n..]);
    assert s[..n] + s[n..] == s;
  }

  lemma FrameInSlice(s: seq<byte>, m: nat)
    requires FirstFrame(s).Some? && FirstFrame(s).value.1 <= m <= |s|
    ensures FirstFrame(s[..m]) == FirstFrame(s)
  {
    assert s[..m] + s[m..] == s;
    FrameInPrefix(s[..m], s[m..]);
  }

  /** A byte that completes a frame is its last. */
  lemma LastByteCompletes(s: seq<byte>, b: byte)
    requires FirstFrame(s).None? && FirstFrame(s + [b]).Some?
    ensures FirstFrame(s + [b]).value.1 == |s| + 1
  {
    if FirstFrame(s + [b]).value.1 <= |s| {
      FrameInPrefix(s, [b]);
    }
  }

  /** A settled client takes one more byte and settles, dropping nothing. */
  lemma ByteSettles(w: Wire, b: byte, accepts: Dispatcher)
    requires w.link.Open? && Settled(w, accepts) && (w.known ==> DecodeFixedHeader(w.pending).Header?)
    ensures var after := Receive(w, [b], accepts);
            && Settled(after, accepts) && after.dropped == w.dropped
            && (after.known && after.link.Open? ==> DecodeFixedHeader(after.pending).Header?)
  {
    var start := w.(pending := w.pending + [b]);
    SettledWaits(w, accepts);
    if w.known {
      HeaderStable(w.pending, [b]);
    }
    if FirstFrame(start.pending).Some? {
      LastByteCompletes(w.pending, b);
      NothingLostExactly(start.pending, start.known);
    }
    OneRoundSettles(start, accepts);
    RoundsFromOne(start, accepts);
  }

  /** After a round that leaves no bytes, or does not deliver, there is nothing to do. */
  lemma OneRoundSettles(w: Wire, accepts: Dispatcher)
    requires FirstFrame(w.pending).Some? ==> Taken(w.pending, w.known) == |w.pending|
    ensures Settled(Round(w, accepts), accepts)
  {
  }

  lemma RoundsFromOne(w: Wire, accepts: Dispatcher)
    requires Settled(Round(w, accepts), accepts)
    ensures Rounds(w, MAX_PACKETS_PER_RUN, accepts) == Round(w, accepts)
  {
    hide Round;
    assert Rounds(w, 0, accepts) == w;
    assert Rounds(w, 1, accepts) == Round(w, accepts);
    RoundsSettle(w, 1, MAX_PACKETS_PER_RUN, accepts);
  }

  lemma OneMoreChunk(chunks: seq<seq<byte>>, chunk: seq<byte>, accepts: Dispatcher)
    ensures Concat(chunks + [chunk]) == Concat(chunks) + chunk
    ensures Run(chunks + [chunk], accepts) == Receive(Run(chunks, accepts), chunk, accepts)
    ensures Feasible(chunks + [chunk], accepts) <==>
              Feasible(chunks, accepts) && (Run(chunks, accepts).link.Open? ==> Fetchable(Run(chunks, accepts), chunk))
  {
    assert (chunks + [chunk])[..|chunks|] == chunks;
  }

  /** Arriving byte by byte is always possible, settles after every byte, and loses nothing, whatever the stream. */
  lemma {:induction false} BytewiseLosesNothing(s: seq<byte>, accepts: Dispatcher)
    ensures Concat(Bytewise(s)) == s && Feasible(Bytewise(s), accepts)
    ensures var w := Run(Bytewise(s), accepts);
            && Settled(w, accepts) && w.dropped == 0 && Faithful(s, w, accepts)
            && (w.known && w.link.Open? ==> DecodeFixedHeader(w.pending).Header?)
  {
    hide Round, Feasible, Faithful;
    if s == [] {
      EmptyStart(accepts);
    } else {
      var front, b := s[..|s| - 1], s[|s| - 1];
      var w := Run(Bytewise(front), accepts);
      BytewiseLosesNothing(front, accepts);
      OneMoreChunk(Bytewise(front), [b], accepts);
      assert s == front + [b];
      if w.link.Open? {
        ByteSettles(w, b, accepts);
        WaitingIsShort(w, accepts);
      }
    }
    RunInStep(Bytewise(s), accepts);
  }

  lemma EmptyStart(accepts: Dispatcher)
    ensures Settled(START, accepts) && Feasible([], accepts)
  {
  }

  lemma WaitingIsShort(w: Wire, accepts: Dispatcher)
    requires Settled(w, accepts) && w.link.Open?
    ensures w.known || |w.pending| < FIXED_HEADER_MAX
  {
    SettledWaits(w, accepts);
    if DecodeFixedHeader(w.pending).Incomplete? {
      IncompleteIsShort(w.pending);
    }
  }

  /** Every cut that settles without a loss ends as if the stream had arrived byte by byte. */
  lemma CutsAgree(chunks: seq<seq<byte>>, accepts: Dispatcher)
    requires Run(chunks, accepts).dropped == 0 && Settled(Run(chunks, accepts), accepts)
    ensures var w, v := Run(chunks, accepts), Run(Bytewise(Concat(chunks)), accepts);
            w.delivered == v.delivered && w.link == v.link && (w.link.Open? ==> w.pending == v.pending)
  {
    RunInStep(chunks, accepts);
    BytewiseLosesNothing(Concat(chunks), accepts);
    OutcomeDetermined(Concat(chunks), Run(chunks, accepts), Run(Bytewise(Concat(chunks)), accepts), accepts);
  }

  /** Fed exactly `k` passing frames byte by byte, the client has delivered them and holds nothing. */
  lemma FramesDelivered(s: seq<byte>, k: nat, accepts: Dispatcher)
    requires Passes(s, k, accepts) && |Cut(s, k).value.1| <= |s|
    ensures var w := Run(Bytewise(Consumed(s, k)), accepts);
            w.link.Open? && w.pending == [] && !w.known && w.delivered == Cut(s, k).value.0
  {
    ConsumedPasses(s, k, accepts);
    var q, frames := Consumed(s, k), Cut(s, k).value.0;
    var v := Wire([], false, frames, Open, 0, 0);
    BytewiseLosesNothing(q, accepts);
    assert Faithful(q, v, accepts) && Settled(v, accepts);
    OutcomeDetermined(q, Run(Bytewise(q), accepts), v, accepts);
  }

  // ---- A short frame and what follows it ---------------------------------------------------------------

  lemma {:induction false} RoundsOnlyDropMore(w: Wire, m: nat, n: nat, accepts: Dispatcher)
    requires m <= n
    ensures Rounds(w, m, accepts).dropped <= Rounds(w, n, accepts).dropped
    decreases n
  {
    if m < n {
      RoundsOnlyDropMore(w, m, n - 1, accepts);
    }
  }

  /** The frames before, byte by byte, and then frame `k` together with the byte behind it. */
  function ShortFrameArrivals(s: seq<byte>, k: nat): seq<seq<byte>>
    requires Cut(s, k).Some? && |Cut(s, k).value.1| <= |s| && Cut(s, k + 1).Some? && LengthOf(s, k) < |Cut(s, k).value.1|
  {
    Bytewise(Consumed(s, k)) + [Cut(s, k).value.1[..LengthOf(s, k) + 1]]
  }

  /** A short frame with a byte behind it loses that byte when both arrive together, which the transport can bring about. */
  lemma ShortFrameLoses(s: seq<byte>, k: nat, accepts: Dispatcher)
    requires Passes(s, k + 1, accepts) && Cut(s, k + 1).value.1 != [] && LengthOf(s, k) < FIXED_HEADER_MAX
    ensures |Cut(s, k).value.1| <= |s| && LengthOf(s, k) < |Cut(s, k).value.1|
    ensures var chunks := ShortFrameArrivals(s, k);
            Feasible(chunks, accepts) && Concat(chunks) <= s && Run(chunks, accepts).dropped > 0
  {
    hide Feasible, Run, Receive, Passes, Cut, FirstFrame;
    LastFrame(s, k + 1, accepts);
    ConsumedPasses(s, k, accepts);
    FramesDelivered(s, k, accepts);
    BytewiseLosesNothing(Consumed(s, k), accepts);
    var rest, n := Cut(s, k).value.1, LengthOf(s, k);
    var before, chunk := Bytewise(Consumed(s, k)), rest[..n + 1];
    OneMoreChunk(before, chunk, accepts);
    assert Consumed(s, k) + chunk == s[..|Consumed(s, k)| + n + 1];
    FrameInSlice(rest, n + 1);
    LosingRound(Run(before, accepts), chunk, n, accepts);
  }

  lemma LosingRound(w: Wire, chunk: seq<byte>, n: nat, accepts: Dispatcher)
    requires w.link.Open? && w.pending == [] && !w.known
    requires FirstFrame(chunk).Some? && FirstFrame(chunk).value.1 == n < |chunk| == n + 1 <= FIXED_HEADER_MAX
    requires accepts(w.delivered, FirstFrame(chunk).value.0)
    ensures Receive(w, chunk, accepts).dropped > 0
  {
    assert w.pending + chunk == chunk;
    var start := w.(pending := chunk);
    NothingLostExactly(chunk, false);
    assert Rounds(start, 0, accepts) == start;
    assert Rounds(start, 1, accepts) == Round(start, accepts);
    assert Round(start, accepts).dropped > 0;
    RoundsOnlyDropMore(start, 1, MAX_PACKETS_PER_RUN, accepts);
  }

  // ---- The exact conditions ----------------------------------------------------------------------------

  /**
   No way in which the transport can deliver a stream, or the beginning of one, drops a byte, if and
   only if no accepted short frame is followed by another byte.
   */
  lemma ByteStreamSafe(s: seq<byte>, accepts: Dispatcher)
    ensures (forall chunks :: Feasible(chunks, accepts) && Concat(chunks) <= s ==> Run(chunks, accepts).dropped == 0)
       <==> NoShortFrameFollowed(s, accepts)
  {
    if NoShortFrameFollowed(s, accepts) {
      forall chunks | Feasible(chunks, accepts) && Concat(chunks) <= s
        ensures Run(chunks, accepts).dropped == 0
      {
        var t := s[|Concat(chunks)|..];
        assert Concat(chunks) + t == s;
        RunDropsNothing(chunks, t, accepts);
      }
    } else {
      var k: nat :| Passes(s, k + 1, accepts) && Cut(s, k + 1).value.1 != [] && LengthOf(s, k) < FIXED_HEADER_MAX;
      ShortFrameLoses(s, k, accepts);
    }
  }

  /**
   No way in which the transport can deliver a stream without losing a byte stores behind the
   receive buffer, if and only if every frame that is reached fits.
   */
  lemma BufferSafe(s: seq<byte>, accepts: Dispatcher)
    ensures (forall chunks :: Feasible(chunks, accepts) && Concat(chunks) <= s && Run(chunks, accepts).dropped == 0 ==>
               !Run(chunks, accepts).link.Overrun?)
       <==> EveryFrameFits(s, accepts)
  {
    if EveryFrameFits(s, accepts) {
      forall chunks | Feasible(chunks, accepts) && Concat(chunks) <= s && Run(chunks, accepts).dropped == 0
        ensures !Run(chunks, accepts).link.Overrun?
      {
        OverrunIsTooLong(chunks, s, accepts);
      }
    } else {
      var k: nat :| Passes(s, k, accepts) && TooLong(Cut(s, k).value.1);
      LongFrameOverruns(s, k, accepts);
      BytewiseLosesNothing(s, accepts);
      assert Concat(Bytewise(s)) <= s;
    }
  }

  /** In step, only a frame of the stream that does not fit overruns the buffer. */
  lemma OverrunIsTooLong(chunks: seq<seq<byte>>, s: seq<byte>, accepts: Dispatcher)
    requires Concat(chunks) <= s && Run(chunks, accepts).dropped == 0 && EveryFrameFits(s, accepts)
    ensures !Run(chunks, accepts).link.Overrun?
  {
    var q, w := Concat(chunks), Run(chunks, accepts);
    var t, k := s[|q|..], |w.delivered|;
    assert q + t == s;
    RunInStep(chunks, accepts);
    if w.link.Overrun? {
      PassesExtends(q, t, k, accepts);
      CutExtends(q, t, k);
      TooLongStable(Cut(q, k).value.1, t);
    }
  }

  /** A reached frame that does not fit overruns the buffer even when it arrives byte by byte. */
  lemma LongFrameOverruns(s: seq<byte>, k: nat, accepts: Dispatcher)
    requires Passes(s, k, accepts) && TooLong(Cut(s, k).value.1)
    ensures Run(Bytewise(s), accepts).link.Overrun?
  {
    BytewiseLosesNothing(s, accepts);
    var v := Wire([], false, Cut(s, k).value.0, Overrun, 0, 0);
    assert Faithful(s, v, accepts) && Settled(v, accepts);
    OutcomeDetermined(s, Run(Bytewise(s), accepts), v, accepts);
  }

  /** A stream whose first frame does not fit overruns the buffer however it arrives. */
  lemma {:induction false} FirstFrameOverruns(chunks: seq<seq<byte>>, t: seq<byte>, accepts: Dispatcher)
    requires var s := Concat(chunks) + t; DecodeFixedHeader(s).Header? && FrameLength(s) > RX_CAPACITY
    ensures var w := Run(chunks, accepts);
            if TooLong(Concat(chunks)) then w.link.Overrun?
            else w.link.Open? && w.pending == Concat(chunks) && w.delivered == [] && w.dropped == 0
  {
    if chunks != [] {
      var n := |chunks| - 1;
      var before, chunk := Concat(chunks[..n]), chunks[n];
      assert Concat(chunks) + t == before + (chunk + t);
      FirstFrameOverruns(chunks[..n], chunk + t, accepts);
      if TooLong(before) {
        TooLongStable(before, chunk);
      } else {
        LongHeaderRounds(Run(chunks[..n], accepts).(pending := before + chunk), t, accepts);
      }
    }
  }

  lemma LongHeaderRounds(w: Wire, t: seq<byte>, accepts: Dispatcher)
    requires DecodeFixedHeader(w.pending + t).Header? && FrameLength(w.pending + t) > RX_CAPACITY && w.link.Open?
    ensures var after := Rounds(w, MAX_PACKETS_PER_RUN, accepts);
            if TooLong(w.pending) then after.link.Overrun?
            else after.link.Open? && after.pending == w.pending && after.delivered == w.delivered && after.dropped == w.dropped
  {
    if !DecodeFixedHeader(w.pending).Incomplete? {
      HeaderStable(w.pending, t);
    }
    RoundSettles(w, accepts);
    RoundsFromOne(w, accepts);
  }

  /** A packet announced as more than 2304 bytes long closes the connection as soon as its header is there, undelivered. */
  lemma OversizedCloses(w: Wire, chunk: seq<byte>, typeFlags: byte, rl: nat, rest: seq<byte>, accepts: Dispatcher)
    requires w.link.Open? && 16 <= typeFlags < 240 && 2304 < rl <= 268435455
    requires w.pending + chunk == [typeFlags] + VarIntBytes(rl) + rest
    ensures Receive(w, chunk, accepts) == Wire([], false, w.delivered, Closed, w.spent, w.dropped)
  {
    OversizedHeaders(typeFlags, rl, rest);
    BadHeaderCloses(w, chunk, accepts);
  }

  /** So does a reserved type, or a Remaining Length of more than four bytes. */
  lemma MalformedCloses(w: Wire, chunk: seq<byte>, accepts: Dispatcher)
    requires w.link.Open? && w.pending + chunk != []
    requires var s := w.pending + chunk; s[0] < 16 || s[0] >= 240 || FourContinued(s[1..])
    ensures Receive(w, chunk, accepts) == Wire([], false, w.delivered, Closed, w.spent, w.dropped)
  {
    MalformedHeaders(w.pending + chunk);
    BadHeaderCloses(w, chunk, accepts);
  }

  lemma BadHeaderCloses(w: Wire, chunk: seq<byte>, accepts: Dispatcher)
    requires w.link.Open? && BadHeader(w.pending + chunk)
    ensures Receive(w, chunk, accepts) == Wire([], false, w.delivered, Closed, w.spent, w.dropped)
  {
    BadHeaderEnds(w.(pending := w.pending + chunk), accepts);
  }

  lemma BadHeaderEnds(w: Wire, accepts: Dispatcher)
    requires w.link.Open? && BadHeader(w.pending)
    ensures Rounds(w, MAX_PACKETS_PER_RUN, accepts) == Wire([], false, w.delivered, Closed, w.spent, w.dropped)
  {
    RoundsFromOne(w, accepts);
  }

  /** Of one packet: whatever arrives, every byte of it is stored inside the buffer if and only if header and body together fit. */
  lemma PacketFitsExactly(w: Wire, accepts: Dispatcher)
    requires w.link.Open? && DecodeFixedHeader(w.pending).Header?
    ensures (forall t :: !Round(w.(pending := w.pending + t), accepts).link.Overrun?)
       <==> DecodeFixedHeader(w.pending).fixedLen + DecodeFixedHeader(w.pending).remaining <= RX_CAPACITY
  {
    forall t
      ensures DecodeFixedHeader(w.pending + t) == DecodeFixedHeader(w.pending)
    {
      HeaderStable(w.pending, t);
    }
    var enough: seq<byte> := seq(RX_CAPACITY, _ => 0);
    assert |w.pending + enough| > RX_CAPACITY;
    assert Round(w.(pending := w.pending + enough), accepts).link.Overrun? <==> FrameLength(w.pending) > RX_CAPACITY;
  }

  // ---- How much one call does ------------------------------------------------------------------------

  predicate LongAt(s: seq<byte>, k: nat) {
    Cut(s, k + 1).Some? && LengthOf(s, k) >= 5
  }

  lemma {:induction false} RoundsDeliver(s: seq<byte>, n: nat, accepts: Dispatcher)
    requires Passes(s, n, accepts)
    requires forall k: nat :: k < n ==> LongAt(s, k)
    ensures var w := Rounds(START.(pending := s), n, accepts);
            w.link.Open? && !w.known && w.dropped == 0 && w.delivered == Cut(s, n).value.0 && w.pending == Cut(s, n).value.1
    decreases n
  {
    hide Passes, Cut, FirstFrame, Round;
    if n == 0 {
      StartOfCut(s, accepts);
    } else {
      LastFrame(s, n, accepts);
      assert LongAt(s, n - 1);
      RoundsDeliver(s, n - 1, accepts);
      PassingFrame(s, n - 1, n, accepts);
      var w := Rounds(START.(pending := s), n - 1, accepts);
      assert w.pending == Cut(s, n - 1).value.1 && w.delivered == Cut(s, n - 1).value.0;
      assert FirstFrame(w.pending).value.1 == LengthOf(s, n - 1);
      assert accepts(w.delivered, FirstFrame(w.pending).value.0);
      LongFrameRound(w, accepts);
    }
  }

  lemma LongFrameRound(w: Wire, accepts: Dispatcher)
    requires w.link.Open? && FirstFrame(w.pending).Some? && FirstFrame(w.pending).value.1 >= FIXED_HEADER_MAX && !TooLong(w.pending)
    requires accepts(w.delivered, FirstFrame(w.pending).value.0)
    ensures var (frame, n) := FirstFrame(w.pending).value;
            Round(w, accepts) == Wire(w.pending[n..], false, w.delivered + [frame], Open, w.spent + n, w.dropped)
  {
    NothingLostExactly(w.pending, w.known);
  }

  /** One call delivers up to four packets: of a stream that begins with four long enough ones exactly those, and keeps the rest. */
  lemma FourPerCall(s: seq<byte>, accepts: Dispatcher)
    requires Passes(s, 4, accepts) && forall k: nat :: k < 4 ==> LongAt(s, k)
    ensures var w := Run([s], accepts);
            w.link.Open? && w.delivered == Cut(s, 4).value.0 && w.pending == Cut(s, 4).value.1 && w.dropped == 0
  {
    RoundsDeliver(s, 4, accepts);
    assert [] + [s] == [s];
    OneMoreChunk([], s, accepts);
    assert START.pending + s == s;
  }
}
