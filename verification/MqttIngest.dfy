/**
 The receiving half of the MQTT client: a packet is accumulated in a fixed buffer over any
 number of fetches from the transport's ring. Each round is proved to do what `MqttStream` says.
 */
module MqttIngest {
  import opened Options
  import opened MqttCodec
  import opened MqttStream

  /** What a round of `Ingest`, or a whole call, comes to; `Again` is its `continue`. */
  datatype Progress = WouldBlock | Again | Delivered | Stopped

  class Parser {
    /** The transport's receive ring: bytes received and not yet fetched. */
    var queue: seq<byte>
    const rxBuf: array<byte>
    var rxLen: nat
    var rxTotal: nat
    var rxFixedLen: nat
    var rxType: nat
    var rxFlags: nat
    /** The packets the dispatcher accepted, in order. */
    var delivered: seq<Frame>
    var link: Link
    /** How many bytes the delivered packets had, and how many other bytes went with them. */
    ghost var spent: nat
    ghost var dropped: nat
    const accepts: Dispatcher

    /** The part of the buffer in use. */
    ghost function Rx(): seq<byte>
      requires rxLen <= rxBuf.Length
      reads this, rxBuf
    {
      rxBuf[..rxLen]
    }

    ghost predicate Sized()
      reads this
    {
      rxLen <= rxBuf.Length == RX_CAPACITY
    }

    /** What the header fields say about the buffered bytes. */
    ghost predicate Valid()
      reads this, rxBuf
    {
      && Sized()
      && (rxTotal == 0 ==> rxLen == 0 || (DecodeFixedHeader(Rx()).Incomplete? && rxLen < FIXED_HEADER_MAX))
      && (rxTotal > 0 ==> HeaderKnown() && rxLen < rxTotal)
    }

    /** Whatever is in the buffer between two calls, the ring has nothing to add to it. */
    ghost predicate Drained()
      reads this
    {
      rxLen > 0 ==> queue == []
    }

    ghost predicate HeaderKnown()
      requires Sized()
      reads this, rxBuf
    {
      && rxFixedLen <= rxTotal && 0 < rxTotal
      && DecodeFixedHeader(Rx()) == Header(rxType, rxFlags, rxTotal - rxFixedLen, rxFixedLen)
    }

    /** Every byte received that neither belongs to a delivered packet nor was dropped. */
    ghost function Pending(): seq<byte>
      requires Sized()
      reads this, rxBuf
    {
      Rx() + queue
    }

    /** The client as the specification sees it. */
    ghost function View(): Wire
      requires Sized()
      reads this, rxBuf
    {
      Wire(Pending(), rxTotal > 0, delivered, link, spent, dropped)
    }

    constructor (accepts: Dispatcher)
      ensures Valid() && View() == START && this.accepts == accepts && fresh(rxBuf)
    {
      this.accepts := accepts;
      rxBuf := new byte[RX_CAPACITY](_ => 0);
      queue, rxLen, delivered, link, spent, dropped := [], 0, [], Open, 0, 0;
      rxTotal, rxFixedLen, rxType, rxFlags := 0, 0, 0, 0;
    }

    /** `RunRx`: the transport fetches what the network offers into its ring, as far as one run and the ring allow. */
    method RunRx(offered: seq<byte>) returns (got: nat)
      requires Valid() && |queue| <= RING_CAPACITY
      modifies this`queue
      ensures got == Min(|offered|, Min(MAX_FETCH, RING_CAPACITY - |old(queue)|)) && |queue| <= RING_CAPACITY
      ensures Valid() && View() == old(View()).(pending := old(Pending()) + offered[..got])
    {
      got := Min(|offered|, Min(MAX_FETCH, RING_CAPACITY - |queue|));
      Arrive(offered[..got]);
    }

    /** More bytes in the ring. */
    method Arrive(bytes: seq<byte>)
      requires Valid()
      modifies this`queue
      ensures Valid() && queue == old(queue) + bytes && View() == old(View()).(pending := old(Pending()) + bytes)
    {
      queue := queue + bytes;
      assert Pending() == old(Pending()) + bytes;
    }

    /** `NetworkTransport_Receive` behind the bytes already in the buffer; every store must be inside it. */
    method Fetch(cap: nat) returns (got: nat)
      requires Sized() && rxLen + Min(cap, |queue|) <= rxBuf.Length
      modifies this`queue, this`rxLen, rxBuf
      ensures got == Min(cap, |old(queue)|) && rxLen == old(rxLen) + got && Sized()
      ensures Rx() == old(Rx()) + old(queue)[..got] && queue == old(queue)[got..] && Pending() == old(Pending())
      ensures got == 0 ==> Rx() == old(Rx())
    {
      got := Min(cap, |queue|);
      for i := 0 to got
        invariant rxLen == old(rxLen) && queue == old(queue)
        invariant forall k :: 0 <= k < rxLen ==> rxBuf[k] == old(rxBuf[k])
        invariant forall k :: 0 <= k < i ==> rxBuf[rxLen + k] == queue[k]
      {
        rxBuf[rxLen + i] := queue[i];
      }
      rxLen, queue := rxLen + got, queue[got..];
      assert Rx() == old(Rx()) + old(queue)[..got];
      assert Pending() == old(Pending());
    }

    /** `CloseTransport` and `EnterError` */
    method Fail()
      requires Sized()
      modifies this
      ensures Valid() && View() == old(View()).(pending := [], known := false, link := Closed)
    {
      link, queue, rxLen := Closed, [], 0;
      rxTotal, rxFixedLen, rxType, rxFlags := 0, 0, 0, 0;
    }

    /** `TryParseHeader` */
    method TryParseHeader() returns (h: Header)
      requires Sized()
      modifies this`rxTotal, this`rxFixedLen, this`rxType, this`rxFlags
      ensures h == DecodeFixedHeader(Rx())
      ensures if h.Header? then HeaderKnown()
              else rxType == old(rxType) && rxFlags == old(rxFlags) && rxFixedLen == old(rxFixedLen) && rxTotal == old(rxTotal)
    {
      h := DecodeFixedHeader(rxBuf[..rxLen]);
      if h.Incomplete? {
        if rxLen >= FIXED_HEADER_MAX {
          FiveBytesDecide(Rx());
          assert false;
        }
        return;
      }
      if !h.Header? {
        return;
      }
      rxFixedLen, rxType, rxFlags := h.fixedLen, h.packetType, h.flags;
      rxTotal := h.fixedLen + h.remaining;
    }

    /** The two header fetches; `WouldBlock` and `Again` leave a header that is still incomplete. */
    method FillHeader() returns (p: Progress, h: Header)
      requires Valid() && rxTotal == 0
      modifies this`queue, this`rxLen, this`rxTotal, this`rxFixedLen, this`rxType, this`rxFlags, rxBuf
      ensures Sized() && Pending() == old(Pending()) && rxLen == Min(|Pending()|, FIXED_HEADER_MAX)
      ensures h == DecodeFixedHeader(Rx())
      ensures p.Delivered? <==> !h.Incomplete?
      ensures !p.Stopped? && (h.Incomplete? ==> queue == [] && rxLen < FIXED_HEADER_MAX)
      ensures |queue| <= |old(queue)|
      ensures if h.Header? then HeaderKnown() else rxTotal == 0
    {
      hide ReadFrom;
      if rxLen == 0 {
        var got := Fetch(FIXED_HEADER_MAX);
        if got == 0 {
          return WouldBlock, Incomplete;
        }
      }
      h := TryParseHeader();
      if h.Incomplete? {
        IncompleteIsShort(Rx());
        var got := Fetch(FIXED_HEADER_MAX - rxLen);
        if got == 0 {
          return WouldBlock, h;
        }
        h := TryParseHeader();
        if h.Incomplete? {
          IncompleteIsShort(Rx());
          return Again, h;
        }
      }
      return Delivered, h;
    }

    /** The part of a round that runs while the header is not known; `Delivered` stands for falling through to the body. */
    method FetchHeader() returns (p: Progress)
      requires Valid() && rxTotal == 0
      modifies this`queue, this`rxLen, this`rxTotal, this`rxFixedLen, this`rxType, this`rxFlags, rxBuf
      ensures Sized() && Pending() == old(Pending())
      ensures p.Delivered? <==> DecodeFixedHeader(Pending()).Header?
      ensures p.Stopped? <==> BadHeader(Pending())
      ensures p.Delivered? ==> HeaderKnown() && rxLen == Min(|Pending()|, FIXED_HEADER_MAX)
      ensures p.WouldBlock? || p.Again? ==> Valid() && rxTotal == 0 && queue == []
      ensures |queue| <= |old(queue)|
    {
      hide ReadFrom;
      var h;
      p, h := FillHeader();
      if !h.Incomplete? {
        HeaderStable(Rx(), queue);
        return if h.Header? then Delivered else Stopped;
      }
      assert Pending() == Rx();
    }

    /** Accumulates the body; says whether the packet is complete. */
    method FetchBody() returns (complete: bool)
      requires Sized() && HeaderKnown() && (rxTotal <= RX_CAPACITY || |Pending()| <= RX_CAPACITY)
      modifies this`queue, this`rxLen, rxBuf
      ensures Sized() && HeaderKnown() && Pending() == old(Pending())
      ensures complete <==> rxTotal <= |Pending()|
      ensures if complete then rxLen == (if old(rxLen) > rxTotal then old(rxLen) else rxTotal) else rxLen < rxTotal && queue == []
      ensures |queue| <= |old(queue)|
    {
      if rxLen < rxTotal {
        ghost var before := Rx();
        var got := Fetch(rxTotal - rxLen);
        HeaderStable(before, old(queue)[..got]);
        return got > 0 && rxLen >= rxTotal;
      }
      return true;
    }

    /** The dispatcher took the packet; the parser is reset for the next one. */
    method Deliver(frame: Frame)
      requires Sized() && rxTotal <= rxLen
      modifies this
      ensures Valid() && View() == Wire(old(queue), false, old(delivered) + [frame], old(link),
                                        old(spent) + old(rxTotal), old(dropped) + (old(rxLen) - old(rxTotal)))
      ensures queue == old(queue) && rxLen == 0
    {
      delivered := delivered + [frame];
      spent, dropped := spent + rxTotal, dropped + (rxLen - rxTotal);
      rxLen := 0;
      rxTotal, rxFixedLen, rxType, rxFlags := 0, 0, 0, 0;
      assert Pending() == queue;
    }

    /** The part of a round that runs once the header is known; `known` says that it was known before the round. */
    method FinishPacket(ghost known: bool) returns (p: Progress)
      requires Sized() && HeaderKnown() && link.Open?
      requires if known then rxLen < rxTotal else rxLen == Min(|Pending()|, FIXED_HEADER_MAX)
      modifies this, rxBuf
      ensures Valid() && !p.Again? && (p.Stopped? <==> !link.Open?)
      ensures View() == Round(old(View()).(known := known), accepts)
      ensures link.Open? ==> Drained()
      ensures |queue| <= |old(queue)|
      ensures p.Delivered? <==> |delivered| > |old(delivered)|
      ensures p.WouldBlock? ==> delivered == old(delivered)
    {
      hide DecodeFixedHeader, FirstFrame, Round, ReadFrom;
      ghost var w := View().(known := known);
      HeaderStable(Rx(), queue);
      HeaderFrame(w.pending);
      if rxLen + Min(rxTotal - Min(rxLen, rxTotal), |queue|) > rxBuf.Length {
        // The client has no such test: here it would store behind the buffer.
        OverrunRound(w, rxTotal);
        link := Overrun;
        return Stopped;
      }
      var complete := FetchBody();
      if !complete {
        WaitingRound(w, rxTotal);
        return WouldBlock;
      }
      var frame := Frame(rxType, rxFlags, rxBuf[rxFixedLen..rxTotal]);
      Slices(Rx(), queue, rxFixedLen, rxTotal);
      HeadSlices(rxBuf[..], rxLen, rxFixedLen, rxTotal);
      if !accepts(delivered, frame) {
        RefusedRound(w, frame, rxTotal);
        Fail();
        return Stopped;
      }
      DeliveringRound(w, frame, rxTotal, rxLen);
      Deliver(frame);
      return Delivered;
    }

    /** One round of the `Ingest` loop. */
    method IngestRound() returns (p: Progress)
      requires Valid() && link.Open?
      modifies this, rxBuf
      ensures Valid() && View() == Round(old(View()), accepts)
      ensures (link.Open? ==> Drained()) && |queue| <= |old(queue)|
      ensures p.Stopped? <==> !link.Open?
      ensures p.Delivered? <==> |delivered| > |old(delivered)|
      ensures p.WouldBlock? || p.Again? ==> delivered == old(delivered)
    {
      hide DecodeFixedHeader, FirstFrame;
      if rxTotal == 0 {
        p := FetchHeader();
        if p.Stopped? {
          Fail();
          return;
        }
        if !p.Delivered? {
          return;
        }
        p := FinishPacket(false);
      } else {
        HeaderStable(Rx(), queue);
        p := FinishPacket(true);
      }
    }

    /** `Ingest` */
    method Ingest() returns (p: Progress)
      requires Valid() && link.Open?
      modifies this, rxBuf
      ensures Valid() && View() == Rounds(old(View()), MAX_PACKETS_PER_RUN, accepts)
      ensures p.Stopped? <==> !link.Open?
      ensures (link.Open? ==> Drained()) && |queue| <= |old(queue)|
      ensures BadHeader(old(Pending())) ==> link.Closed? && delivered == old(delivered)
    {
      hide Round;
      ghost var start := View();
      if BadHeader(start.pending) {
        BadHeaderEnds(start, accepts);
      }
      for round := 0 to MAX_PACKETS_PER_RUN
        invariant Valid() && link.Open?
        invariant View() == Rounds(start, round, accepts)
        invariant (round > 0 ==> Drained()) && |queue| <= |old(queue)|
      {
        p := IngestRound();
        assert View() == Rounds(start, round + 1, accepts);
        if p.Stopped? {
          StoppedStays(View(), accepts);
          RoundsSettle(start, round + 1, MAX_PACKETS_PER_RUN, accepts);
          return;
        }
        if p.WouldBlock? {
          RoundSettles(Rounds(start, round, accepts), accepts);
          RoundsSettle(start, round + 1, MAX_PACKETS_PER_RUN, accepts);
          return;
        }
      }
      return Delivered;
    }

    /** A whole connection. */
    method Session(chunks: seq<seq<byte>>)
      requires Valid() && View() == START
      modifies this, rxBuf
      ensures Valid() && View() == Run(chunks, accepts)
      ensures InStep(Concat(chunks), View(), accepts)
    {
      hide Rounds, InStep;
      for i := 0 to |chunks|
        invariant Valid() && View() == Run(chunks[..i], accepts)
      {
        assert chunks[..i + 1][..i] == chunks[..i];
        if link.Open? {
          Arrive(chunks[i]);
          var p := Ingest();
        }
      }
      assert chunks[..|chunks|] == chunks;
      RunInStep(chunks, accepts);
    }

    /** `MqttClient_Run`, as far as it receives: the transport fetches from what the network offers, then `Ingest`. */
    method RunOnce(offered: seq<byte>) returns (got: nat)
      requires Valid() && link.Open? && Drained() && |queue| <= RING_CAPACITY
      modifies this, rxBuf
      ensures Valid() && (link.Open? ==> Drained() && |queue| <= RING_CAPACITY)
      ensures got == Min(|offered|, Min(64, 256 - |old(queue)|)) && Fetchable(old(View()), offered[..got])
      ensures Fetchable(old(View()), offered) ==> got == |offered|
      ensures View() == Receive(old(View()), offered[..got], accepts)
    {
      hide Rounds, Fetchable;
      ghost var before, queued := View(), |queue|;
      got := RunRx(offered);
      RingFits(before, queued, offered);
      RingFits(before, queued, offered[..got]);
      var p := Ingest();
    }

    /** Every feasible way of arriving is one the bounded transport can produce. */
    method FeasibleSession(chunks: seq<seq<byte>>)
      requires Valid() && View() == START && Feasible(chunks, accepts)
      modifies this, rxBuf
      ensures Valid() && View() == Run(chunks, accepts)
    {
      EmptyStart(accepts);
      hide Receive, Fetchable, Feasible;
      for i := 0 to |chunks|
        invariant Valid() && View() == Run(chunks[..i], accepts)
        invariant link.Open? ==> Drained() && |queue| <= RING_CAPACITY
      {
        NextChunk(chunks, i, accepts);
        if link.Open? {
          var got := RunOnce(chunks[i]);
          assert chunks[i][..got] == chunks[i];
        } else {
          ReceivesNothing(View(), chunks[i], accepts);
        }
      }
      assert chunks[..|chunks|] == chunks;
    }

    /** A connection over the bounded transport: the network offers so many bytes of the stream before each run. */
    method Connection(stream: seq<byte>, offers: seq<nat>) returns (fetched: nat, ghost chunks: seq<seq<byte>>)
      requires Valid() && View() == START
      modifies this, rxBuf
      ensures Valid() && View() == Run(chunks, accepts) && |chunks| <= |offers|
      ensures fetched <= |stream| && Concat(chunks) == stream[..fetched] && Feasible(chunks, accepts)
      ensures TakesOffers(chunks, stream, offers, accepts) && (link.Open? ==> |chunks| == |offers|)
    {
      EmptyStart(accepts);
      fetched, chunks := 0, [];
      assert TakesOffers(chunks, stream, offers, accepts);
      assert Concat(chunks) == [] && Run(chunks, accepts) == START;
      hide *;
      for i := 0 to |offers|
        invariant Valid() && View() == Run(chunks, accepts) && |chunks| <= i
        invariant fetched <= |stream| && Concat(chunks) == stream[..fetched] && Feasible(chunks, accepts)
        invariant TakesOffers(chunks, stream, offers, accepts) && (link.Open? ==> |chunks| == i)
        invariant link.Open? ==> Drained() && |queue| <= RING_CAPACITY
      {
        if link.Open? {
          var offered := Offer(stream, fetched, offers[i]);
          var got := RunOnce(offered);
          OneMoreChunk(chunks, offered[..got], accepts);
          OneMoreTaken(chunks, stream, fetched, offers, got, accepts);
          OfferTaken(stream, fetched, offers[i], got);
          chunks := chunks + [offered[..got]];
          fetched := fetched + got;
        }
      }
    }
  }

  lemma ReceivesNothing(w: Wire, chunk: seq<byte>, accepts: Dispatcher)
    requires !w.link.Open?
    ensures Receive(w, chunk, accepts) == w
  {
  }

  /** The next `n` bytes of a stream, as far as there are any. */
  function Offer(stream: seq<byte>, fetched: nat, n: nat): seq<byte>
    requires fetched <= |stream|
  {
    stream[fetched..fetched + Min(n, |stream| - fetched)]
  }

  /** Every arrival is the whole offer of its run, as far as one run can bring it; `offers` says how many bytes each run is offered. */
  ghost predicate TakesOffers(chunks: seq<seq<byte>>, stream: seq<byte>, offers: seq<nat>, accepts: Dispatcher) {
    |chunks| <= |offers| && forall i :: 0 <= i < |chunks| ==> TakesOffer(chunks, i, stream, offers[i], accepts)
  }

  predicate TakesOffer(chunks: seq<seq<byte>>, i: nat, stream: seq<byte>, n: nat, accepts: Dispatcher)
    requires i < |chunks|
  {
    var fetched := |Concat(chunks[..i])|;
    && fetched <= |stream|
    && (Fetchable(Run(chunks[..i], accepts), Offer(stream, fetched, n)) ==> chunks[i] == Offer(stream, fetched, n))
  }

  lemma OneMoreTaken(chunks: seq<seq<byte>>, stream: seq<byte>, fetched: nat, offers: seq<nat>, got: nat, accepts: Dispatcher)
    requires TakesOffers(chunks, stream, offers, accepts) && |chunks| < |offers|
    requires fetched <= |stream| && Concat(chunks) == stream[..fetched]
    requires var offered := Offer(stream, fetched, offers[|chunks|]);
             got <= |offered| && (Fetchable(Run(chunks, accepts), offered) ==> got == |offered|)
    ensures TakesOffers(chunks + [Offer(stream, fetched, offers[|chunks|])[..got]], stream, offers, accepts)
  {
    hide Run, Concat, Offer, Fetchable;
    var offered := Offer(stream, fetched, offers[|chunks|]);
    var longer := chunks + [offered[..got]];
    forall i | 0 <= i < |longer|
      ensures TakesOffer(longer, i, stream, offers[i], accepts)
    {
      if i < |chunks| {
        assert longer[..i] == chunks[..i];
        assert TakesOffer(chunks, i, stream, offers[i], accepts);
      } else {
        assert longer[..i] == chunks;
      }
    }
  }

  lemma OfferTaken(stream: seq<byte>, fetched: nat, n: nat, got: nat)
    requires fetched <= |stream| && got <= |Offer(stream, fetched, n)|
    ensures fetched + got <= |stream|
    ensures stream[..fetched] + Offer(stream, fetched, n)[..got] == stream[..fetched + got]
  {
  }

  /** The next chunk of a feasible cut: the run takes one step, and the chunk can arrive if the connection is still open. */
  lemma NextChunk(chunks: seq<seq<byte>>, i: nat, accepts: Dispatcher)
    requires Feasible(chunks, accepts) && i < |chunks|
    ensures var w := Run(chunks[..i], accepts);
            Run(chunks[..i + 1], accepts) == Receive(w, chunks[i], accepts) && (w.link.Open? ==> Fetchable(w, chunks[i]))
  {
    hide Receive, Fetchable;
    FeasiblePrefix(chunks, i + 1, accepts);
    assert chunks[..i + 1] == chunks[..i] + [chunks[i]];
    OneMoreChunk(chunks[..i], chunks[i], accepts);
  }

  lemma {:induction false} FeasiblePrefix(chunks: seq<seq<byte>>, i: nat, accepts: Dispatcher)
    requires Feasible(chunks, accepts) && i <= |chunks|
    ensures Feasible(chunks[..i], accepts)
  {
    if i == |chunks| {
      assert chunks[..i] == chunks;
    } else {
      var front := chunks[..|chunks| - 1];
      FeasiblePrefix(front, i, accepts);
      assert front[..i] == chunks[..i];
    }
  }

  /** What fits the ring may arrive, as the specification counts it, and nothing else may. */
  lemma RingFits(w: Wire, queued: nat, chunk: seq<byte>)
    requires if w.known then queued == 0 else queued == |w.pending| || (queued == 0 && |w.pending| < FIXED_HEADER_MAX)
    ensures Fetchable(w, chunk) <==> |chunk| <= MAX_FETCH && queued + |chunk| <= RING_CAPACITY
  {
  }

  lemma Slices(a: seq<byte>, b: seq<byte>, i: nat, j: nat)
    requires i <= j <= |a|
    ensures (a + b)[i..j] == a[i..j] && (a + b)[|a|..] == b
  {
  }

  lemma HeadSlices(a: seq<byte>, n: nat, i: nat, j: nat)
    requires i <= j <= n <= |a|
    ensures a[..n][i..j] == a[i..j]
  {
  }

  // ---- The cases of a round whose header is decoded ---------------------------------------------

  lemma OverrunRound(w: Wire, total: nat)
    requires w.link.Open? && DecodeFixedHeader(w.pending).Header? && FrameLength(w.pending) == total
    requires total > RX_CAPACITY && |w.pending| > RX_CAPACITY
    ensures forall accepts :: Round(w, accepts) == w.(known := true, link := Overrun)
  {
  }

  lemma WaitingRound(w: Wire, total: nat)
    requires w.link.Open? && DecodeFixedHeader(w.pending).Header? && FrameLength(w.pending) == total
    requires |w.pending| < total && (total <= RX_CAPACITY || |w.pending| <= RX_CAPACITY)
    ensures forall accepts :: Round(w, accepts) == w.(known := true)
  {
  }

  lemma RefusedRound(w: Wire, frame: Frame, total: nat)
    requires w.link.Open? && FirstFrame(w.pending) == Some((frame, total)) && total <= RX_CAPACITY
    ensures forall accepts: Dispatcher :: !accepts(w.delivered, frame) ==>
              Round(w, accepts) == w.(pending := [], known := false, link := Closed)
  {
  }

  lemma DeliveringRound(w: Wire, frame: Frame, total: nat, taken: nat)
    requires w.link.Open? && FirstFrame(w.pending) == Some((frame, total)) && total <= RX_CAPACITY
    requires taken == Taken(w.pending, w.known)
    ensures total <= taken <= |w.pending|
    ensures forall accepts: Dispatcher :: accepts(w.delivered, frame) ==>
              Round(w, accepts) == Wire(w.pending[taken..], false, w.delivered + [frame], Open, w.spent + total, w.dropped + (taken - total))
  {
    NothingLostExactly(w.pending, w.known);
  }

  lemma StoppedStays(w: Wire, accepts: Dispatcher)
    requires !w.link.Open?
    ensures Round(w, accepts) == w
  {
  }

  // ---- Concrete streams ------------------------------------------------------------------------------

  /** The broker's answer to CONNECT, and, after a publish and a ping, PUBACK and PINGRESP. */
  const CONNACK: seq<byte> := [0x20, 2, 0, 0]
  const TWO_REPLIES: seq<byte> := [0x40, 2, 0, 1, 0xD0, 0]

  const CONNECTED := Frame(2, 0, [0, 0])
  const PUBLISHED := Frame(4, 0, [0, 1])

  lemma ShortFrame(typeFlags: byte, body: seq<byte>, rest: seq<byte>)
    requires 16 <= typeFlags < 240 && |body| < 128
    ensures FirstFrame([typeFlags, |body|] + body + rest) == Some((Frame(typeFlags / 16, typeFlags % 16, body), 2 + |body|))
  {
    WrittenHeader(typeFlags, |body|, body + rest);
    assert (body + rest)[..|body|] == body;
    assert [typeFlags, |body|] + body + rest == [typeFlags] + [|body|] + (body + rest);
    assert VarIntBytes(|body|) == [|body|];
  }

  lemma ReplyFrames()
    ensures FirstFrame(CONNACK) == Some((CONNECTED, 4))
    ensures FirstFrame(TWO_REPLIES) == Some((PUBLISHED, 4))
    ensures TWO_REPLIES[4..] == [0xD0, 0] && FirstFrame([0xD0, 0]) == Some((Frame(13, 0, []), 2))
    ensures TWO_REPLIES[5..] == [0]
  {
    ShortFrame(0x20, [0, 0], []);
    assert [0x20, 2] + [0, 0] + [] == CONNACK;
    ShortFrame(0x40, [0, 1], [0xD0, 0]);
    assert [0x40, 2] + [0, 1] + [0xD0, 0] == TWO_REPLIES;
    ShortFrame(0xD0, [], []);
    assert [0xD0, 0] + [] + [] == [0xD0, 0];
  }

  /** One round delivers CONNACK; nothing is left to do. */
  lemma ConnackArrives(accepts: Dispatcher)
    requires accepts([], CONNECTED)
    ensures Run([CONNACK], accepts) == Wire([], false, [CONNECTED], Open, 4, 0) && Feasible([CONNACK], accepts)
  {
    hide FirstFrame;
    ReplyFrames();
    var start := START.(pending := CONNACK);
    assert START.pending + CONNACK == CONNACK;
    DeliveringRound(start, CONNECTED, 4, 4);
    NothingPending(Wire([], false, [CONNECTED], Open, 4, 0), accepts);
    RoundsFromOne(start, accepts);
    assert [] + [CONNACK] == [CONNACK];
    OneMoreChunk([], CONNACK, accepts);
  }

  lemma NothingPending(w: Wire, accepts: Dispatcher)
    requires w.pending == []
    ensures Settled(w, accepts)
  {
  }

  /**
   After CONNACK the two replies arrive together. The second loses its first byte, and what is left
   of it closes the connection: a byte no broker would send there.
   */
  lemma ShortFrameLost(accepts: Dispatcher)
    requires accepts([], CONNECTED) && accepts([CONNECTED], PUBLISHED)
    ensures Feasible([CONNACK, TWO_REPLIES], accepts)
    ensures Run([CONNACK, TWO_REPLIES], accepts) == Wire([], false, [CONNECTED, PUBLISHED], Closed, 8, 1)
  {
    hide FirstFrame;
    ReplyFrames();
    ConnackArrives(accepts);
    var w := Wire([], false, [CONNECTED], Open, 4, 0);
    var start := w.(pending := TWO_REPLIES);
    assert w.pending + TWO_REPLIES == TWO_REPLIES;
    DeliveringRound(start, PUBLISHED, 4, 5);
    var second := Wire([0], false, [CONNECTED, PUBLISHED], Open, 8, 1);
    assert Rounds(start, 0, accepts) == start;
    assert Rounds(start, 1, accepts) == second;
    LoneZero();
    assert Rounds(start, 2, accepts) == second.(pending := [], link := Closed);
    RoundsSettle(start, 2, MAX_PACKETS_PER_RUN, accepts);
    assert [CONNACK] + [TWO_REPLIES] == [CONNACK, TWO_REPLIES];
    OneMoreChunk([CONNACK], TWO_REPLIES, accepts);
  }

  lemma LoneZero()
    ensures BadHeader([0])
  {
    assert [0][0] / 16 == 0;
  }

  /** The parser itself, fed that stream. */
  method RepliesTogether(accepts: Dispatcher) returns (count: nat, closed: bool)
    requires accepts([], CONNECTED) && accepts([CONNECTED], PUBLISHED)
    ensures count == 2 && closed
  {
    var parser := new Parser(accepts);
    parser.Session([CONNACK, TWO_REPLIES]);
    ShortFrameLost(accepts);
    count, closed := |parser.delivered|, parser.link.Closed?;
  }

  /** A SUBACK whose Remaining Length is written in four bytes. */
  function LongSuback(body: seq<byte>): seq<byte> {
    [0x90, 0x80, 0x92, 0x80, 0] + body
  }

  /**
   The largest body the header check lets pass is five bytes too long for the buffer together with
   this header, in whatever pieces it arrives; byte by byte is one of them.
   */
  lemma LongSubackOverruns(body: seq<byte>, accepts: Dispatcher)
    requires |body| == MAX_PACKET
    ensures FirstFrame(LongSuback(body)) == Some((Frame(9, 0, body), RX_CAPACITY + 5))
    ensures forall chunks :: Concat(chunks) == LongSuback(body) ==> Run(chunks, accepts).link.Overrun?
    ensures Feasible(Bytewise(LongSuback(body)), accepts) && Concat(Bytewise(LongSuback(body))) == LongSuback(body)
  {
    var s := LongSuback(body);
    LongHeader(s);
    assert s[5..2309] == body;
    assert TooLong(s);
    BytewiseLosesNothing(s, accepts);
    forall chunks | Concat(chunks) == s
      ensures Run(chunks, accepts).link.Overrun?
    {
      assert Concat(chunks) + [] == s;
      FirstFrameOverruns(chunks, [], accepts);
    }
  }

  lemma LongHeader(s: seq<byte>)
    requires |s| >= 5 && s[..5] == [0x90, 0x80, 0x92, 0x80, 0]
    ensures DecodeFixedHeader(s) == Header(9, 0, 2304, 5)
  {
    assert s[0] == s[..5][0] && s[1] == s[..5][1] && s[2] == s[..5][2] && s[3] == s[..5][3] && s[4] == s[..5][4];
    var t := s[1..];
    assert ReadFrom(t, 3, 128 * 128 * 128, 2304) == Value(2304, 4);
    assert ReadFrom(t, 2, 128 * 128, 2304) == ReadFrom(t, 3, 128 * 128 * 128, 2304);
    assert ReadFrom(t, 1, 128, 0) == ReadFrom(t, 2, 128 * 128, 2304);
    assert ReadFrom(t, 0, 1, 0) == ReadFrom(t, 1, 128, 0);
  }
}
