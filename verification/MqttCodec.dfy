/**
 The MQTT 3.1.1 framing of the codec: the variable-length Remaining Length, the fixed
 header, and the PUBLISH and SUBSCRIBE encoders. Topic validation is a parameter.
 */
module MqttCodec {
  import opened Options

  type byte = n: int | 0 <= n < 256

  const MAX_PACKET: nat := 2304
  const MAX_TOPIC: nat := 64
  const MAX_PAYLOAD: nat := 2048
  const MAX_VARINT: nat := 268435455

  // ---- Remaining Length ---------------------------------------------------------------

  datatype VarInt = Value(value: nat, consumed: nat) | NeedMore | BadVarInt

  /** The bytes after `i` already read ones that summed to `sum`; at most four bytes are allowed. */
  function ReadFrom(s: seq<byte>, i: nat, multiplier: nat, sum: nat): (r: VarInt)
    requires i <= 4
    ensures r.Value? ==> i < r.consumed <= 4 && r.consumed <= |s|
    decreases 4 - i
  {
    if i == 4 then BadVarInt
    else if i >= |s| then NeedMore
    else
      var total := sum + s[i] % 128 * multiplier;
      if s[i] < 128 then Value(total, i + 1) else ReadFrom(s, i + 1, multiplier * 128, total)
  }

  /** `MqttCodec_ReadVarInt` */
  method ReadVarInt(s: seq<byte>) returns (r: VarInt)
    ensures r == ReadFrom(s, 0, 1, 0)
  {
    var multiplier: nat, rl: nat := 1, 0;
    for i := 0 to 4
      invariant ReadFrom(s, 0, 1, 0) == ReadFrom(s, i, multiplier, rl)
    {
      if i >= |s| {
        return NeedMore;
      }
      var b: nat := s[i];
      rl := rl + b % 128 * multiplier;
      if b < 128 {
        return Value(rl, i + 1);
      }
      multiplier := multiplier * 128;
      if i == 3 {
        return BadVarInt;
      }
    }
    return BadVarInt;
  }

  /** The lowest digit of `v`, marked as followed by more. */
  function Continued(v: int): (b: byte) {
    var digit: int := v % 128;
    digit + 128
  }

  /** The digits of `v` in base 128, least significant first, all but the last marked as continued. */
  function VarIntBytes(v: nat): (s: seq<byte>)
    ensures |s| >= 1
  {
    if v < 128 then [v] else [Continued(v)] + VarIntBytes(v / 128)
  }

  /** `MqttCodec_WriteVarInt`; an empty result stands for the return value 0. */
  method WriteVarInt(cap: nat, value: nat) returns (s: seq<byte>)
    ensures s == if value <= MAX_VARINT && |VarIntBytes(value)| <= cap then VarIntBytes(value) else []
  {
    if value > MAX_VARINT || cap == 0 {
      return [];
    }
    var v: nat := value;
    s := [];
    while true
      invariant |s| < cap
      invariant s + VarIntBytes(v) == VarIntBytes(value)
      decreases v
    {
      var b: int := v % 128;
      var more := v / 128 > 0;
      if more {
        b := b + 128;
      }
      s := s + [b];
      v := v / 128;
      if !more {
        return;
      }
      assert s + VarIntBytes(v) == VarIntBytes(value);
      if |s| >= cap {
        return [];
      }
    }
  }

  lemma {:induction false} VarIntLength(v: nat, digits: nat)
    requires 1 <= digits <= 4
    ensures |VarIntBytes(v)| <= digits <==> v < (if digits == 1 then 128 else if digits == 2 then 16384 else if digits == 3 then 2097152 else 268435456)
  {
    if digits > 1 && v >= 128 {
      VarIntLength(v / 128, digits - 1);
    }
  }

  lemma DigitSum(v: nat, m: nat)
    ensures v % 128 * m + v / 128 * (m * 128) == v * m
  {
    var q, r := v / 128, v % 128;
    assert v == 128 * q + r;
    Distribute(q, r, m);
  }

  lemma Distribute(q: nat, r: nat, m: nat)
    ensures r * m + q * (m * 128) == (128 * q + r) * m
  {
  }

  lemma {:induction false} ReadBack(s: seq<byte>, v: nat, rest: seq<byte>, i: nat, m: nat, sum: nat)
    requires i + |VarIntBytes(v)| <= 4 && i <= |s| && s[i..] == VarIntBytes(v) + rest
    ensures ReadFrom(s, i, m, sum) == Value(sum + v * m, i + |VarIntBytes(v)|)
    decreases v
  {
    assert s[i] == s[i..][0] == VarIntBytes(v)[0];
    if v >= 128 {
      assert s[i + 1..] == s[i..][1..] == VarIntBytes(v / 128) + rest;
      ContinuedDigit(v);
      var next := sum + v % 128 * m;
      ReadBack(s, v / 128, rest, i + 1, m * 128, next);
      DigitSum(v, m);
      assert ReadFrom(s, i, m, sum) == ReadFrom(s, i + 1, m * 128, next);
    }
  }

  lemma ContinuedDigit(v: nat)
    ensures Continued(v) >= 128 && Continued(v) % 128 == v % 128
  {
  }

  /** Reading undoes writing, whatever follows on the stream, for exactly the lengths that can be written. */
  lemma VarIntRoundTrip(v: nat, rest: seq<byte>)
    ensures ReadFrom(VarIntBytes(v) + rest, 0, 1, 0) == Value(v, |VarIntBytes(v)|) <==> v <= MAX_VARINT
  {
    VarIntLength(v, 4);
    if v <= MAX_VARINT {
      ReadBack(VarIntBytes(v) + rest, v, rest, 0, 1, 0);
    }
  }

  // ---- Fixed header and frames ------------------------------------------------------------

  datatype Header = Header(packetType: nat, flags: nat, remaining: nat, fixedLen: nat) | Incomplete | Malformed | TooLarge

  /** `MqttCodec_DecodeFixedHeader` */
  function DecodeFixedHeader(s: seq<byte>): (h: Header)
    ensures h.Header? ==> 2 <= h.fixedLen <= 5 && h.fixedLen <= |s| && h.remaining <= 2304 && 1 <= h.packetType <= 14 && h.flags < 16
  {
    if s == [] then Incomplete
    else if s[0] / 16 < 1 || s[0] / 16 > 14 then Malformed
    else
      match ReadFrom(s[1..], 0, 1, 0)
      case NeedMore => Incomplete
      case BadVarInt => Malformed
      case Value(rl, consumed) =>
        if rl > MAX_PACKET then TooLarge else Header(s[0] / 16, s[0] % 16, rl, 1 + consumed)
  }

  /** Four bytes that each announce another one. */
  predicate FourContinued(s: seq<byte>) {
    |s| >= 4 && s[0] >= 128 && s[1] >= 128 && s[2] >= 128 && s[3] >= 128
  }

  /** The seven bits of a byte that count. */
  function SevenBits(b: byte): nat {
    var n: nat := b;
    if n < 128 then n else n - 128
  }

  /** What the bytes of a Remaining Length denote: seven bits each, the lowest first. */
  lemma VarIntOnBytes(s: seq<byte>)
    ensures ReadFrom(s, 0, 1, 0)
         == if s == [] then NeedMore
            else if s[0] < 128 then Value(SevenBits(s[0]), 1)
            else if |s| == 1 then NeedMore
            else if s[1] < 128 then Value(SevenBits(s[0]) + 128 * SevenBits(s[1]), 2)
            else if |s| == 2 then NeedMore
            else if s[2] < 128 then Value(SevenBits(s[0]) + 128 * SevenBits(s[1]) + 16384 * SevenBits(s[2]), 3)
            else if |s| == 3 then NeedMore
            else if s[3] < 128 then
              Value(SevenBits(s[0]) + 128 * SevenBits(s[1]) + 16384 * SevenBits(s[2]) + 2097152 * SevenBits(s[3]), 4)
            else BadVarInt
  {
    hide SevenBits, ReadFrom;
    NoFifthByte(s);
    OneByte(s, 0, 1, 0);
    if s != [] && s[0] >= 128 {
      var one := SevenBits(s[0]);
      OneByte(s, 1, 128, one);
      if |s| > 1 && s[1] >= 128 {
        var two := one + 128 * SevenBits(s[1]);
        OneByte(s, 2, 16384, two);
        if |s| > 2 && s[2] >= 128 {
          OneByte(s, 3, 2097152, two + 16384 * SevenBits(s[2]));
        }
      }
    }
  }

  lemma OneByte(s: seq<byte>, i: nat, m: nat, sum: nat)
    requires i < 4
    ensures ReadFrom(s, i, m, sum)
         == if i >= |s| then NeedMore
            else if s[i] < 128 then Value(sum + SevenBits(s[i]) * m, i + 1)
            else ReadFrom(s, i + 1, m * 128, sum + SevenBits(s[i]) * m)
  {
    if i < |s| {
      LowBits(s[i]);
      assert s[i] % 128 * m == SevenBits(s[i]) * m;
    }
  }

  lemma NoFifthByte(s: seq<byte>)
    ensures forall m: nat, sum: nat :: ReadFrom(s, 4, m, sum) == BadVarInt
  {
  }

  lemma LowBits(b: byte)
    ensures b % 128 == SevenBits(b)
  {
  }

  /** Headers are malformed exactly for the two reserved types and for a Remaining Length of more than four bytes. */
  lemma MalformedHeaders(s: seq<byte>)
    ensures DecodeFixedHeader(s).Malformed? <==> s != [] && (s[0] < 16 || s[0] >= 240 || FourContinued(s[1..]))
  {
    if s != [] {
      VarIntOnBytes(s[1..]);
    }
  }

  /** A packet is too large exactly when it announces more than 2304 bytes. */
  lemma OversizedHeaders(typeFlags: byte, rl: nat, rest: seq<byte>)
    requires 16 <= typeFlags < 240 && rl <= 268435455
    ensures DecodeFixedHeader([typeFlags] + VarIntBytes(rl) + rest)
         == if rl > 2304 then TooLarge else Header(typeFlags / 16, typeFlags % 16, rl, 1 + |VarIntBytes(rl)|)
  {
    var s := [typeFlags] + VarIntBytes(rl) + rest;
    assert s[1..] == VarIntBytes(rl) + rest;
    VarIntRoundTrip(rl, rest);
  }

  datatype Frame = Frame(packetType: nat, flags: nat, body: seq<byte>)

  /** The length of the frame that starts a stream, once its header is complete. */
  function FrameLength(s: seq<byte>): nat
    requires DecodeFixedHeader(s).Header?
  {
    DecodeFixedHeader(s).fixedLen + DecodeFixedHeader(s).remaining
  }

  /** The first complete frame of a stream and its length. */
  function FirstFrame(s: seq<byte>): (r: Option<(Frame, nat)>)
    ensures r.Some? ==> 2 <= r.value.1 <= |s|
  {
    var h := DecodeFixedHeader(s);
    if h.Header? && FrameLength(s) <= |s| then
      Some((Frame(h.packetType, h.flags, s[h.fixedLen..FrameLength(s)]), FrameLength(s)))
    else None
  }

  /** A header written by `write_fixed` frames exactly the announced number of bytes after it. */
  lemma WrittenHeader(typeFlags: byte, rl: nat, tail: seq<byte>)
    requires 16 <= typeFlags < 240 && rl <= MAX_PACKET && rl <= |tail|
    ensures FirstFrame([typeFlags] + VarIntBytes(rl) + tail)
         == Some((Frame(typeFlags / 16, typeFlags % 16, tail[..rl]), 1 + |VarIntBytes(rl)| + rl))
  {
    var s := [typeFlags] + VarIntBytes(rl) + tail;
    assert s[1..] == VarIntBytes(rl) + tail;
    VarIntRoundTrip(rl, tail);
    var n := 1 + |VarIntBytes(rl)|;
    assert s[n..n + rl] == tail[..rl];
  }

  // ---- PUBLISH ---------------------------------------------------------------------------------

  function Be16(v: nat): (s: seq<byte>)
    requires v < 65536
    ensures |s| == 2
  {
    [v / 256, v % 256]
  }

  function ReadBe16(s: seq<byte>): nat
    requires |s| >= 2
  {
    var high: nat, low: nat := s[0], s[1];
    high * 256 + low
  }

  /** The body of a PUBLISH; only QoS 1 carries a packet identifier. */
  function PublishBody(topic: seq<byte>, payload: seq<byte>, qos: nat, id: nat): seq<byte>
    requires |topic| < 65536 && id < 65536
  {
    Be16(|topic|) + (topic + ((if qos > 0 then Be16(id) else []) + payload))
  }

  /** `MqttCodec_EncodePublish`; `valid` is the topic-name check. */
  function EncodePublish(cap: nat, topic: seq<byte>, payload: seq<byte>, qos: nat, retain: bool, id: nat,
                         valid: seq<byte> -> bool): Option<seq<byte>>
    requires id < 65536
  {
    if topic == [] || |topic| > MAX_TOPIC || qos > 1 || |payload| > MAX_PAYLOAD || !valid(topic) then None
    else
      var rl := 2 + |topic| + (if qos > 0 then 2 else 0) + |payload|;
      var flags := qos * 2 + if retain then 1 else 0;
      var off := 1 + |VarIntBytes(rl)|;
      if off + rl > cap then None
      else Some([3 * 16 + flags] + VarIntBytes(rl) + PublishBody(topic, payload, qos, id))
  }

  datatype Published = Published(topic: seq<byte>, payload: seq<byte>, id: nat)

  /** `MqttCodec_DecodePublish` */
  function DecodePublish(qos: nat, body: seq<byte>, valid: seq<byte> -> bool): Option<Published> {
    if |body| < 2 then None
    else
      var n := ReadBe16(body);
      if n == 0 || n > MAX_TOPIC || |body| < n + 2 || !valid(body[2..2 + n]) then None
      else
        var pos := 2 + n;
        if qos == 0 then
          if |body| - pos > MAX_PAYLOAD then None else Some(Published(body[2..pos], body[pos..], 0))
        else if |body| < pos + 2 || ReadBe16(body[pos..]) == 0 || |body| - pos - 2 > MAX_PAYLOAD then None
        else Some(Published(body[2..pos], body[pos + 2..], ReadBe16(body[pos..])))
  }

  lemma PublishBodyDecodes(topic: seq<byte>, payload: seq<byte>, qos: nat, id: nat, valid: seq<byte> -> bool)
    requires 1 <= |topic| <= MAX_TOPIC && |payload| <= MAX_PAYLOAD && valid(topic) && id < 65536
    ensures DecodePublish(qos, PublishBody(topic, payload, qos, id), valid)
         == if qos == 0 then Some(Published(topic, payload, 0)) else if id == 0 then None else Some(Published(topic, payload, id))
  {
    var body, pos := PublishBody(topic, payload, qos, id), 2 + |topic|;
    var tail := (if qos > 0 then Be16(id) else []) + payload;
    BodyParts(Be16(|topic|), topic, tail);
    if qos == 0 {
      assert tail == payload;
    } else {
      assert body[pos..] == Be16(id) + payload;
      assert body[pos + 2..] == tail[2..] == payload;
    }
  }

  lemma BodyParts(size: seq<byte>, topic: seq<byte>, tail: seq<byte>)
    requires |size| == 2
    ensures var body := size + (topic + tail);
            body[..2] == size && body[2..2 + |topic|] == topic && body[2 + |topic|..] == tail
  {
    var body := size + (topic + tail);
    assert body[2..] == topic + tail;
    assert body[2..2 + |topic|] == body[2..][..|topic|];
    assert body[2 + |topic|..] == body[2..][|topic|..];
  }

  /** A PUBLISH as section 3.3 of MQTT 3.1.1 lays it out. */
  function PublishPacket(topic: seq<byte>, payload: seq<byte>, qos: nat, retain: bool, id: nat): seq<byte>
    requires |topic| < 65536 && qos <= 1 && id < 65536
  {
    var first: int := 48 + 2 * qos + if retain then 1 else 0;
    var identifier: seq<byte> := if qos == 0 then [] else [id / 256, id % 256];
    [first] + VarIntBytes(2 + |topic| + 2 * qos + |payload|) + ([|topic| / 256, |topic| % 256] + topic + identifier + payload)
  }

  /** A PUBLISH is encoded as that exactly when its parts are within the limits and it fits the caller's buffer. */
  lemma EncodePublishExactly(cap: nat, topic: seq<byte>, payload: seq<byte>, qos: nat, retain: bool, id: nat,
                             valid: seq<byte> -> bool)
    requires id < 65536
    ensures EncodePublish(cap, topic, payload, qos, retain, id, valid).Some? <==>
              && 1 <= |topic| <= 64 && qos <= 1 && |payload| <= 2048 && valid(topic)
              && |PublishPacket(topic, payload, qos, retain, id)| <= cap
    ensures EncodePublish(cap, topic, payload, qos, retain, id, valid).Some? ==>
              EncodePublish(cap, topic, payload, qos, retain, id, valid).value == PublishPacket(topic, payload, qos, retain, id)
  {
    if 1 <= |topic| <= 64 && qos <= 1 {
      SameBody(topic, payload, qos, id);
    }
  }

  lemma SameBody(topic: seq<byte>, payload: seq<byte>, qos: nat, id: nat)
    requires |topic| < 65536 && qos <= 1 && id < 65536
    ensures var identifier: seq<byte> := if qos == 0 then [] else [id / 256, id % 256];
            PublishBody(topic, payload, qos, id) == [|topic| / 256, |topic| % 256] + topic + identifier + payload
  {
  }

  /** A body decodes exactly when it is the body of a PUBLISH within the limits, and to just that. */
  lemma DecodePublishExactly(qos: nat, body: seq<byte>, valid: seq<byte> -> bool, p: Published)
    ensures DecodePublish(qos, body, valid) == Some(p) <==>
              && 1 <= |p.topic| <= 64 && valid(p.topic) && |p.payload| <= 2048
              && (if qos == 0 then p.id == 0 else 1 <= p.id <= 65535)
              && body == PublishBody(p.topic, p.payload, qos, p.id)
  {
    hide DecodePublish, PublishBody;
    if 1 <= |p.topic| <= 64 && valid(p.topic) && |p.payload| <= 2048 && p.id < 65536 {
      PublishBodyDecodes(p.topic, p.payload, qos, p.id, valid);
    }
    if DecodePublish(qos, body, valid) == Some(p) {
      DecodedParts(qos, body, valid);
    }
  }

  lemma DecodedParts(qos: nat, body: seq<byte>, valid: seq<byte> -> bool)
    requires DecodePublish(qos, body, valid).Some?
    ensures var p := DecodePublish(qos, body, valid).value;
            && 1 <= |p.topic| <= 64 && valid(p.topic) && |p.payload| <= 2048
            && (if qos == 0 then p.id == 0 else 1 <= p.id <= 65535)
            && body == PublishBody(p.topic, p.payload, qos, p.id)
  {
    hide Be16, ReadBe16, PublishBody;
    DecodedFields(qos, body, valid);
    hide DecodePublish;
    var n := ReadBe16(body);
    Be16Read(body);
    if qos == 0 {
      PlainBody(body, n);
    } else {
      Be16Read(body[2 + n..]);
      TaggedBody(body, n, qos, ReadBe16(body[2 + n..]));
    }
  }

  lemma PlainBody(body: seq<byte>, n: nat)
    requires 2 + n <= |body| && n < 65536 && Be16(n) == body[..2]
    ensures body == PublishBody(body[2..2 + n], body[2 + n..], 0, 0)
  {
    hide Be16;
    var topic, payload := body[2..2 + n], body[2 + n..];
    assert |topic| == n;
    assert [] + payload == payload;
    CutInThree(body, n);
  }

  lemma TaggedBody(body: seq<byte>, n: nat, qos: nat, id: nat)
    requires qos > 0 && 2 + n + 2 <= |body| && n < 65536 && id < 65536
    requires Be16(n) == body[..2] && Be16(id) == body[2 + n..][..2]
    ensures body == PublishBody(body[2..2 + n], body[2 + n + 2..], qos, id)
  {
    hide Be16;
    var topic := body[2..2 + n];
    assert |topic| == n;
    CutInThree(body, n);
    CutInTwo(body, 2 + n);
  }

  lemma DecodedFields(qos: nat, body: seq<byte>, valid: seq<byte> -> bool)
    requires DecodePublish(qos, body, valid).Some?
    ensures var p := DecodePublish(qos, body, valid).value;
            && |body| >= 2
            && var n := ReadBe16(body);
            && 1 <= n <= 64 && 2 + n <= |body| && p.topic == body[2..2 + n] && valid(p.topic) && |p.payload| <= 2048
            && (qos == 0 ==> p.id == 0 && p.payload == body[2 + n..])
            && (qos > 0 ==> 4 + n <= |body| && 0 < p.id == ReadBe16(body[2 + n..]) && p.payload == body[2 + n + 2..])
  {
    hide ReadBe16;
  }

  lemma CutInThree(body: seq<byte>, n: nat)
    requires 2 + n <= |body|
    ensures body == body[..2] + (body[2..2 + n] + body[2 + n..])
  {
  }

  lemma CutInTwo(body: seq<byte>, k: nat)
    requires k + 2 <= |body|
    ensures body[k..] == body[k..][..2] + body[k + 2..]
  {
  }

  lemma Be16Read(s: seq<byte>)
    requires |s| >= 2
    ensures ReadBe16(s) < 65536 && Be16(ReadBe16(s)) == s[..2]
  {
    var high: nat, low: nat := s[0], s[1];
    assert (high * 256 + low) / 256 == high && (high * 256 + low) % 256 == low;
  }

  /** An encoded PUBLISH is one frame of the stream, and decodes to what was encoded unless QoS 1 was given identifier 0. */
  lemma PublishRoundTrip(cap: nat, topic: seq<byte>, payload: seq<byte>, qos: nat, retain: bool, id: nat,
                         valid: seq<byte> -> bool, rest: seq<byte>)
    requires id < 65536 && EncodePublish(cap, topic, payload, qos, retain, id, valid).Some?
    ensures var e := EncodePublish(cap, topic, payload, qos, retain, id, valid).value;
            var f := FirstFrame(e + rest);
            && |e| <= cap && f.Some? && f.value.1 == |e|
            && f.value.0.packetType == 3 && f.value.0.flags == qos * 2 + (if retain then 1 else 0)
            && (DecodePublish(qos, f.value.0.body, valid) == Some(Published(topic, payload, if qos == 0 then 0 else id))
                <==> qos == 0 || id != 0)
  {
    var body := PublishBody(topic, payload, qos, id);
    var e := EncodePublish(cap, topic, payload, qos, retain, id, valid).value;
    var rl := |body|;
    assert e + rest == [e[0]] + VarIntBytes(rl) + (body + rest);
    WrittenHeader(e[0], rl, body + rest);
    assert (body + rest)[..rl] == body;
    PublishBodyDecodes(topic, payload, qos, id, valid);
  }

  /** The refused case in concrete bytes: topic "t", empty payload, QoS 1, identifier 0. */
  lemma IdentifierZeroRefused(valid: seq<byte> -> bool)
    requires valid([0x74])
    ensures EncodePublish(7, [0x74], [], 1, false, 0, valid) == Some([0x32, 5, 0, 1, 0x74, 0, 0])
    ensures DecodePublish(1, [0, 1, 0x74, 0, 0], valid) == None
  {
    var topic: seq<byte>, five: seq<byte> := [0x74], [5];
    assert VarIntBytes(5) == five;
    var body := PublishBody(topic, [], 1, 0);
    assert body == [0, 1, 0x74, 0, 0];
    assert [3 * 16 + 2] + five + body == [0x32, 5, 0, 1, 0x74, 0, 0];
    PublishBodyDecodes(topic, [], 1, 0, valid);
  }

  // ---- SUBSCRIBE -------------------------------------------------------------------------------

  /** `MqttCodec_EncodeSubscribe`: the Remaining Length leaves out the two bytes of the topic length. */
  function EncodeSubscribe(cap: nat, topic: seq<byte>, qos: nat, id: nat, valid: seq<byte> -> bool): Option<seq<byte>>
    requires id < 65536
  {
    if topic == [] || |topic| > MAX_TOPIC || qos > 1 || id == 0 || !valid(topic) then None
    else
      var rl := 2 + |topic| + 1;
      var off := 1 + |VarIntBytes(rl)|;
      if off + rl > cap then None
      else Some([8 * 16 + 2] + VarIntBytes(rl) + (Be16(id) + Be16(|topic|) + topic + [qos]))
  }

  /** When a SUBSCRIBE is encoded, and its bytes: the second one, the Remaining Length, counts two too few. */
  lemma EncodeSubscribeExactly(cap: nat, topic: seq<byte>, qos: nat, id: nat, valid: seq<byte> -> bool)
    requires id < 65536
    ensures EncodeSubscribe(cap, topic, qos, id, valid).Some? <==>
              1 <= |topic| <= 64 && qos <= 1 && id > 0 && valid(topic) && 5 + |topic| <= cap
    ensures EncodeSubscribe(cap, topic, qos, id, valid).Some? ==>
              EncodeSubscribe(cap, topic, qos, id, valid).value
              == [0x82, 3 + |topic|, id / 256, id % 256, 0, |topic|] + topic + [qos]
  {
    if 1 <= |topic| <= 64 && qos <= 1 {
      var n := 3 + |topic|;
      assert VarIntBytes(n) == [n];
      assert Be16(|topic|) == [0, |topic|] && Be16(id) == [id / 256, id % 256];
      assert [0x82] + [n] + ([id / 256, id % 256] + [0, |topic|] + topic + [qos])
          == [0x82, n, id / 256, id % 256, 0, |topic|] + topic + [qos];
    }
  }

  /**
   Every encoded SUBSCRIBE is two bytes longer than its header says: the receiver takes its end for
   another packet. The capacity check misses the same two bytes, so the packet is inside the
   caller's buffer exactly when there is room for two more than the check asks for.
   */
  lemma SubscribeLengthIsShort(cap: nat, topic: seq<byte>, qos: nat, id: nat, valid: seq<byte> -> bool, rest: seq<byte>)
    requires id < 65536 && EncodeSubscribe(cap, topic, qos, id, valid).Some?
    ensures var e := EncodeSubscribe(cap, topic, qos, id, valid).value;
            var f := FirstFrame(e + rest);
            && f.Some? && f.value.1 + 2 == |e|
            && (|e| <= cap <==> cap >= 1 + |VarIntBytes(3 + |topic|)| + (3 + |topic|) + 2)
            && f.value.0.body + [topic[|topic| - 1], qos] == Be16(id) + Be16(|topic|) + topic + [qos]
  {
    var rl := 2 + |topic| + 1;
    var tail := Be16(id) + Be16(|topic|) + topic + [qos];
    var e := EncodeSubscribe(cap, topic, qos, id, valid).value;
    assert e + rest == [8 * 16 + 2] + VarIntBytes(rl) + (tail + rest);
    WrittenHeader(8 * 16 + 2, rl, tail + rest);
    assert (tail + rest)[..rl] == tail[..rl];
    assert tail[..rl] + [topic[|topic| - 1], qos] == tail;
  }

  /** The smallest case: a one-byte topic in a buffer of six bytes passes the check and needs eight. */
  lemma SubscribeNeedsEight(valid: seq<byte> -> bool)
    requires valid([65])
    ensures EncodeSubscribe(6, [65], 0, 1, valid) == Some([0x82, 4, 0, 1, 0, 1, 65, 0])
  {
    var topic: seq<byte>, four: seq<byte> := [65], [4];
    assert VarIntBytes(4) == four;
    assert [8 * 16 + 2] + four + (Be16(1) + Be16(1) + topic + [0]) == [0x82, 4, 0, 1, 0, 1, 65, 0];
  }
}
