/**
 The on-flash record of the storage layer: a 22-byte little-endian header and a payload,
 and how a slot is classified.
 */
module StorageRecord {
  import opened Bits
  import opened Crc

  const STORAGE_MAGIC: nat := 0x52534D43
  const FORMAT_VERSION: nat := 1
  const HEADER_SIZE: nat := 22
  const PAYLOAD_MAX: nat := 256
  /** No page is smaller than the largest record rounded up to the largest program unit. */
  const PROGRAM_BUFFER_MAX: nat := 280

  const ERASED_BYTE: Bits8 := Ones(8)
  const ZERO_BYTE: Bits8 := Zeros(8)

  /** A little-endian unsigned field. */
  function Number(field: seq<Bits8>): nat {
    Value(Join(field))
  }

  /** The number `n` in `count` bytes. */
  function Bytes(n: nat, count: nat): (field: seq<Bits8>)
    ensures |field| == count
  {
    Chop(Digits(n, 8 * count))
  }

  function Chop(b: seq<bool>): (data: seq<Bits8>)
    requires |b| % 8 == 0
    ensures 8 * |data| == |b|
  {
    if b == [] then [] else Chop(b[..|b| - 8]) + [b[|b| - 8..]]
  }

  lemma {:induction false} JoinChop(b: seq<bool>)
    requires |b| % 8 == 0
    ensures Join(Chop(b)) == b
  {
    if b != [] {
      JoinChop(b[..|b| - 8]);
      var data := Chop(b);
      assert data[..|data| - 1] == Chop(b[..|b| - 8]);
    }
  }

  lemma NumberOfBytes(n: nat, count: nat)
    requires n < Pow2(8 * count)
    ensures Number(Bytes(n, count)) == n
  {
    JoinChop(Digits(n, 8 * count));
    DigitsValue(n, 8 * count);
  }

  // ---- Building a record --------------------------------------------------------------

  /** Everything in the header before the checksum; flags and both reserved fields are zero. */
  function Prefix(rtype: nat, sequence: nat, size: nat): (p: seq<Bits8>)
    ensures |p| == 18
  {
    Bytes(STORAGE_MAGIC, 4) + Bytes(FORMAT_VERSION, 2) + Bytes(size, 2) + Bytes(rtype, 1) + Bytes(0, 1)
    + Bytes(sequence, 4) + Bytes(0, 2) + Bytes(0, 2)
  }

  const NO_CRC: seq<Bits8> := [ZERO_BYTE, ZERO_BYTE, ZERO_BYTE, ZERO_BYTE]

  /** The bytes the checksum covers: the header with its checksum field zeroed, then the payload. */
  function Message(prefix: seq<Bits8>, payload: seq<Bits8>): seq<Bits8> {
    prefix + NO_CRC + payload
  }

  function CrcField(prefix: seq<Bits8>, payload: seq<Bits8>): (field: seq<Bits8>)
    ensures |field| == 4
  {
    Chop(Crc32(Message(prefix, payload)))
  }

  function Record(rtype: nat, sequence: nat, payload: seq<Bits8>): (r: seq<Bits8>)
    ensures |r| == HEADER_SIZE + |payload|
  {
    var prefix := Prefix(rtype, sequence, |payload|);
    prefix + CrcField(prefix, payload) + payload
  }

  // ---- Classifying a slot ---------------------------------------------------------------

  /** What a readable slot holds. */
  datatype SlotView = Erased | Corrupt | Valid(sequence: nat, payload: seq<Bits8>)

  predicate Blank(page: seq<Bits8>)
    requires |page| >= PROGRAM_BUFFER_MAX
  {
    forall k :: 0 <= k < HEADER_SIZE ==> page[k] == ERASED_BYTE
  }

  function PayloadSize(page: seq<Bits8>): nat
    requires |page| >= PROGRAM_BUFFER_MAX
  {
    Number(page[6..8])
  }

  /** The header checks that come before the checksum. */
  predicate HeaderAccepted(page: seq<Bits8>, rtype: nat)
    requires |page| >= PROGRAM_BUFFER_MAX
  {
    && Number(page[..4]) == STORAGE_MAGIC
    && Number(page[4..6]) == FORMAT_VERSION
    && Number(page[8..9]) == rtype
    && PayloadSize(page) <= PAYLOAD_MAX
    && Number(page[14..16]) == 0
    && Number(page[16..18]) == 0
  }

  function Payload(page: seq<Bits8>): (p: seq<Bits8>)
    requires |page| >= PROGRAM_BUFFER_MAX && PayloadSize(page) <= PAYLOAD_MAX
  {
    page[HEADER_SIZE..HEADER_SIZE + PayloadSize(page)]
  }

  predicate CrcMatches(page: seq<Bits8>)
    requires |page| >= PROGRAM_BUFFER_MAX && PayloadSize(page) <= PAYLOAD_MAX
  {
    Crc32(Message(page[..18], Payload(page))) == Join(page[18..HEADER_SIZE])
  }

  function Classify(page: seq<Bits8>, rtype: nat): SlotView
    requires |page| >= PROGRAM_BUFFER_MAX
  {
    if Blank(page) then Erased
    else if !HeaderAccepted(page, rtype) || !CrcMatches(page) then Corrupt
    else Valid(Number(page[10..14]), Payload(page))
  }

  // ---- A written record reads back --------------------------------------------------------

  lemma FieldBounds()
    ensures Pow2(8) == 256 && Pow2(16) == 65536 && Pow2(32) == 0x1_0000_0000
  {
    assert Pow2(1) == 2 && Pow2(3) == 8;
    assert Pow2(4) == 16;
    Pow2Sum(4, 4);
    Pow2Sum(8, 8);
    Pow2At31();
    assert Pow2(32) == 2 * Pow2(31);
  }

  /** The header fields of bytes that start with a prefix. */
  lemma PrefixFields(page: seq<Bits8>, rtype: nat, sequence: nat, size: nat)
    requires |page| >= 18 && page[..18] == Prefix(rtype, sequence, size)
    ensures page[..4] == Bytes(STORAGE_MAGIC, 4) && page[4..6] == Bytes(FORMAT_VERSION, 2)
    ensures page[6..8] == Bytes(size, 2) && page[8..9] == Bytes(rtype, 1) && page[9..10] == Bytes(0, 1)
    ensures page[10..14] == Bytes(sequence, 4) && page[14..16] == Bytes(0, 2) && page[16..18] == Bytes(0, 2)
  {
    hide Bytes;
    FirstParts(page[..18], Bytes(STORAGE_MAGIC, 4), Bytes(FORMAT_VERSION, 2), Bytes(size, 2), Bytes(rtype, 1) + Bytes(0, 1)
               + Bytes(sequence, 4) + Bytes(0, 2) + Bytes(0, 2));
    LastParts(page[..18], Bytes(STORAGE_MAGIC, 4) + Bytes(FORMAT_VERSION, 2) + Bytes(size, 2),
              Bytes(rtype, 1), Bytes(0, 1), Bytes(sequence, 4), Bytes(0, 2), Bytes(0, 2));
    SliceOfStart(page, 18, 0, 4);
    SliceOfStart(page, 18, 4, 6);
    SliceOfStart(page, 18, 6, 8);
    SliceOfStart(page, 18, 8, 9);
    SliceOfStart(page, 18, 9, 10);
    SliceOfStart(page, 18, 10, 14);
    SliceOfStart(page, 18, 14, 16);
    SliceOfStart(page, 18, 16, 18);
  }

  lemma SliceOfStart(page: seq<Bits8>, n: nat, i: nat, j: nat)
    requires i <= j <= n <= |page|
    ensures page[..n][i..j] == page[i..j]
  {
  }

  lemma FirstParts(p: seq<Bits8>, a: seq<Bits8>, b: seq<Bits8>, c: seq<Bits8>, rest: seq<Bits8>)
    requires |a| == 4 && |b| == |c| == 2 && p == a + b + c + rest
    ensures p[0..4] == a && p[4..6] == b && p[6..8] == c
  {
  }

  lemma LastParts(p: seq<Bits8>, front: seq<Bits8>, a: seq<Bits8>, b: seq<Bits8>, c: seq<Bits8>, d: seq<Bits8>, e: seq<Bits8>)
    requires |front| == 8 && |a| == |b| == 1 && |c| == 4 && |d| == |e| == 2 && p == front + a + b + c + d + e
    ensures p[8..9] == a && p[9..10] == b && p[10..14] == c && p[14..16] == d && p[16..18] == e
  {
  }

  /** Different fields of one width are different numbers. */
  lemma NumberDiffers(a: seq<Bits8>, b: seq<Bits8>)
    requires |a| == |b| && a != b
    ensures Join(a) != Join(b) && Number(a) != Number(b)
  {
    if Join(a) == Join(b) {
      JoinInjective(a, b);
    }
    if Number(a) == Number(b) {
      ValueInjective(Join(a), Join(b));
    }
  }

  /** A page with an accepted header is not blank: its type byte would read 255. */
  lemma AcceptedIsNotBlank(page: seq<Bits8>, rtype: nat)
    requires |page| >= PROGRAM_BUFFER_MAX && Number(page[8..9]) == rtype < 255
    ensures !Blank(page)
  {
    if Blank(page) {
      assert page[8..9] == [ERASED_BYTE];
      assert Join([ERASED_BYTE]) == ERASED_BYTE by {
        assert [ERASED_BYTE][..0] == [];
      }
      OnesValue(8);
      FieldBounds();
    }
  }

  /** A page that begins with a record is classified as valid, with the record's sequence and payload. */
  lemma RecordReadsBack(page: seq<Bits8>, rtype: nat, sequence: nat, payload: seq<Bits8>)
    requires |page| >= PROGRAM_BUFFER_MAX && |payload| <= PAYLOAD_MAX
    requires rtype < 255 && sequence < 0x1_0000_0000
    requires page[..HEADER_SIZE + |payload|] == Record(rtype, sequence, payload)
    ensures Classify(page, rtype) == Valid(sequence, payload)
  {
    RecordSlices(page, Prefix(rtype, sequence, |payload|), CrcField(Prefix(rtype, sequence, |payload|), payload), payload);
    RecordHeader(page, rtype, sequence, |payload|);
    RecordCrc(page, rtype, sequence, payload);
    AcceptedIsNotBlank(page, rtype);
  }

  lemma RecordSlices(page: seq<Bits8>, prefix: seq<Bits8>, crc: seq<Bits8>, payload: seq<Bits8>)
    requires |prefix| == 18 && |crc| == 4 && |page| >= HEADER_SIZE + |payload|
    requires page[..HEADER_SIZE + |payload|] == prefix + crc + payload
    ensures page[..18] == prefix && page[18..HEADER_SIZE] == crc
    ensures page[HEADER_SIZE..HEADER_SIZE + |payload|] == payload
  {
    var r := page[..HEADER_SIZE + |payload|];
    assert page[..18] == r[..18] && page[18..HEADER_SIZE] == r[18..HEADER_SIZE];
    assert page[HEADER_SIZE..HEADER_SIZE + |payload|] == r[HEADER_SIZE..];
  }

  lemma RecordCrc(page: seq<Bits8>, rtype: nat, sequence: nat, payload: seq<Bits8>)
    requires |page| >= PROGRAM_BUFFER_MAX && PayloadSize(page) == |payload| <= PAYLOAD_MAX
    requires Payload(page) == payload && page[18..HEADER_SIZE] == CrcField(page[..18], payload)
    ensures CrcMatches(page)
  {
    JoinChop(Crc32(Message(page[..18], payload)));
  }

  lemma RecordHeader(page: seq<Bits8>, rtype: nat, sequence: nat, size: nat)
    requires |page| >= PROGRAM_BUFFER_MAX && size <= PAYLOAD_MAX
    requires rtype < 255 && sequence < 0x1_0000_0000
    requires page[..18] == Prefix(rtype, sequence, size)
    ensures HeaderAccepted(page, rtype) && PayloadSize(page) == size && Number(page[10..14]) == sequence
  {
    PrefixFields(page, rtype, sequence, size);
    FieldBounds();
    NumberOfBytes(STORAGE_MAGIC, 4);
    NumberOfBytes(FORMAT_VERSION, 2);
    NumberOfBytes(size, 2);
    NumberOfBytes(rtype, 1);
    NumberOfBytes(sequence, 4);
    NumberOfBytes(0, 2);
  }

  // ---- The format, byte by byte ---------------------------------------------------------------

  function LittleEndian16(data: seq<Bits8>, k: nat): nat
    requires k + 2 <= |data|
  {
    Value(data[k]) + 0x100 * Value(data[k + 1])
  }

  function LittleEndian32(data: seq<Bits8>, k: nat): nat
    requires k + 4 <= |data|
  {
    Value(data[k]) + 0x100 * Value(data[k + 1]) + 0x1_0000 * Value(data[k + 2]) + 0x100_0000 * Value(data[k + 3])
  }

  lemma NumberAppend(front: seq<Bits8>, b: Bits8)
    ensures Number(front + [b]) == Number(front) + Pow2(8 * |front|) * Value(b)
  {
    assert (front + [b])[..|front|] == front;
    ValueAppend(Join(front), b);
  }

  lemma OneByte(b: Bits8)
    ensures Number([b]) == Value(b) < 256
  {
    NumberAppend([], b);
    assert [] + [b] == [b];
    ValueBound(b);
    FieldBounds();
  }

  lemma TwoBytes(f: seq<Bits8>)
    requires |f| == 2
    ensures Number(f) == LittleEndian16(f, 0)
  {
    OneByte(f[0]);
    NumberAppend([f[0]], f[1]);
    assert f == [f[0]] + [f[1]];
    FieldBounds();
  }

  lemma FourBytes(f: seq<Bits8>)
    requires |f| == 4
    ensures Number(f) == LittleEndian32(f, 0)
  {
    TwoBytes(f[..2]);
    NumberAppend(f[..2], f[2]);
    NumberAppend(f[..3], f[3]);
    assert f[..3] == f[..2] + [f[2]] && f == f[..3] + [f[3]];
    FieldBounds();
    assert Pow2(24) == 0x100_0000 by {
      Pow2Sum(16, 8);
    }
  }

  predicate ByteIs(data: seq<Bits8>, k: nat, n: int) {
    k < |data| && Value(data[k]) == n
  }

  /** The fixed part of the first 18 bytes: the letters CMSR, version 1, the type, and four zero bytes. */
  predicate FixedBytes(data: seq<Bits8>, rtype: nat) {
    && ByteIs(data, 0, 0x43) && ByteIs(data, 1, 0x4D) && ByteIs(data, 2, 0x53) && ByteIs(data, 3, 0x52)
    && ByteIs(data, 4, 1) && ByteIs(data, 5, 0) && ByteIs(data, 8, rtype)
    && ByteIs(data, 14, 0) && ByteIs(data, 15, 0) && ByteIs(data, 16, 0) && ByteIs(data, 17, 0)
  }

  /** Bytes 18 to 21 are the checksum of the first 18, four zero bytes, and the payload. */
  predicate Sealed(data: seq<Bits8>, payload: seq<Bits8>)
    requires |data| >= 22
  {
    Join(data[18..22]) == Crc32(data[..18] + [Zeros(8), Zeros(8), Zeros(8), Zeros(8)] + payload)
  }

  lemma ByteBounds(data: seq<Bits8>, k: nat)
    requires k < |data|
    ensures Value(data[k]) < 256
  {
    ValueBound(data[k]);
    FieldBounds();
  }

  /** The fields of any 18 bytes. */
  lemma HeaderNumbers(data: seq<Bits8>, rtype: nat)
    requires |data| >= 18
    ensures Number(data[6..8]) == LittleEndian16(data, 6)
    ensures Number(data[10..14]) == LittleEndian32(data, 10)
    ensures FixedBytes(data, rtype)
       <==> && Number(data[..4]) == STORAGE_MAGIC && Number(data[4..6]) == FORMAT_VERSION
            && Number(data[8..9]) == rtype && Number(data[14..16]) == 0 && Number(data[16..18]) == 0
  {
    hide Number, Value;
    FourBytes(data[..4]);
    TwoBytes(data[4..6]);
    TwoBytes(data[6..8]);
    OneByte(data[8]);
    assert data[8..9] == [data[8]];
    FourBytes(data[10..14]);
    TwoBytes(data[14..16]);
    TwoBytes(data[16..18]);
    ByteBounds(data, 0);
    ByteBounds(data, 1);
    ByteBounds(data, 2);
    ByteBounds(data, 3);
    ByteBounds(data, 4);
    ByteBounds(data, 5);
  }

  lemma ErasedByte()
    ensures Value(ERASED_BYTE) == 255
  {
    OnesValue(8);
    FieldBounds();
  }

  /** When a slot counts as valid, on its bytes, and what it then holds. */
  lemma ClassifiedValid(page: seq<Bits8>, rtype: nat)
    requires |page| >= 280
    ensures var size := LittleEndian16(page, 6);
            Classify(page, rtype).Valid?
            <==> FixedBytes(page, rtype) && size <= 256 && Sealed(page, page[22..22 + size])
    ensures var view := Classify(page, rtype);
            view.Valid? ==>
              && view.sequence == LittleEndian32(page, 10)
              && |view.payload| == LittleEndian16(page, 6)
              && view.payload == page[22..22 + |view.payload|]
    ensures Classify(page, rtype).Erased? <==> forall k :: 0 <= k < 22 ==> page[k] == Ones(8)
  {
    HeaderNumbers(page, rtype);
    ErasedByte();
    assert Blank(page) ==> page[0] == ERASED_BYTE;
    hide Number, Value, Crc32, FixedBytes;
  }

  /** What a record looks like, byte by byte. */
  lemma RecordBytes(rtype: nat, sequence: nat, payload: seq<Bits8>)
    requires |payload| <= 256 && rtype < 256 && sequence < 0x1_0000_0000
    ensures var r := Record(rtype, sequence, payload);
            && |r| == 22 + |payload|
            && FixedBytes(r, rtype) && ByteIs(r, 9, 0)
            && LittleEndian16(r, 6) == |payload|
            && LittleEndian32(r, 10) == sequence
            && Sealed(r, payload)
            && r[22..] == payload
  {
    var prefix, r := Prefix(rtype, sequence, |payload|), Record(rtype, sequence, payload);
    var crc := CrcField(prefix, payload);
    assert r[..18] == prefix && r[18..22] == crc && r[22..] == payload;
    JoinChop(Crc32(Message(prefix, payload)));
    hide Record, CrcField;
    RecordHeaderBytes(r, rtype, sequence, |payload|);
  }

  lemma RecordHeaderBytes(r: seq<Bits8>, rtype: nat, sequence: nat, size: nat)
    requires |r| >= 18 && r[..18] == Prefix(rtype, sequence, size) && size <= 256 && rtype < 256 && sequence < 0x1_0000_0000
    ensures FixedBytes(r, rtype) && ByteIs(r, 9, 0)
    ensures LittleEndian16(r, 6) == size
    ensures LittleEndian32(r, 10) == sequence
  {
    PrefixFields(r, rtype, sequence, size);
    hide Prefix, Number, Value, Bytes;
    FieldBounds();
    NumberOfBytes(STORAGE_MAGIC, 4);
    NumberOfBytes(FORMAT_VERSION, 2);
    NumberOfBytes(size, 2);
    NumberOfBytes(rtype, 1);
    NumberOfBytes(sequence, 4);
    NumberOfBytes(0, 2);
    NumberOfBytes(0, 1);
    HeaderNumbers(r, rtype);
    OneByte(r[9]);
    assert r[9..10] == [r[9]];
  }

  lemma TailSlice(s: seq<Bits8>, k: nat, i: nat, j: nat)
    requires k <= i <= j <= |s|
    ensures s[i..j] == s[k..][i - k..j - k]
  {
  }
}
