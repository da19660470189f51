/**
 Which damage to a stored record is noticed. Short damage always is, unless it changes the
 payload size or reaches over the checksum's end; for those two it is noticed if and only if a
 stated relation between the damage, the checksum and the bytes gained or lost fails.
 */
module StorageDamage {
  import opened Bits
  import opened Crc
  import opened StorageRecord

  /** The two pages agree outside `n` bytes from `w`, and differ there. */
  ghost predicate DamagedAt(page: seq<Bits8>, page': seq<Bits8>, w: nat, n: nat) {
    && |page'| == |page| && w + n <= |page|
    && page'[..w] == page[..w] && page'[w + n..] == page[w + n..]
    && page'[w..w + n] != page[w..w + n]
  }

  lemma SameField(page: seq<Bits8>, page': seq<Bits8>, w: nat, n: nat, i: nat, j: nat)
    requires DamagedAt(page, page', w, n) && i <= j <= |page| && (j <= w || w + n <= i)
    ensures page'[i..j] == page[i..j]
  {
    if j <= w {
      HeadSlice(page, w, i, j);
      HeadSlice(page', w, i, j);
    } else {
      TailSlice(page, w + n, i, j);
      TailSlice(page', w + n, i, j);
    }
  }

  lemma HeadSlice(s: seq<Bits8>, k: nat, i: nat, j: nat)
    requires i <= j <= k <= |s|
    ensures s[i..j] == s[..k][i..j]
  {
  }

  lemma DamageReaches(page: seq<Bits8>, page': seq<Bits8>, w: nat, n: nat, i: nat, j: nat)
    requires DamagedAt(page, page', w, n) && i <= w && w + n <= j <= |page|
    ensures page'[i..j] != page[i..j]
  {
    var k :| 0 <= k < n && page'[w..w + n][k] != page[w..w + n][k];
    assert page'[i..j][w - i + k] != page[i..j][w - i + k];
  }

  // ---- The header checks ------------------------------------------------------------------

  /** The part of the header that is compared with fixed values: magic, version, type and both reserved fields. */
  ghost predicate CheckedFieldsSame(page: seq<Bits8>, page': seq<Bits8>)
    requires |page| == |page'| >= PROGRAM_BUFFER_MAX
  {
    && page'[..4] == page[..4] && page'[4..6] == page[4..6] && page'[8..9] == page[8..9]
    && page'[14..16] == page[14..16] && page'[16..18] == page[16..18]
  }

  /** Any change to a checked field fails its check. */
  lemma CheckedFieldChanged(page: seq<Bits8>, page': seq<Bits8>, rtype: nat)
    requires |page| == |page'| >= PROGRAM_BUFFER_MAX && HeaderAccepted(page, rtype)
    requires !CheckedFieldsSame(page, page')
    ensures !HeaderAccepted(page', rtype)
  {
    if page'[..4] != page[..4] {
      NumberDiffers(page'[..4], page[..4]);
    } else if page'[4..6] != page[4..6] {
      NumberDiffers(page'[4..6], page[4..6]);
    } else if page'[8..9] != page[8..9] {
      NumberDiffers(page'[8..9], page[8..9]);
    } else if page'[14..16] != page[14..16] {
      NumberDiffers(page'[14..16], page[14..16]);
    } else {
      NumberDiffers(page'[16..18], page[16..18]);
    }
  }

  lemma MagicIsNotBlank(page: seq<Bits8>)
    requires |page| >= PROGRAM_BUFFER_MAX && Number(page[..4]) == STORAGE_MAGIC
    ensures !Blank(page)
  {
    if Blank(page) {
      var blank := [ERASED_BYTE, ERASED_BYTE, ERASED_BYTE, ERASED_BYTE];
      assert page[..4] == blank;
      JoinBlank(4);
      assert seq(4, _ => ERASED_BYTE) == blank;
      OnesValue(32);
      FieldBounds();
    }
  }

  lemma {:induction false} JoinBlank(n: nat)
    ensures Join(seq(n, _ => ERASED_BYTE)) == Ones(8 * n)
  {
    if n > 0 {
      JoinBlank(n - 1);
      assert seq(n, _ => ERASED_BYTE)[..n - 1] == seq(n - 1, _ => ERASED_BYTE);
    }
  }

  lemma ReservedIsNotBlank(page: seq<Bits8>)
    requires |page| >= PROGRAM_BUFFER_MAX && Number(page[16..18]) == 0
    ensures !Blank(page)
  {
    assert Blank(page) ==> page[16..18] == [ERASED_BYTE, ERASED_BYTE];
    BlankFieldValue();
  }

  lemma BlankFieldValue()
    ensures Number([ERASED_BYTE, ERASED_BYTE]) == 65535
  {
    var blank := seq(2, _ => ERASED_BYTE);
    JoinBlank(2);
    assert blank == [ERASED_BYTE, ERASED_BYTE];
    OnesValue(16);
    FieldBounds();
  }

  /** Four bytes of damage cannot reach both the magic number and the last reserved field, so the slot never looks erased. */
  lemma DamagedIsNotBlank(page: seq<Bits8>, page': seq<Bits8>, rtype: nat, w: nat, n: nat)
    requires |page| >= PROGRAM_BUFFER_MAX && HeaderAccepted(page, rtype)
    requires DamagedAt(page, page', w, n) && n <= 4
    ensures !Blank(page')
  {
    if w < 4 {
      SameField(page, page', w, n, 16, 18);
      ReservedIsNotBlank(page');
    } else {
      SameField(page, page', w, n, 0, 4);
      MagicIsNotBlank(page');
    }
  }

  // ---- The checksum ---------------------------------------------------------------------------

  /** The checksum tells headers apart that differ in at most four consecutive bytes. */
  lemma PrefixBurst(a: seq<Bits8>, b: seq<Bits8>, b': seq<Bits8>, c: seq<Bits8>, payload: seq<Bits8>)
    requires |b| == |b'| <= 4 && b != b'
    ensures Crc32(Message(a + b + c, payload)) != Crc32(Message(a + b' + c, payload))
  {
    assert Message(a + b + c, payload) == a + b + (c + NO_CRC + payload);
    assert Message(a + b' + c, payload) == a + b' + (c + NO_CRC + payload);
    BurstDetected(a, b, b', c + NO_CRC + payload);
  }

  /** The checksum tells payloads apart that differ in at most four consecutive bytes. */
  lemma PayloadBurst(prefix: seq<Bits8>, a: seq<Bits8>, b: seq<Bits8>, b': seq<Bits8>, c: seq<Bits8>)
    requires |b| == |b'| <= 4 && b != b'
    ensures Crc32(Message(prefix, a + b + c)) != Crc32(Message(prefix, a + b' + c))
  {
    assert Message(prefix, a + b + c) == (prefix + NO_CRC + a) + b + c;
    assert Message(prefix, a + b' + c) == (prefix + NO_CRC + a) + b' + c;
    BurstDetected(prefix + NO_CRC + a, b, b', c);
  }

  /** The page in three parts, the middle one damaged. */
  lemma DamagedParts(page: seq<Bits8>, page': seq<Bits8>, w: nat, n: nat, i: nat, j: nat)
    requires DamagedAt(page, page', w, n) && i <= w && w + n <= j <= |page|
    ensures page[i..j] == page[i..w] + page[w..w + n] + page[w + n..j]
    ensures page'[i..j] == page[i..w] + page'[w..w + n] + page[w + n..j]
  {
    SameField(page, page', w, n, i, w);
    SameField(page, page', w, n, w + n, j);
    assert page'[i..j] == page'[i..w] + page'[w..w + n] + page'[w + n..j];
  }

  /** Short damage to the header alone changes the checksum. */
  lemma DamagedHeader(page: seq<Bits8>, page': seq<Bits8>, rtype: nat, w: nat, n: nat)
    requires |page| >= PROGRAM_BUFFER_MAX && HeaderAccepted(page, rtype) && CrcMatches(page)
    requires DamagedAt(page, page', w, n) && n <= 4 && w + n <= 18 && page'[6..8] == page[6..8]
    ensures !CrcMatches(page')
  {
    var end := HEADER_SIZE + PayloadSize(page);
    DamagedParts(page, page', w, n, 0, 18);
    SameField(page, page', w, n, 18, HEADER_SIZE);
    SameField(page, page', w, n, HEADER_SIZE, end);
    assert page[..18] == page[0..18] && page'[..18] == page'[0..18];
    PrefixBurst(page[0..w], page[w..w + n], page'[w..w + n], page[w + n..18], Payload(page));
  }

  /** Damage to the checksum leaves it different from the checksum of the unchanged rest. */
  lemma DamagedCrc(page: seq<Bits8>, page': seq<Bits8>, rtype: nat)
    requires |page| == |page'| >= PROGRAM_BUFFER_MAX && HeaderAccepted(page, rtype) && CrcMatches(page)
    requires page'[..18] == page[..18] && page'[6..8] == page[6..8] && Payload(page') == Payload(page)
    requires page'[18..HEADER_SIZE] != page[18..HEADER_SIZE]
    ensures !CrcMatches(page')
  {
    NumberDiffers(page'[18..HEADER_SIZE], page[18..HEADER_SIZE]);
  }

  /** Short damage to the payload alone changes the checksum. */
  lemma DamagedPayload(page: seq<Bits8>, page': seq<Bits8>, rtype: nat, w: nat, n: nat)
    requires |page| >= PROGRAM_BUFFER_MAX && HeaderAccepted(page, rtype) && CrcMatches(page)
    requires DamagedAt(page, page', w, n) && n <= 4 && HEADER_SIZE <= w && w + n <= HEADER_SIZE + PayloadSize(page)
    ensures page'[6..8] == page[6..8] && !CrcMatches(page')
  {
    var end := HEADER_SIZE + PayloadSize(page);
    SameField(page, page', w, n, 0, 18);
    SameField(page, page', w, n, 6, 8);
    SameField(page, page', w, n, 18, HEADER_SIZE);
    DamagedParts(page, page', w, n, HEADER_SIZE, end);
    assert page[..18] == page[0..18] && page'[..18] == page'[0..18];
    PayloadBurst(page[..18], page[HEADER_SIZE..w], page[w..w + n], page'[w..w + n], page[w + n..end]);
  }

  /**
   A valid slot never survives damage confined to four consecutive bytes of its record, as long
   as the size field is intact and the damage is on one side of the checksum's end.
   */
  lemma ShortDamageIsNoticed(page: seq<Bits8>, page': seq<Bits8>, rtype: nat, w: nat, n: nat)
    requires |page| >= PROGRAM_BUFFER_MAX && Classify(page, rtype).Valid?
    requires DamagedAt(page, page', w, n) && n <= 4 && w + n <= HEADER_SIZE + PayloadSize(page)
    requires page'[6..8] == page[6..8] && (w + n <= HEADER_SIZE || HEADER_SIZE <= w)
    ensures Classify(page', rtype) == Corrupt
  {
    DamagedIsNotBlank(page, page', rtype, w, n);
    if !CheckedFieldsSame(page, page') {
      CheckedFieldChanged(page, page', rtype);
    } else if HEADER_SIZE <= w {
      DamagedPayload(page, page', rtype, w, n);
    } else if w + n <= 18 {
      DamagedHeader(page, page', rtype, w, n);
    } else {
      OnlyTheCrc(page, page', rtype, w, n);
      DamagedCrc(page, page', rtype);
    }
  }

  /** Damage that reaches the checksum but no checked field is damage to the checksum. */
  lemma OnlyTheCrc(page: seq<Bits8>, page': seq<Bits8>, rtype: nat, w: nat, n: nat)
    requires |page| >= PROGRAM_BUFFER_MAX && HeaderAccepted(page, rtype)
    requires DamagedAt(page, page', w, n) && n <= 4 && 18 < w + n <= HEADER_SIZE
    requires CheckedFieldsSame(page, page')
    ensures page'[6..8] == page[6..8] && page'[..18] == page[..18] && Payload(page') == Payload(page)
    ensures page'[18..HEADER_SIZE] != page[18..HEADER_SIZE]
  {
    SameField(page, page', w, n, 0, 14);
    SameField(page, page', w, n, 6, 8);
    SameField(page, page', w, n, HEADER_SIZE, HEADER_SIZE + PayloadSize(page));
    assert page[..18] == page[0..14] + page[14..16] + page[16..18];
    assert page'[..18] == page'[0..14] + page'[14..16] + page'[16..18];
    DamageReaches(page, page', w, n, 0, HEADER_SIZE);
    assert page[0..HEADER_SIZE] == page[..18] + page[18..HEADER_SIZE];
    assert page'[0..HEADER_SIZE] == page'[..18] + page'[18..HEADER_SIZE];
  }

  // ---- Damage across the checksum's end -------------------------------------------------------

  /** The damage to the checksum field is the register's answer to the damage to the payload, started at zero. */
  ghost predicate EdgeEscapes(page: seq<Bits8>, page': seq<Bits8>)
    requires |page| == |page'| >= PROGRAM_BUFFER_MAX && page'[6..8] == page[6..8] && PayloadSize(page) <= PAYLOAD_MAX
  {
    Xor(Join(page[18..HEADER_SIZE]), Join(page'[18..HEADER_SIZE])) == CrcFrom(ZERO, XorBytes(Payload(page), Payload(page')))
  }

  /**
   Damage of any length behind the first part of the header is unnoticed exactly under that
   relation, which concerns the damage alone and not the record.
   */
  lemma EdgeDamageUnnoticed(page: seq<Bits8>, page': seq<Bits8>, rtype: nat)
    requires |page| == |page'| >= PROGRAM_BUFFER_MAX && Classify(page, rtype).Valid?
    requires page'[..18] == page[..18] && page'[6..8] == page[6..8] && CheckedFieldsSame(page, page')
    ensures Classify(page', rtype).Valid? <==> EdgeEscapes(page, page')
  {
    MagicIsNotBlank(page');
    ChecksumDifference(page[..18], Payload(page), Payload(page'));
    var field, field' := Join(page[18..HEADER_SIZE]), Join(page'[18..HEADER_SIZE]);
    XorDetermines(field, field', Crc32(Message(page[..18], Payload(page'))));
  }

  lemma XorDetermines(a: Bits32, b: Bits32, c: Bits32)
    ensures Xor(a, b) == Xor(a, c) <==> b == c
  {
    if Xor(a, b) == Xor(a, c) {
      XorCancels(a, b, c);
    }
  }

  lemma ChecksumDifference(prefix: seq<Bits8>, a: seq<Bits8>, b: seq<Bits8>)
    requires |a| == |b|
    ensures Xor(Crc32(Message(prefix, a)), Crc32(Message(prefix, b))) == CrcFrom(ZERO, XorBytes(a, b))
  {
    var start := CrcFrom(ALL_ONES, prefix + NO_CRC);
    CrcFromAppend(ALL_ONES, prefix + NO_CRC, a);
    CrcFromAppend(ALL_ONES, prefix + NO_CRC, b);
    CrcDifference(start, start, a, b);
    assert Xor(start, start) == ZERO;
    ComplementsCancel(CrcFrom(start, a), CrcFrom(start, b));
  }

  lemma ComplementsCancel(x: Bits32, y: Bits32)
    ensures Xor(Xor(x, ALL_ONES), Xor(y, ALL_ONES)) == Xor(x, y)
  {
  }

  // ---- Damage to the size field ---------------------------------------------------------------

  /** The checksum register after a header without its checksum and some payload bytes. */
  function Register(prefix: seq<Bits8>, data: seq<Bits8>): Bits32 {
    CrcFrom(ALL_ONES, Message(prefix, data))
  }

  /** The register's answer to a change of the header, `count` payload bytes later. */
  function Ripple(prefix: seq<Bits8>, prefix': seq<Bits8>, count: nat): Bits32
    requires |prefix| == |prefix'|
  {
    CrcFrom(ZERO, XorBytes(prefix, prefix') + seq(4 + count, _ => ZERO_BYTE))
  }

  /** The bytes gained lead the disturbed register back to where it was. */
  ghost predicate GrowthEscapes(page: seq<Bits8>, page': seq<Bits8>)
    requires |page| == |page'| >= PROGRAM_BUFFER_MAX && PayloadSize(page) <= PayloadSize(page') <= PAYLOAD_MAX
  {
    var n, m := PayloadSize(page), PayloadSize(page');
    var register := Register(page[..18], Payload(page));
    CrcFrom(Xor(register, Ripple(page[..18], page'[..18], n)), page[HEADER_SIZE + n..HEADER_SIZE + m]) == register
  }

  /** The bytes lost would have led the register to where the disturbance leads it. */
  ghost predicate ShrinkingEscapes(page: seq<Bits8>, page': seq<Bits8>)
    requires |page| == |page'| >= PROGRAM_BUFFER_MAX && PayloadSize(page') < PayloadSize(page) <= PAYLOAD_MAX
  {
    var n, m := PayloadSize(page), PayloadSize(page');
    var register := Register(page[..18], page[HEADER_SIZE..HEADER_SIZE + m]);
    CrcFrom(register, page[HEADER_SIZE + m..HEADER_SIZE + n]) == Xor(register, Ripple(page[..18], page'[..18], m))
  }

  ghost predicate SizeEscapes(page: seq<Bits8>, page': seq<Bits8>)
    requires |page| == |page'| >= PROGRAM_BUFFER_MAX && PayloadSize(page) <= PAYLOAD_MAX
  {
    && PayloadSize(page') <= PAYLOAD_MAX
    && if PayloadSize(page) <= PayloadSize(page') then GrowthEscapes(page, page') else ShrinkingEscapes(page, page')
  }

  /** Two headers move the register apart by the ripple of their difference, whatever the payload. */
  lemma RegistersDiffer(prefix: seq<Bits8>, prefix': seq<Bits8>, data: seq<Bits8>)
    requires |prefix| == |prefix'|
    ensures Register(prefix', data) == Xor(Register(prefix, data), Ripple(prefix, prefix', |data|))
  {
    var tail := NO_CRC + data;
    assert Message(prefix, data) == prefix + tail && Message(prefix', data) == prefix' + tail;
    CrcDifference(ALL_ONES, ALL_ONES, prefix + tail, prefix' + tail);
    assert Xor(ALL_ONES, ALL_ONES) == ZERO;
    SameTail(prefix, prefix', tail);
    XorRecovers(Register(prefix, data), Register(prefix', data));
  }

  lemma XorRecovers(x: Bits32, y: Bits32)
    ensures Xor(x, Xor(x, y)) == y
  {
  }

  lemma {:induction false} SameTail(a: seq<Bits8>, b: seq<Bits8>, tail: seq<Bits8>)
    requires |a| == |b|
    ensures XorBytes(a + tail, b + tail) == XorBytes(a, b) + seq(|tail|, _ => ZERO_BYTE)
  {
    if tail == [] {
      assert a + tail == a && b + tail == b;
    } else {
      var front := tail[..|tail| - 1];
      SameTail(a, b, front);
      assert (a + tail)[..|a| + |front|] == a + front && (b + tail)[..|a| + |front|] == b + front;
      assert XorByte(tail[|front|], tail[|front|]) == ZERO_BYTE;
      assert seq(|tail|, _ => ZERO_BYTE) == seq(|front|, _ => ZERO_BYTE) + [ZERO_BYTE];
    }
  }

  lemma RegisterAppend(prefix: seq<Bits8>, a: seq<Bits8>, b: seq<Bits8>)
    ensures Register(prefix, a + b) == CrcFrom(Register(prefix, a), b)
  {
    assert Message(prefix, a + b) == Message(prefix, a) + b;
    CrcFromAppend(ALL_ONES, Message(prefix, a), b);
  }

  /** Over an unchanged checksum field, validity is equality of the registers. */
  lemma ValidIfSameRegister(page: seq<Bits8>, page': seq<Bits8>, rtype: nat)
    requires |page| == |page'| >= PROGRAM_BUFFER_MAX && Classify(page, rtype).Valid?
    requires CheckedFieldsSame(page, page') && page'[18..HEADER_SIZE] == page[18..HEADER_SIZE]
    requires PayloadSize(page') <= PAYLOAD_MAX
    ensures Classify(page', rtype).Valid? <==> Register(page'[..18], Payload(page')) == Register(page[..18], Payload(page))
  {
    MagicIsNotBlank(page');
    var x, y := Register(page'[..18], Payload(page')), Register(page[..18], Payload(page));
    XorCommutes(x, ALL_ONES);
    XorCommutes(y, ALL_ONES);
    XorDetermines(ALL_ONES, x, y);
  }

  /**
   Damage to the header that keeps the checked fields is unnoticed exactly when the bytes that
   the payload gains or loses make up for it in the register.
   */
  lemma SizeDamageUnnoticed(page: seq<Bits8>, page': seq<Bits8>, rtype: nat)
    requires |page| == |page'| >= PROGRAM_BUFFER_MAX && Classify(page, rtype).Valid?
    requires CheckedFieldsSame(page, page') && page'[18..] == page[18..]
    ensures Classify(page', rtype).Valid? <==> SizeEscapes(page, page')
  {
    hide Register, Ripple;
    var m := PayloadSize(page');
    TailSlice(page, 18, 18, HEADER_SIZE);
    TailSlice(page', 18, 18, HEADER_SIZE);
    if m <= PAYLOAD_MAX {
      TailSlice(page, 18, HEADER_SIZE, HEADER_SIZE + m);
      TailSlice(page', 18, HEADER_SIZE, HEADER_SIZE + m);
      ValidIfSameRegister(page, page', rtype);
      hide Classify, HeaderAccepted, CrcMatches, CheckedFieldsSame;
      if PayloadSize(page) <= m {
        GrownRegister(page, page');
      } else {
        ShrunkRegister(page, page');
      }
    }
  }

  lemma GrownRegister(page: seq<Bits8>, page': seq<Bits8>)
    requires |page| == |page'| >= PROGRAM_BUFFER_MAX && PayloadSize(page) <= PayloadSize(page') <= PAYLOAD_MAX
    requires Payload(page') == page[HEADER_SIZE..HEADER_SIZE + PayloadSize(page')]
    ensures Register(page'[..18], Payload(page')) == Register(page[..18], Payload(page)) <==> GrowthEscapes(page, page')
  {
    hide Register, Ripple;
    var gained := page[HEADER_SIZE + PayloadSize(page)..HEADER_SIZE + PayloadSize(page')];
    assert Payload(page') == Payload(page) + gained;
    RegisterAppend(page'[..18], Payload(page), gained);
    RegistersDiffer(page[..18], page'[..18], Payload(page));
  }

  lemma ShrunkRegister(page: seq<Bits8>, page': seq<Bits8>)
    requires |page| == |page'| >= PROGRAM_BUFFER_MAX && PayloadSize(page') < PayloadSize(page) <= PAYLOAD_MAX
    requires Payload(page') == page[HEADER_SIZE..HEADER_SIZE + PayloadSize(page')]
    ensures Register(page'[..18], Payload(page')) == Register(page[..18], Payload(page)) <==> ShrinkingEscapes(page, page')
  {
    hide Register, Ripple;
    var lost := page[HEADER_SIZE + PayloadSize(page')..HEADER_SIZE + PayloadSize(page)];
    assert Payload(page) == Payload(page') + lost;
    RegisterAppend(page[..18], Payload(page'), lost);
    RegistersDiffer(page[..18], page'[..18], Payload(page'));
  }

  // ---- Short damage, exactly ------------------------------------------------------------------

  /** Damage of up to four consecutive bytes of a valid record is unnoticed in the two ways described, and in no other. */
  lemma ShortDamageUnnoticed(page: seq<Bits8>, page': seq<Bits8>, rtype: nat, w: nat, n: nat)
    requires |page| >= PROGRAM_BUFFER_MAX && Classify(page, rtype).Valid?
    requires DamagedAt(page, page', w, n) && n <= 4 && w + n <= HEADER_SIZE + PayloadSize(page)
    ensures Classify(page', rtype) != Erased
    ensures Classify(page', rtype).Valid? <==>
              CheckedFieldsSame(page, page')
              && if page'[6..8] != page[6..8] then SizeEscapes(page, page') else w < HEADER_SIZE < w + n && EdgeEscapes(page, page')
  {
    hide SizeEscapes, EdgeEscapes;
    DamagedIsNotBlank(page, page', rtype, w, n);
    if !CheckedFieldsSame(page, page') {
      CheckedFieldChanged(page, page', rtype);
    } else if page'[6..8] != page[6..8] {
      if w >= 8 {
        SameField(page, page', w, n, 6, 8);
      }
      SameField(page, page', w, n, 18, |page|);
      SizeDamageUnnoticed(page, page', rtype);
    } else if w + n <= HEADER_SIZE || HEADER_SIZE <= w {
      ShortDamageIsNoticed(page, page', rtype, w, n);
    } else {
      SameField(page, page', w, n, 0, 18);
      EdgeDamageUnnoticed(page, page', rtype);
    }
  }

  // ---- A record and the one it could pass for --------------------------------------------------

  /** Four bytes behind a record that make it pass for one that is four bytes longer. */
  function MatchingTail(rtype: nat, sequence: nat, payload: seq<Bits8>): (tail: seq<Bits8>)
    ensures |tail| == 4
  {
    var longer := CrcFrom(ALL_ONES, Message(Prefix(rtype, sequence, |payload| + 4), payload));
    var target := CrcFrom(ALL_ONES, Message(Prefix(rtype, sequence, |payload|), payload));
    Chop(Xor(longer, Unrounds(target, 32)))
  }

  lemma MatchingBytes(crc: Bits32, target: Bits32)
    ensures |Chop(Xor(crc, Unrounds(target, 32)))| == 4
    ensures CrcFrom(crc, Chop(Xor(crc, Unrounds(target, 32)))) == target
  {
    var tail := Chop(Xor(crc, Unrounds(target, 32)));
    JoinChop(Xor(crc, Unrounds(target, 32)));
    assert Pack(tail) == Join(tail);
    AnyChecksumReachable(crc, tail, target);
  }

  lemma MatchingTailChecksum(rtype: nat, sequence: nat, payload: seq<Bits8>)
    ensures CrcField(Prefix(rtype, sequence, |payload| + 4), payload + MatchingTail(rtype, sequence, payload))
         == CrcField(Prefix(rtype, sequence, |payload|), payload)
  {
    hide Prefix, CrcFrom, Chop, Unrounds;
    var prefix, tail := Prefix(rtype, sequence, |payload| + 4), MatchingTail(rtype, sequence, payload);
    var longer := CrcFrom(ALL_ONES, Message(prefix, payload));
    var target := CrcFrom(ALL_ONES, Message(Prefix(rtype, sequence, |payload|), payload));
    MatchingBytes(longer, target);
    assert Message(prefix, payload + tail) == Message(prefix, payload) + tail;
    CrcFromAppend(ALL_ONES, Message(prefix, payload), tail);
  }

  /**
   Nothing but the bytes behind the record protects the size field: a size grown by four yields a
   valid, longer record for exactly one content of the four bytes.
   */
  lemma GrownByFour(page: seq<Bits8>, page': seq<Bits8>, rtype: nat, sequence: nat, payload: seq<Bits8>, tail: seq<Bits8>)
    requires |page| == |page'| >= PROGRAM_BUFFER_MAX && |payload| + 4 <= PAYLOAD_MAX && |tail| == 4
    requires rtype < 255 && sequence < 0x1_0000_0000
    requires HEADER_SIZE + |payload| + 4 <= |page|
    requires page[..HEADER_SIZE + |payload| + 4] == Record(rtype, sequence, payload) + tail
    requires page' == page[..6] + Bytes(|payload| + 4, 2) + page[8..]
    ensures DamagedAt(page, page', 6, 2) && Classify(page, rtype) == Valid(sequence, payload)
    ensures Classify(page', rtype).Valid? <==> tail == MatchingTail(rtype, sequence, payload)
    ensures Classify(page', rtype).Valid? ==> Classify(page', rtype) == Valid(sequence, payload + tail)
  {
    hide MatchingTail, Record, Bytes, Classify, Prefix;
    var size := |payload|;
    var record := Record(rtype, sequence, payload);
    assert page[..HEADER_SIZE + size] == record by {
      assert page[..HEADER_SIZE + size] == (record + tail)[..|record|];
    }
    RecordReadsBack(page, rtype, sequence, payload);
    SizesDiffer(page, page', rtype, sequence, payload);
    if tail == MatchingTail(rtype, sequence, payload) {
      MatchingTailChecksum(rtype, sequence, payload);
      LongerRecord(page, page', rtype, sequence, payload, tail);
      RecordReadsBack(page', rtype, sequence, payload + tail);
    } else if Classify(page', rtype).Valid? {
      OnlyMatchingTail(page, page', rtype, sequence, payload, tail);
    }
  }

  lemma OnlyMatchingTail(page: seq<Bits8>, page': seq<Bits8>, rtype: nat, sequence: nat, payload: seq<Bits8>, tail: seq<Bits8>)
    requires |page| == |page'| >= PROGRAM_BUFFER_MAX && |payload| + 4 <= PAYLOAD_MAX && |tail| == 4
    requires HEADER_SIZE + |payload| + 4 <= |page|
    requires page[..HEADER_SIZE + |payload| + 4] == Record(rtype, sequence, payload) + tail
    requires page' == page[..6] + Bytes(|payload| + 4, 2) + page[8..]
    requires Classify(page', rtype).Valid?
    ensures tail == MatchingTail(rtype, sequence, payload)
  {
    hide Prefix, Bytes, CrcFrom, Chop, Unrounds;
    var short, long := Prefix(rtype, sequence, |payload|), Prefix(rtype, sequence, |payload| + 4);
    var crc := CrcField(short, payload);
    assert Record(rtype, sequence, payload) + tail == short + (crc + (payload + tail));
    PrefixesAgree(rtype, sequence, |payload|, |payload| + 4);
    FieldReplaced(page, page', short, Bytes(|payload| + 4, 2), crc + (payload + tail));
    assert long + (crc + (payload + tail)) == long + crc + (payload + tail);
    RecordSlices(page', long, crc, payload + tail);
    FieldBounds();
    NumberOfBytes(|payload| + 4, 2);
    assert page'[6..8] == Bytes(|payload| + 4, 2);
    JoinChop(Crc32(Message(short, payload)));
    var x, y := Register(long, payload + tail), Register(short, payload);
    XorCommutes(x, ALL_ONES);
    XorCommutes(y, ALL_ONES);
    XorDetermines(ALL_ONES, x, y);
    RegisterAppend(long, payload, tail);
    MatchingBytes(Register(long, payload), y);
    ShortStringsDiffer(Register(long, payload), tail, MatchingTail(rtype, sequence, payload));
  }

  lemma LongerRecord(page: seq<Bits8>, page': seq<Bits8>, rtype: nat, sequence: nat, payload: seq<Bits8>, tail: seq<Bits8>)
    requires |tail| == 4 && HEADER_SIZE + |payload| + 4 <= |page|
    requires page[..HEADER_SIZE + |payload| + 4] == Record(rtype, sequence, payload) + tail
    requires page' == page[..6] + Bytes(|payload| + 4, 2) + page[8..]
    requires CrcField(Prefix(rtype, sequence, |payload| + 4), payload + tail) == CrcField(Prefix(rtype, sequence, |payload|), payload)
    ensures page'[..HEADER_SIZE + |payload| + 4] == Record(rtype, sequence, payload + tail)
  {
    hide Prefix, CrcField, Bytes;
    var short := Prefix(rtype, sequence, |payload|);
    var rest := CrcField(short, payload) + (payload + tail);
    assert Record(rtype, sequence, payload) + tail == short + rest;
    PrefixesAgree(rtype, sequence, |payload|, |payload| + 4);
    FieldReplaced(page, page', short, Bytes(|payload| + 4, 2), rest);
  }

  lemma FieldReplaced(page: seq<Bits8>, page': seq<Bits8>, prefix: seq<Bits8>, size: seq<Bits8>, rest: seq<Bits8>)
    requires |prefix| == 18 && |size| == 2 && 18 + |rest| <= |page|
    requires page[..18 + |rest|] == prefix + rest && page' == page[..6] + size + page[8..]
    ensures page'[..18 + |rest|] == prefix[..6] + size + prefix[8..] + rest
  {
    var end := 18 + |rest|;
    assert page'[..end] == page[..6] + size + page[8..end];
    assert page[..6] == page[..end][..6] == prefix[..6];
    assert page[8..end] == page[..end][8..] == prefix[8..] + rest;
  }

  /** Only the size field of the prefix depends on the size. */
  lemma PrefixesAgree(rtype: nat, sequence: nat, size: nat, size': nat)
    ensures Prefix(rtype, sequence, size') == Prefix(rtype, sequence, size)[..6] + Bytes(size', 2) + Prefix(rtype, sequence, size)[8..]
  {
  }

  lemma SizesDiffer(page: seq<Bits8>, page': seq<Bits8>, rtype: nat, sequence: nat, payload: seq<Bits8>)
    requires |page| == |page'| >= PROGRAM_BUFFER_MAX && |payload| + 4 <= PAYLOAD_MAX
    requires page' == page[..6] + Bytes(|payload| + 4, 2) + page[8..]
    requires Classify(page, rtype) == Valid(sequence, payload)
    ensures DamagedAt(page, page', 6, 2)
  {
    FieldBounds();
    NumberOfBytes(|payload| + 4, 2);
    assert page'[6..8] == Bytes(|payload| + 4, 2);
    assert Number(page[6..8]) == |payload|;
  }
}
