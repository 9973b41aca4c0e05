/** Durable record framing: a 28-byte little-endian header with its own checksum, then the payload. */
module Records {
  import opened Bytes
  import opened Crc32c

  const RECORD_MAGIC: nat := 0x4e46_4346
  const FORMAT_VERSION: nat := 1
  const HEADER_BYTES: nat := 28
  const MAX_PAYLOAD_BYTES: nat := 16 * 1024 * 1024
  const U32_BOUND: nat := 0x1_0000_0000
  const U64_BOUND: nat := 0x1_0000_0000_0000_0000
  const SNAPSHOT_PAYLOAD: nat := 14

  /** Record kinds are the codes 1 to 16. */
  predicate IsRecordType(raw: nat) { 1 <= raw <= 16 }

  type RecordType = raw: nat | IsRecordType(raw) witness 1

  datatype Frame = Frame(kind: nat, sequence: nat, payload: seq<Byte>) {
    /** What a caller can hand to the encoder: a kind of the enumeration and a 64-bit sequence. */
    predicate Typed() { IsRecordType(kind) && sequence < U64_BOUND }

    /** What the decoder admits. */
    predicate Storable() { Typed() && |payload| <= MAX_PAYLOAD_BYTES }
  }

  datatype Status = NoMoreData | TornTail | Corrupt | UnsupportedVersion | InvalidType | Oversized

  datatype Outcome =
    | Decoded(frame: Frame, consumed: nat)
    | Refused(status: Status)
  {
    /** An ending the log reader repairs instead of refusing. */
    predicate RecoverableTail() { Refused? && (status.NoMoreData? || status.TornTail?) }
  }

  // ---------------------------------------------------------------------
  // Encoding
  // ---------------------------------------------------------------------

  /** The header without its own checksum: 24 bytes. The length field keeps 32 bits. */
  function Preamble(f: Frame): (bytes: seq<Byte>)
    ensures |bytes| == 24
  {
    PutLE(RECORD_MAGIC, 4) + PutLE(FORMAT_VERSION, 2) + PutLE(f.kind, 2)
    + PutLE(|f.payload| % U32_BOUND, 4) + PutLE(f.sequence, 8) + PutCrc(CrcOf(f.payload))
  }

  function Encoded(f: Frame): (bytes: seq<Byte>)
    ensures |bytes| == HEADER_BYTES + |f.payload|
  {
    Preamble(f) + PutCrc(CrcOf(Preamble(f))) + f.payload
  }

  method EncodeRecord(kind: nat, sequence: nat, payload: seq<Byte>) returns (out: seq<Byte>)
    ensures out == Encoded(Frame(kind, sequence, payload))
  {
    hide CrcOf, PutLE, PutCrc;
    var payloadCrc := Compute(payload);
    var header := PutLE(RECORD_MAGIC, 4);
    header := header + PutLE(FORMAT_VERSION, 2);
    header := header + PutLE(kind, 2);
    header := header + PutLE(|payload| % U32_BOUND, 4);
    header := header + PutLE(sequence, 8);
    header := header + PutCrc(payloadCrc);
    var headerCrc := Compute(header);
    out := header + PutCrc(headerCrc);
    out := out + payload;
  }

  // ---------------------------------------------------------------------
  // Decoding
  // ---------------------------------------------------------------------

  /** The unsigned field of `n` bytes at offset `at`. */
  function Field(bytes: seq<Byte>, at: nat, n: nat): nat
    requires at + n <= |bytes|
  {
    GetLE(bytes[at..at + n])
  }

  function CrcField(bytes: seq<Byte>, at: nat): bv32
    requires at + 4 <= |bytes|
  {
    Word(bytes[at..at + 4])
  }

  /** The checks run in this order; each failure is reported before the next field is trusted. */
  function DecodeRecord(bytes: seq<Byte>): Outcome {
    if bytes == [] then Refused(NoMoreData)
    else if |bytes| < HEADER_BYTES then Refused(TornTail)
    else if Field(bytes, 0, 4) != RECORD_MAGIC then Refused(Corrupt)
    else if Field(bytes, 4, 2) != FORMAT_VERSION then Refused(UnsupportedVersion)
    else if !IsRecordType(Field(bytes, 6, 2)) then Refused(InvalidType)
    else if Field(bytes, 8, 4) > MAX_PAYLOAD_BYTES then Refused(Oversized)
    else if CrcOf(bytes[..24]) != CrcField(bytes, 24) then Refused(Corrupt)
    else
      var total := HEADER_BYTES + Field(bytes, 8, 4);
      if |bytes| < total then Refused(TornTail)
      else if CrcOf(bytes[HEADER_BYTES..total]) != CrcField(bytes, 20) then Refused(Corrupt)
      else Decoded(Frame(Field(bytes, 6, 2), Field(bytes, 12, 8), bytes[HEADER_BYTES..total]), total)
  }

  // ---------------------------------------------------------------------
  // Fields of an encoded record
  // ---------------------------------------------------------------------

  lemma FieldBounds()
    ensures Pow256(2) == 0x1_0000 && Pow256(4) == U32_BOUND && Pow256(8) == U64_BOUND
  {
    assert Pow256(2) == 0x1_0000;
    assert Pow256(4) == 0x1_0000 * 0x1_0000;
    assert Pow256(6) == 0x1_0000 * 0x1_0000 * 0x1_0000;
  }

  /** What the six fields of the preamble read back as. */
  lemma PreambleFields(f: Frame, bytes: seq<Byte>)
    requires f.Typed() && |bytes| >= 24 && bytes[..24] == Preamble(f)
    ensures Field(bytes, 0, 4) == RECORD_MAGIC && Field(bytes, 4, 2) == FORMAT_VERSION
    ensures Field(bytes, 6, 2) == f.kind && Field(bytes, 8, 4) == |f.payload| % U32_BOUND
    ensures Field(bytes, 12, 8) == f.sequence && CrcField(bytes, 20) == CrcOf(f.payload)
  {
    hide CrcOf, PutLE, PutCrc, GetLE, Word;
    var p := Preamble(f);
    assert p[0..4] == PutLE(RECORD_MAGIC, 4) && p[4..6] == PutLE(FORMAT_VERSION, 2);
    assert p[6..8] == PutLE(f.kind, 2) && p[8..12] == PutLE(|f.payload| % U32_BOUND, 4);
    assert p[12..20] == PutLE(f.sequence, 8) && p[20..24] == PutCrc(CrcOf(f.payload));
    FieldBounds();
    GetPut(RECORD_MAGIC, 4);
    GetPut(FORMAT_VERSION, 2);
    GetPut(f.kind, 2);
    GetPut(|f.payload| % U32_BOUND, 4);
    GetPut(f.sequence, 8);
    WordPut(CrcOf(f.payload));
    SamePrefix(bytes, p, 0, 4);
    SamePrefix(bytes, p, 4, 6);
    SamePrefix(bytes, p, 6, 8);
    SamePrefix(bytes, p, 8, 12);
    SamePrefix(bytes, p, 12, 20);
    SamePrefix(bytes, p, 20, 24);
  }

  lemma SamePrefix(bytes: seq<Byte>, p: seq<Byte>, lo: nat, hi: nat)
    requires p <= bytes && lo <= hi <= |p|
    ensures bytes[lo..hi] == p[lo..hi]
  {
  }

  /** Fields read from a buffer put its first 24 bytes back together. */
  lemma PreambleRebuilt(bytes: seq<Byte>, f: Frame)
    requires |bytes| >= 24 && Field(bytes, 0, 4) == RECORD_MAGIC && Field(bytes, 4, 2) == FORMAT_VERSION
    requires f.kind == Field(bytes, 6, 2) && |f.payload| == Field(bytes, 8, 4) < U32_BOUND
    requires f.sequence == Field(bytes, 12, 8) && CrcOf(f.payload) == CrcField(bytes, 20)
    ensures bytes[..24] == Preamble(f) && f.sequence < U64_BOUND
  {
    hide CrcOf, PutLE, PutCrc, GetLE, Word;
    FieldBounds();
    PutGet(bytes[0..4]);
    PutGet(bytes[4..6]);
    PutGet(bytes[6..8]);
    PutGet(bytes[8..12]);
    PutGet(bytes[12..20]);
    PutWord(bytes[20..24]);
    assert bytes[..24] == bytes[0..4] + bytes[4..6] + bytes[6..8] + bytes[8..12] + bytes[12..20] + bytes[20..24];
  }

  // ---------------------------------------------------------------------
  // Decoding and encoding undo each other
  // ---------------------------------------------------------------------

  lemma EncodedDecodes(f: Frame, bytes: seq<Byte>)
    requires f.Storable() && Encoded(f) <= bytes
    ensures DecodeRecord(bytes) == Decoded(f, |Encoded(f)|)
  {
    hide CrcOf, Preamble, Field, PutCrc, Word;
    var e := Encoded(f);
    var p := Preamble(f);
    assert bytes[..24] == p by { assert e[..24] == p; SamePrefix(bytes, e, 0, 24); }
    PreambleFields(f, bytes);
    assert bytes[24..28] == PutCrc(CrcOf(p)) by { assert e[24..28] == PutCrc(CrcOf(p)); SamePrefix(bytes, e, 24, 28); }
    WordPut(CrcOf(p));
    assert bytes[28..|e|] == f.payload by { assert e[28..|e|] == f.payload; SamePrefix(bytes, e, 28, |e|); }
  }

  lemma DecodedIsEncoded(bytes: seq<Byte>)
    requires DecodeRecord(bytes).Decoded?
    ensures var r := DecodeRecord(bytes);
            r.frame.Storable() && r.consumed == |Encoded(r.frame)| <= |bytes|
            && bytes[..r.consumed] == Encoded(r.frame)
  {
    hide CrcOf, Preamble, Field, PutCrc, Word;
    var r := DecodeRecord(bytes);
    var f, n := r.frame, r.consumed;
    PreambleRebuilt(bytes, f);
    PutWord(bytes[24..28]);
    assert bytes[..n] == bytes[..24] + bytes[24..28] + bytes[28..n];
  }

  /** A buffer decodes to a frame exactly when it starts with that frame's encoding. */
  lemma DecodesExactly(bytes: seq<Byte>, f: Frame, n: nat)
    ensures DecodeRecord(bytes) == Decoded(f, n)
            <==> f.Storable() && n == |Encoded(f)| && Encoded(f) <= bytes
  {
    hide Encoded, DecodeRecord;
    if DecodeRecord(bytes) == Decoded(f, n) {
      DecodedIsEncoded(bytes);
    }
    if f.Storable() && n == |Encoded(f)| && Encoded(f) <= bytes {
      EncodedDecodes(f, bytes);
    }
  }

  /** A record cut anywhere inside is a torn tail, never a record and never corruption. */
  lemma StrictPrefixTorn(f: Frame, k: nat)
    requires f.Storable() && 0 < k < |Encoded(f)|
    ensures DecodeRecord(Encoded(f)[..k]) == Refused(TornTail)
  {
    hide CrcOf, Preamble, Field, PutCrc, Word;
    var e := Encoded(f);
    var cut := e[..k];
    var p := Preamble(f);
    if k >= HEADER_BYTES {
      assert cut[..24] == p by { assert e[..24] == p; SamePrefix(e, cut, 0, 24); }
      PreambleFields(f, cut);
      assert cut[24..28] == PutCrc(CrcOf(p)) by { assert e[24..28] == PutCrc(CrcOf(p)); SamePrefix(e, cut, 24, 28); }
      WordPut(CrcOf(p));
    }
  }

  /** The encoder takes payloads the decoder refuses: reading back succeeds exactly up to the bound. */
  lemma OversizedRefused(f: Frame, rest: seq<Byte>)
    requires f.Typed() && |f.payload| < U32_BOUND
    ensures DecodeRecord(Encoded(f) + rest).Decoded? <==> |f.payload| <= MAX_PAYLOAD_BYTES
    ensures |f.payload| > MAX_PAYLOAD_BYTES ==> DecodeRecord(Encoded(f) + rest) == Refused(Oversized)
  {
    hide CrcOf, Preamble, Field, PutCrc, Word;
    var bytes, e := Encoded(f) + rest, Encoded(f);
    if |f.payload| <= MAX_PAYLOAD_BYTES {
      EncodedDecodes(f, bytes);
    } else {
      assert bytes[..24] == Preamble(f) by { assert e[..24] == Preamble(f); SamePrefix(bytes, e, 0, 24); }
      PreambleFields(f, bytes);
    }
  }

  // ---------------------------------------------------------------------
  // Damage
  // ---------------------------------------------------------------------

  /** Damage to the header or its checksum, or across both: the header checksum fails. */
  lemma HeaderDamage(f: Frame, damaged: seq<Byte>, k: nat)
    requires f.Storable() && |damaged| >= 28 && k <= 28
    requires DifferWithin(Encoded(f)[..28], damaged[..28], k) && damaged[..28] != Encoded(f)[..28]
    ensures DecodeRecord(damaged).Refused? && !DecodeRecord(damaged).RecoverableTail()
  {
    hide CrcOf, Preamble, Field, PutCrc, Word, DifferWithin;
    var p, h := Preamble(f), damaged[..24];
    assert Encoded(f)[..28] == p + PutCrc(CrcOf(p));
    if CrcOf(h) == CrcField(damaged, 24) {
      PutWord(damaged[24..28]);
      assert damaged[..28] == h + PutCrc(CrcOf(h));
      SealedDiffer(p, h, k);
    }
  }

  lemma PayloadDamage(f: Frame, damaged: seq<Byte>, k: nat)
    requires f.Storable() && |damaged| >= |Encoded(f)| && k <= |f.payload|
    requires damaged[..28] == Encoded(f)[..28]
    requires DifferWithin(f.payload, damaged[28..|Encoded(f)|], k) && damaged[28..|Encoded(f)|] != f.payload
    ensures DecodeRecord(damaged).Refused? && !DecodeRecord(damaged).RecoverableTail()
  {
    hide CrcOf, Preamble, Field, PutCrc, Word, DifferWithin;
    var e, p := Encoded(f), Preamble(f);
    assert damaged[..24] == p by {
      assert e[..28][..24] == p && damaged[..28][..24] == damaged[..24];
    }
    PreambleFields(f, damaged);
    BurstDetected(f.payload, damaged[28..|e|], k);
  }

  /** Damage inside one window of at most four bytes, wherever the window lies, is always refused, and never
      taken for the torn tail that recovery would repair. */
  lemma DamageRefused(f: Frame, damaged: seq<Byte>, k: nat, rest: seq<Byte>)
    requires f.Storable() && DifferWithin(Encoded(f), damaged, k) && damaged != Encoded(f)
    ensures DecodeRecord(damaged + rest).Refused? && !DecodeRecord(damaged + rest).RecoverableTail()
  {
    hide CrcOf, Preamble, Field, PutCrc, Word, DecodeRecord;
    var e, d := Encoded(f), damaged + rest;
    assert d[..28] == damaged[..28] && d[28..|e|] == damaged[28..] && e[28..] == f.payload;
    if damaged[..28] != e[..28] {
      assert DifferWithin(e[..28], d[..28], k);
      HeaderDamage(f, d, if k <= 28 then k else 28);
    } else {
      assert damaged == damaged[..28] + damaged[28..] && e == e[..28] + e[28..];
      var j: nat := if k <= 28 then 0 else k - 28;
      assert DifferWithin(f.payload, damaged[28..], j);
      PayloadDamage(f, d, j);
    }
  }

  /** No change of a single byte anywhere in a stored record goes unnoticed. */
  lemma OneByteRefused(f: Frame, i: nat, b: Byte, rest: seq<Byte>)
    requires f.Storable() && i < |Encoded(f)| && b != Encoded(f)[i]
    ensures var r := DecodeRecord(Encoded(f)[i := b] + rest); r.Refused? && !r.RecoverableTail()
  {
    hide Encoded, DecodeRecord;
    assert DifferWithin(Encoded(f), Encoded(f)[i := b], i);
    DamageRefused(f, Encoded(f)[i := b], i, rest);
  }
}
