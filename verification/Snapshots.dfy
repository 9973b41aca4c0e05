/** Snapshot files: an 18-byte prefix with magic, version, length and checksum, then one framed record. */
module Snapshots {
  import opened Bytes
  import opened Crc32c
  import opened Records

  const MAX_SNAPSHOT_BYTES: nat := 256 * 1024 * 1024
  const SNAPSHOT_VERSION: nat := 1
  const PREFIX_BYTES: nat := 18

  datatype StoreError =
    | Corrupt | VersionUnsupported | LimitExceeded | TrailingGarbage | NotFound | SequenceRegression | Exhausted | InvalidArgument

  datatype Contents = Contents(payload: seq<Byte>) | Unreadable(error: StoreError)

  /** "FCFNSNAP" */
  function SnapshotMagic(): seq<Byte> {
    [0x46, 0x43, 0x46, 0x4e, 0x53, 0x4e, 0x41, 0x50]
  }

  function EncodeSnapshotFile(payload: seq<Byte>): (bytes: seq<Byte>)
    ensures |bytes| == PREFIX_BYTES + |payload|
  {
    SnapshotMagic() + PutLE(SNAPSHOT_VERSION, 2) + PutLE(|payload| % U32_BOUND, 4) + PutCrc(CrcOf(payload)) + payload
  }

  function DecodeSnapshotFile(bytes: seq<Byte>): Contents {
    if |bytes| < PREFIX_BYTES then Unreadable(StoreError.Corrupt)
    else if bytes[..8] != SnapshotMagic() then Unreadable(StoreError.Corrupt)
    else if Field(bytes, 8, 2) != SNAPSHOT_VERSION then Unreadable(VersionUnsupported)
    else if Field(bytes, 10, 4) > MAX_SNAPSHOT_BYTES then Unreadable(LimitExceeded)
    else
      var expected := PREFIX_BYTES + Field(bytes, 10, 4);
      if |bytes| < expected then Unreadable(StoreError.Corrupt)
      else if |bytes| > expected then Unreadable(TrailingGarbage)
      else if CrcOf(bytes[PREFIX_BYTES..expected]) != CrcField(bytes, 14) then Unreadable(StoreError.Corrupt)
      else Contents(bytes[PREFIX_BYTES..expected])
  }

  lemma PrefixFields(payload: seq<Byte>)
    ensures var e := EncodeSnapshotFile(payload);
            e[..8] == SnapshotMagic() && Field(e, 8, 2) == SNAPSHOT_VERSION && Field(e, 10, 4) == |payload| % U32_BOUND
            && CrcField(e, 14) == CrcOf(payload) && e[PREFIX_BYTES..] == payload
  {
    hide CrcOf, PutLE, PutCrc, GetLE, Word;
    var e := EncodeSnapshotFile(payload);
    assert e[..8] == SnapshotMagic() && e[8..10] == PutLE(SNAPSHOT_VERSION, 2);
    assert e[10..14] == PutLE(|payload| % U32_BOUND, 4) && e[14..18] == PutCrc(CrcOf(payload));
    FieldBounds();
    GetPut(SNAPSHOT_VERSION, 2);
    GetPut(|payload| % U32_BOUND, 4);
    WordPut(CrcOf(payload));
  }

  /** A snapshot file reads back exactly when its payload is within the bound. */
  lemma SnapshotRoundTrip(payload: seq<Byte>)
    requires |payload| < U32_BOUND
    ensures DecodeSnapshotFile(EncodeSnapshotFile(payload))
            == if |payload| <= MAX_SNAPSHOT_BYTES then Contents(payload) else Unreadable(LimitExceeded)
  {
    PrefixFields(payload);
    hide CrcOf, Field, CrcField, EncodeSnapshotFile, SnapshotMagic;
    assert EncodeSnapshotFile(payload)[PREFIX_BYTES..PREFIX_BYTES + |payload|] == payload;
  }

  /** Nothing but the encoding of a payload within the bound is ever accepted. */
  lemma SnapshotAccepted(bytes: seq<Byte>)
    requires DecodeSnapshotFile(bytes).Contents?
    ensures var payload := DecodeSnapshotFile(bytes).payload;
            bytes == EncodeSnapshotFile(payload) && |payload| <= MAX_SNAPSHOT_BYTES
  {
    hide CrcOf, PutLE, PutCrc, GetLE, Word;
    FieldBounds();
    PutGet(bytes[8..10]);
    PutGet(bytes[10..14]);
    PutWord(bytes[14..18]);
    assert bytes == bytes[..8] + bytes[8..10] + bytes[10..14] + bytes[14..18] + bytes[18..];
    var payload := DecodeSnapshotFile(bytes).payload;
    assert bytes[18..] == payload;
  }
}
