/** Reading a log segment: what its bytes say, and what a sequence of appended records leaves in it. */
module LogReplay {
  import opened Bytes
  import opened Collections
  import opened Records

  datatype Ending = Clean | Torn | Damaged | Unsupported | Regressed

  /** The frames read in order, the bytes they take, and why reading stopped. */
  datatype Scanned = Scanned(frames: seq<Frame>, consumed: nat, ending: Ending)

  function Unfinished(status: Status): Ending {
    match status
    case NoMoreData => Clean
    case TornTail => Torn
    case UnsupportedVersion => Unsupported
    case _ => Damaged
  }

  /** Reads records from the front; each sequence must exceed the one before. */
  function ScanLog(bytes: seq<Byte>, previous: Option<nat>): (s: Scanned)
    ensures s.consumed <= |bytes|
    decreases |bytes|
  {
    match DecodeRecord(bytes)
    case Refused(status) => Scanned([], 0, Unfinished(status))
    case Decoded(frame, consumed) =>
      if previous.Some? && !(previous.value < frame.sequence) then Scanned([], 0, Regressed)
      else
        var rest := ScanLog(bytes[consumed..], Some(frame.sequence));
        Scanned([frame] + rest.frames, consumed + rest.consumed, rest.ending)
  }

  /** The frames that are news to a store which has already applied sequence `last`. */
  function Fresh(frames: seq<Frame>, last: nat): seq<Frame> {
    if frames == [] then []
    else if frames[0].sequence > last then [frames[0]] + Fresh(frames[1..], frames[0].sequence)
    else Fresh(frames[1..], last)
  }

  function LastOf(frames: seq<Frame>, last: nat): nat {
    if frames == [] then last else frames[|frames| - 1].sequence
  }

  /** The bytes that appending the frames one after the other leaves. */
  function Encodings(frames: seq<Frame>): seq<Byte> {
    if frames == [] then [] else Encoded(frames[0]) + Encodings(frames[1..])
  }

  /** Storable frames numbered `base + 1`, `base + 2`, and so on. */
  ghost predicate Numbered(frames: seq<Frame>, base: nat) {
    forall i :: 0 <= i < |frames| ==> frames[i].Storable() && frames[i].sequence == base + 1 + i
  }

  /** What a crashed append can leave behind a complete log: nothing, or part of one record. */
  ghost predicate Partial(torn: seq<Byte>, frame: Frame) {
    frame.Storable() && torn < Encoded(frame)
  }

  lemma {:induction false} EncodingsAppend(frames: seq<Frame>, frame: Frame)
    ensures Encodings(frames + [frame]) == Encodings(frames) + Encoded(frame)
  {
    hide Encoded;
    if frames == [] {
      assert [frame][1..] == [] && Encodings([]) == [];
    } else {
      EncodingsAppend(frames[1..], frame);
      assert (frames + [frame])[1..] == frames[1..] + [frame];
    }
  }

  lemma PartialRefused(torn: seq<Byte>, frame: Frame)
    requires Partial(torn, frame)
    ensures DecodeRecord(torn) == Refused(if torn == [] then NoMoreData else TornTail)
  {
    hide Encoded;
    if torn != [] {
      StrictPrefixTorn(frame, |torn|);
      assert Encoded(frame)[..|torn|] == torn;
    }
    hide DecodeRecord;
    if torn == [] { Nothing(torn); }
  }

  lemma Nothing(bytes: seq<Byte>)
    requires bytes == []
    ensures DecodeRecord(bytes) == Refused(NoMoreData)
  {
  }

  /** Reading a segment gives back exactly the records appended to it, whatever the last append left. */
  lemma {:induction false} ScanFindsAll(frames: seq<Frame>, base: nat, previous: Option<nat>, torn: seq<Byte>, frame: Frame)
    requires Numbered(frames, base) && Partial(torn, frame)
    requires previous.Some? ==> previous.value <= base
    ensures ScanLog(Encodings(frames) + torn, previous)
            == Scanned(frames, |Encodings(frames)|, if torn == [] then Clean else Torn)
    decreases |frames|
  {
    hide DecodeRecord, Encoded, Partial;
    var bytes := Encodings(frames) + torn;
    if frames == [] {
      assert bytes == torn;
      PartialRefused(torn, frame);
    } else {
      var first := frames[0];
      EncodedDecodes(first, bytes);
      assert bytes[|Encoded(first)|..] == Encodings(frames[1..]) + torn;
      ScanFindsAll(frames[1..], base + 1, Some(first.sequence), torn, frame);
    }
  }

  lemma {:induction false} NumberedAllFresh(frames: seq<Frame>, base: nat)
    requires Numbered(frames, base)
    ensures Fresh(frames, base) == frames && LastOf(frames, base) == base + |frames|
    decreases |frames|
  {
    if frames != [] {
      NumberedAllFresh(frames[1..], base + 1);
      assert frames == [frames[0]] + frames[1..];
    }
  }

  // ---------------------------------------------------------------------
  // Any bytes at all
  // ---------------------------------------------------------------------

  /** Strictly increasing sequences, all above `previous`. */
  ghost predicate Increasing(frames: seq<Frame>, previous: Option<nat>) {
    && (previous.Some? && frames != [] ==> previous.value < frames[0].sequence)
    && forall i, j :: 0 <= i < j < |frames| ==> frames[i].sequence < frames[j].sequence
  }

  ghost predicate AllStorable(frames: seq<Frame>) {
    forall i :: 0 <= i < |frames| ==> frames[i].Storable()
  }

  /** What is accepted of any bytes: the encoding of strictly increasing storable frames. */
  ghost predicate Genuine(bytes: seq<Byte>, previous: Option<nat>, s: Scanned)
    requires s.consumed <= |bytes|
  {
    && bytes[..s.consumed] == Encodings(s.frames)
    && Increasing(s.frames, previous) && AllStorable(s.frames)
    && (s.ending.Clean? ==> s.consumed == |bytes|)
  }

  lemma {:induction false} ScanGenuine(bytes: seq<Byte>, previous: Option<nat>)
    ensures Genuine(bytes, previous, ScanLog(bytes, previous))
    decreases |bytes|
  {
    hide DecodeRecord, Encoded, Frame.Storable, Genuine;
    var r := DecodeRecord(bytes);
    if r.Refused? {
      if r.status.NoMoreData? { EmptyOnly(bytes); }
      NothingGenuine(bytes, previous, Unfinished(r.status));
    } else {
      DecodedIsEncoded(bytes);
      if previous.Some? && !(previous.value < r.frame.sequence) {
        NothingGenuine(bytes, previous, Regressed);
      } else {
        ScanGenuine(bytes[r.consumed..], Some(r.frame.sequence));
        var rest := ScanLog(bytes[r.consumed..], Some(r.frame.sequence));
        JoinedGenuine(bytes, previous, r, rest);
      }
    }
  }

  lemma NothingGenuine(bytes: seq<Byte>, previous: Option<nat>, ending: Ending)
    requires ending.Clean? ==> bytes == []
    ensures Genuine(bytes, previous, Scanned([], 0, ending))
  {
  }

  lemma EmptyOnly(bytes: seq<Byte>)
    requires DecodeRecord(bytes) == Refused(NoMoreData)
    ensures bytes == []
  {
  }

  lemma JoinedGenuine(bytes: seq<Byte>, previous: Option<nat>, r: Outcome, rest: Scanned)
    requires r.Decoded? && r.consumed <= |bytes| && bytes[..r.consumed] == Encoded(r.frame) && r.frame.Storable()
    requires previous.Some? ==> previous.value < r.frame.sequence
    requires rest.consumed <= |bytes| - r.consumed
    requires Genuine(bytes[r.consumed..], Some(r.frame.sequence), rest)
    ensures Genuine(bytes, previous, Scanned([r.frame] + rest.frames, r.consumed + rest.consumed, rest.ending))
  {
    hide Encoded, Frame.Storable;
    var frames := [r.frame] + rest.frames;
    assert frames[1..] == rest.frames;
    assert bytes[..r.consumed + rest.consumed] == bytes[..r.consumed] + bytes[r.consumed..][..rest.consumed];
    forall i, j | 0 <= i < j < |frames| ensures frames[i].sequence < frames[j].sequence {
      assert frames[j] == rest.frames[j - 1];
      if i > 0 { assert frames[i] == rest.frames[i - 1]; }
    }
  }
}
