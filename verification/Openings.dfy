/** Opening any directory at all, whoever wrote it: what the snapshot and the segment must be, and what is reported. */
module Openings {
  import opened Bytes
  import opened Collections
  import opened Disks
  import opened LogReplay
  import opened Records
  import opened Snapshots
  import opened Store

  // ---------------------------------------------------------------------
  // The snapshot
  // ---------------------------------------------------------------------

  /** The file `snapshot` names holds the state after record `last`; 0 is the empty state, and a record may be followed by
      anything inside its file. */
  ghost predicate Base(d: Disk, snapshot: nat, last: nat, payload: seq<Byte>) {
    if snapshot == 0 then last == 0 && payload == []
    else
      var frame := Frame(SNAPSHOT_PAYLOAD, last, payload);
      && SnapshotFile(snapshot) in d.files && frame.Storable()
      && exists rest :: && |Encoded(frame)| + |rest| <= MAX_SNAPSHOT_BYTES
                        && d.files[SnapshotFile(snapshot)] == EncodeSnapshotFile(Encoded(frame) + rest)
  }

  lemma BaseReadExactly(d: Disk, snapshot: nat, last: nat, payload: seq<Byte>)
    ensures ReadBase(d, snapshot) == BaseRead(last, payload) <==> Base(d, snapshot, last, payload)
  {
    if snapshot != 0 && SnapshotFile(snapshot) in d.files {
      FileReadExactly(d.files[SnapshotFile(snapshot)], last, payload);
      hide Encoded, EncodeSnapshotFile, DecodeSnapshotFile, DecodeRecord, Frame.Storable;
    }
  }

  /** The bytes pass every check on a snapshot file. */
  predicate FileReads(raw: seq<Byte>, frame: Frame) {
    && |raw| <= MAX_SNAPSHOT_FILE_BYTES && DecodeSnapshotFile(raw).Contents?
    && var r := DecodeRecord(DecodeSnapshotFile(raw).payload); r.Decoded? && r.frame == frame
  }

  lemma FileReadExactly(raw: seq<Byte>, last: nat, payload: seq<Byte>)
    ensures var frame := Frame(SNAPSHOT_PAYLOAD, last, payload);
            FileReads(raw, frame) <==>
              && frame.Storable()
              && exists rest :: |Encoded(frame)| + |rest| <= MAX_SNAPSHOT_BYTES && raw == EncodeSnapshotFile(Encoded(frame) + rest)
  {
    hide Encoded, EncodeSnapshotFile, DecodeSnapshotFile, DecodeRecord, Frame.Storable;
    var frame := Frame(SNAPSHOT_PAYLOAD, last, payload);
    if FileReads(raw, frame) {
      SnapshotAccepted(raw);
      var record := DecodeSnapshotFile(raw).payload;
      DecodedIsEncoded(record);
      var n := |Encoded(frame)|;
      assert record == Encoded(frame) + record[n..];
    }
    if rest: seq<Byte> :|
      frame.Storable() && |Encoded(frame)| + |rest| <= MAX_SNAPSHOT_BYTES && raw == EncodeSnapshotFile(Encoded(frame) + rest)
    {
      SnapshotRoundTrip(Encoded(frame) + rest);
      EncodedDecodes(frame, Encoded(frame) + rest);
    }
  }

  // ---------------------------------------------------------------------
  // The segment
  // ---------------------------------------------------------------------

  /** Whole records with growing numbers, and what is behind them is none. */
  ghost predicate Segment(raw: seq<Byte>, frames: seq<Frame>, tail: seq<Byte>) {
    raw == Encodings(frames) + tail && AllStorable(frames) && Increasing(frames, None) && DecodeRecord(tail).Refused?
  }

  function StatusOf(tail: seq<Byte>): Status {
    match DecodeRecord(tail) case Refused(status) => status case Decoded(_, _) => NoMoreData
  }

  lemma {:induction false} ScanSegment(frames: seq<Frame>, tail: seq<Byte>, previous: Option<nat>)
    requires AllStorable(frames) && Increasing(frames, previous) && DecodeRecord(tail).Refused?
    ensures ScanLog(Encodings(frames) + tail, previous)
            == Scanned(frames, |Encodings(frames)|, Unfinished(StatusOf(tail)))
    decreases |frames|
  {
    hide DecodeRecord, Encoded, Frame.Storable;
    var bytes := Encodings(frames) + tail;
    if frames == [] {
      assert bytes == tail;
    } else {
      var first := frames[0];
      EncodedDecodes(first, bytes);
      assert bytes[|Encoded(first)|..] == Encodings(frames[1..]) + tail;
      ScanSegment(frames[1..], tail, Some(first.sequence));
    }
  }

  /** A number that does not grow stops the reading, whatever comes behind. */
  lemma {:induction false} ScanRegressed(frames: seq<Frame>, again: Frame, rest: seq<Byte>, previous: Option<nat>)
    requires AllStorable(frames) && Increasing(frames, previous) && again.Storable()
    requires if frames == [] then previous.Some? && again.sequence <= previous.value
             else again.sequence <= frames[|frames| - 1].sequence
    ensures ScanLog(Encodings(frames) + (Encoded(again) + rest), previous) == Scanned(frames, |Encodings(frames)|, Regressed)
    decreases |frames|
  {
    hide DecodeRecord, Encoded, Frame.Storable;
    var bytes := Encodings(frames) + (Encoded(again) + rest);
    if frames == [] {
      assert bytes == Encoded(again) + rest;
      EncodedDecodes(again, bytes);
    } else {
      var first := frames[0];
      EncodedDecodes(first, bytes);
      assert bytes[|Encoded(first)|..] == Encodings(frames[1..]) + (Encoded(again) + rest);
      ScanRegressed(frames[1..], again, rest, Some(first.sequence));
    }
  }

  /** The first `skipped` records are old news and the others are not. */
  ghost predicate SplitAt(frames: seq<Frame>, last: nat, skipped: nat) {
    && skipped <= |frames|
    && (forall i :: 0 <= i < skipped ==> frames[i].sequence <= last)
    && (forall i :: skipped <= i < |frames| ==> frames[i].sequence > last)
  }

  lemma {:induction false} AllFresh(frames: seq<Frame>, last: nat)
    requires Increasing(frames, Some(last))
    ensures Fresh(frames, last) == frames && Skipped(frames, last) == 0
  {
    if frames != [] {
      AllFresh(frames[1..], frames[0].sequence);
      assert frames == [frames[0]] + frames[1..];
    }
  }

  lemma {:induction false} FreshSplits(frames: seq<Frame>, last: nat)
    requires Increasing(frames, None)
    ensures SplitAt(frames, last, Skipped(frames, last)) && Fresh(frames, last) == frames[Skipped(frames, last)..]
  {
    if frames != [] {
      if frames[0].sequence > last {
        AllFresh(frames, last);
      } else {
        FreshSplits(frames[1..], last);
        SplitFurther(frames, last, Skipped(frames[1..], last));
      }
    }
  }

  lemma SplitFurther(frames: seq<Frame>, last: nat, skipped: nat)
    requires frames != [] && frames[0].sequence <= last && SplitAt(frames[1..], last, skipped)
    ensures SplitAt(frames, last, skipped + 1) && frames[1..][skipped..] == frames[skipped + 1..]
  {
    forall i | 0 <= i < |frames| ensures i < skipped + 1 ==> frames[i].sequence <= last
                                 ensures i >= skipped + 1 ==> frames[i].sequence > last
    {
      if i > 0 { assert frames[i] == frames[1..][i - 1]; }
    }
  }

  /** Any segment within its bound: read exactly when nothing is behind its records, or a torn one that may be cut off;
      then the records that are news are replayed, the others counted, and the tail measured and removed. */
  lemma SegmentReadExactly(allowTorn: bool, d: Disk, log: nat, last: nat, frames: seq<Frame>, tail: seq<Byte>)
    requires LogFile(log) in d.files && |d.files[LogFile(log)]| <= MAX_LOG_BYTES
    requires Segment(d.files[LogFile(log)], frames, tail)
    ensures var r := ReadLog(allowTorn, d, log, last);
      && (r.LogRead? <==> tail == [] || (allowTorn && DecodeRecord(tail) == Refused(TornTail)))
      && (r.LogRead? ==>
            && r.tornBytes == |tail| && SplitAt(frames, last, r.skipped) && r.replayed == frames[r.skipped..]
            && r.last == (if r.replayed == [] then last else frames[|frames| - 1].sequence)
            && r.repair == (if tail == [] then [] else [Replace(LogFile(log), Encodings(frames))]))
  {
    hide ScanLog, Fresh, Skipped, Encodings, Encoded, DecodeRecord, AllStorable, Increasing, SplitAt, LastOf;
    var raw := d.files[LogFile(log)];
    ScanSegment(frames, tail, None);
    FreshSplits(frames, last);
    assert raw[..|Encodings(frames)|] == Encodings(frames);
    Endings(tail);
    LastReplayed(frames, last, Skipped(frames, last));
  }

  /** Reading stops cleanly only when nothing is left. */
  lemma Endings(tail: seq<Byte>)
    requires DecodeRecord(tail).Refused?
    ensures Unfinished(StatusOf(tail)).Clean? <==> tail == []
    ensures Unfinished(StatusOf(tail)).Torn? <==> DecodeRecord(tail) == Refused(TornTail)
    ensures tail == [] ==> DecodeRecord(tail) == Refused(NoMoreData)
    ensures !Unfinished(StatusOf(tail)).Regressed?
  {
    if StatusOf(tail).NoMoreData? { EmptyOnly(tail); }
    if tail == [] { Nothing(tail); }
    hide DecodeRecord;
  }

  lemma LastReplayed(frames: seq<Frame>, last: nat, skipped: nat)
    requires SplitAt(frames, last, skipped)
    ensures LastOf(frames[skipped..], last) == if frames[skipped..] == [] then last else frames[|frames| - 1].sequence
  {
  }

  /** A number that does not grow refuses the segment. */
  lemma SegmentRegressed(allowTorn: bool, d: Disk, log: nat, last: nat, frames: seq<Frame>, again: Frame, rest: seq<Byte>)
    requires LogFile(log) in d.files && |d.files[LogFile(log)]| <= MAX_LOG_BYTES
    requires d.files[LogFile(log)] == Encodings(frames) + (Encoded(again) + rest)
    requires AllStorable(frames) && Increasing(frames, None) && again.Storable()
    requires frames != [] && again.sequence <= frames[|frames| - 1].sequence
    ensures ReadLog(allowTorn, d, log, last) == LogRefused(SequenceRegression)
  {
    hide ScanLog, Fresh, Skipped, Encodings, Encoded, DecodeRecord, AllStorable, Increasing, Frame.Storable;
    ScanRegressed(frames, again, rest, None);
  }

  // ---------------------------------------------------------------------
  // The store
  // ---------------------------------------------------------------------

  predicate RetainedInRange(options: Options) { 1 <= options.retained <= MAX_RETAINED }

  /** Opening what CURRENT names, given what is there. */
  lemma OpensExactly(options: Options, d: Disk, listing: Listing, last: nat, payload: seq<Byte>,
                     frames: seq<Frame>, tail: seq<Byte>)
    requires d.current.Some? && LogFile(d.current.value.log) in d.files
    requires |d.files[LogFile(d.current.value.log)]| <= MAX_LOG_BYTES
    requires Base(d, d.current.value.snapshot, last, payload) && Segment(d.files[LogFile(d.current.value.log)], frames, tail)
    ensures var plan := OpenPlan(options, d, listing);
      && (plan.Accepted? <==> && RetainedInRange(options) && d.current.value.log > 0
                              && (tail == [] || (options.allowTorn && DecodeRecord(tail) == Refused(TornTail))))
      && (plan.Accepted? ==>
            && SplitAt(frames, last, plan.recovery.skipped)
            && plan.recovery == Recovery(false, |tail|, plan.recovery.skipped, payload, frames[plan.recovery.skipped..])
            && plan.live.last == if plan.recovery.replayed == [] then last else frames[|frames| - 1].sequence)
  {
    hide ReadBase, ReadLog, Removals, Base, Segment, DecodeRecord, SplitAt;
    var p := d.current.value;
    BaseReadExactly(d, p.snapshot, last, payload);
    SegmentReadExactly(options.allowTorn, d, p.log, last, frames, tail);
  }

  /** Without CURRENT only an empty directory opens, as a new store. */
  lemma NewOpensExactly(options: Options, d: Disk, listing: Listing)
    requires d.current.None?
    ensures var plan := OpenPlan(options, d, listing);
      && (plan.Accepted? <==> RetainedInRange(options) && d.files == map[])
      && (plan.Accepted? ==> plan.live == Live(0, 1, 0) && plan.recovery == Recovery(true, 0, 0, [], []))
  {
    assert d.files.Keys == {} <==> d.files == map[];
  }

  /** With CURRENT and no such segment a missing one is made up as empty; without the snapshot it names nothing opens. */
  lemma MissingFiles(options: Options, d: Disk, listing: Listing, last: nat, payload: seq<Byte>)
    requires d.current.Some?
    ensures var plan := OpenPlan(options, d, listing);
      && (Base(d, d.current.value.snapshot, last, payload) && LogFile(d.current.value.log) !in d.files ==>
            && (plan.Accepted? <==> RetainedInRange(options) && d.current.value.log > 0)
            && (plan.Accepted? ==> plan.recovery == Recovery(false, 0, 0, payload, []) && plan.live.last == last))
      && ((forall l, s :: !Base(d, d.current.value.snapshot, l, s)) ==> plan.Declined?)
  {
    hide Removals, Base, DecodeRecord, ScanLog, ReadBase;
    BaseReadExactly(d, d.current.value.snapshot, last, payload);
    if ReadBase(d, d.current.value.snapshot).BaseRead? {
      var r := ReadBase(d, d.current.value.snapshot);
      BaseReadExactly(d, d.current.value.snapshot, r.last, r.payload);
    }
  }
}
