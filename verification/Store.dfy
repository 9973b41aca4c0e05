/** The durable store: a write-ahead log segment, a snapshot, and the CURRENT file that names both.
    Each operation is given as the effects it will have on the disk, in order; the class performs them. */
module Store {
  import opened Bytes
  import opened Collections
  import opened Disks
  import opened LogReplay
  import opened Records
  import opened Snapshots
  import Sorting

  const MAX_RETAINED: nat := 4
  const MAX_LOG_BYTES: nat := 512 * 1024 * 1024
  const MAX_SNAPSHOT_FILE_BYTES: nat := MAX_SNAPSHOT_BYTES + 64

  datatype Options = Options(retained: nat, allowTorn: bool)

  /** The fields of an open store: last sequence, active segment, current snapshot (0 for none). */
  datatype Live = Live(last: nat, log: nat, snapshot: nat)

  /** What opening reports to the runtime. */
  datatype Recovery = Recovery(isNew: bool, tornBytes: nat, skipped: nat, snapshotPayload: seq<Byte>, replayed: seq<Frame>)

  const NO_RECOVERY := Recovery(false, 0, 0, [], [])

  /** The numbers read off the file names of the directory, whatever they are. */
  datatype Listing = Listing(snapshots: seq<nat>, logs: seq<nat>)

  datatype Planned =
    | Accepted(effects: seq<Effect>, live: Live, recovery: Recovery)
    | Declined(error: StoreError)

  // ---------------------------------------------------------------------
  // Commit
  // ---------------------------------------------------------------------

  function CommitPlan(live: Live, recovery: Recovery, kind: RecordType, payload: seq<Byte>): Planned {
    if |payload| > MAX_PAYLOAD_BYTES then Declined(LimitExceeded)
    else if live.last + 1 >= U64_BOUND then Declined(Exhausted)
    else
      Accepted([Append(LogFile(live.log), Encoded(Frame(kind, live.last + 1, payload)))],
               live.(last := live.last + 1), recovery)
  }

  // ---------------------------------------------------------------------
  // Cleanup
  // ---------------------------------------------------------------------

  predicate Below(a: nat, b: nat) { a < b }

  function InOrder(s: seq<nat>): seq<nat> { Sorting.SortBy(Below, s) }

  /** Drops the oldest listed snapshots beyond the retained number, except the current one. */
  function SnapshotRemovals(snapshots: seq<nat>, retained: nat, current: nat): seq<Effect>
    decreases |snapshots|
  {
    if |snapshots| <= retained then []
    else (if snapshots[0] == current then [] else [Remove(SnapshotFile(snapshots[0]))])
         + SnapshotRemovals(snapshots[1..], retained, current)
  }

  /** Drops the listed segments before the active one. */
  function LogRemovals(logs: seq<nat>, active: nat): seq<Effect>
    decreases |logs|
  {
    if logs == [] then []
    else (if logs[0] >= active then [] else [Remove(LogFile(logs[0]))]) + LogRemovals(logs[1..], active)
  }

  function Removals(retained: nat, live: Live, listing: Listing): seq<Effect> {
    SnapshotRemovals(InOrder(listing.snapshots), retained, live.snapshot)
    + LogRemovals(InOrder(listing.logs), live.log)
  }

  // ---------------------------------------------------------------------
  // What a finished cleanup leaves
  // ---------------------------------------------------------------------

  /** How many entries of the listing are `n` or greater. */
  function AtLeast(listed: seq<nat>, n: nat): nat {
    if listed == [] then 0 else (if listed[0] >= n then 1 else 0) + AtLeast(listed[1..], n)
  }

  /** A snapshot has lost its place to newer ones: `retained` further entries are as great. */
  predicate Superseded(retained: nat, live: Live, listing: Listing, n: nat) {
    n in listing.snapshots && n != live.snapshot && AtLeast(listing.snapshots, n) > retained
  }

  /** From `before` to `after` only superseded snapshots and listed segments older than the active one are gone. */
  ghost predicate Cleaned(retained: nat, live: Live, listing: Listing, before: Disk, after: Disk) {
    && after.current == before.current
    && (forall name <- after.files :: name in before.files && after.files[name] == before.files[name])
    && (forall n: nat :: SnapshotFile(n) in before.files ==>
          (SnapshotFile(n) !in after.files <==> Superseded(retained, live, listing, n)))
    && (forall n: nat :: LogFile(n) in before.files ==>
          (LogFile(n) !in after.files <==> n in listing.logs && n < live.log))
  }

  /** The disk with a snapshot of `payload` and an empty segment under the numbers of `live`, both published. */
  function WithSnapshot(d: Disk, live: Live, payload: seq<Byte>): Disk {
    Disk(d.files[SnapshotFile(live.snapshot) := SnapshotBytes(live.last, payload)][LogFile(live.log) := []],
         Some(Pointer(live.snapshot, live.log)))
  }

  /** The disk with the whole records of a segment and nothing behind them. */
  function Mended(d: Disk, log: nat): Disk {
    var raw := FileBytes(d, LogFile(log));
    d.(files := d.files[LogFile(log) := raw[..ScanLog(raw, None).consumed]])
  }

  /** Among different numbers a place is lost to `retained` greater ones. */
  lemma SupersededDistinct(retained: nat, live: Live, listing: Listing, n: nat)
    requires Distinct(listing.snapshots)
    ensures Superseded(retained, live, listing, n)
            <==> n in listing.snapshots && n != live.snapshot && |Newer(listing.snapshots, n)| >= retained
  {
    if n in listing.snapshots { AtLeastCounts(listing.snapshots, n); }
  }

  function Newer(listed: seq<nat>, n: nat): set<nat> {
    set x | x in listed && x > n
  }

  lemma HeadApart(listed: seq<nat>)
    requires listed != [] && Distinct(listed)
    ensures listed[0] !in listed[1..] && Distinct(listed[1..])
  {
    assert forall j :: 0 <= j < |listed| - 1 ==> listed[1..][j] == listed[j + 1];
  }

  lemma NewerHead(listed: seq<nat>, n: nat)
    requires listed != []
    ensures Newer(listed, n) == Newer(listed[1..], n) + if listed[0] > n then {listed[0]} else {}
    ensures n in listed <==> n == listed[0] || n in listed[1..]
  {
    assert listed == [listed[0]] + listed[1..];
  }

  lemma {:induction false} AtLeastCounts(listed: seq<nat>, n: nat)
    requires Distinct(listed)
    ensures AtLeast(listed, n) == |Newer(listed, n)| + if n in listed then 1 else 0
  {
    if listed != [] {
      HeadApart(listed);
      NewerHead(listed, n);
      hide Distinct;
      AtLeastCounts(listed[1..], n);
    }
  }

  lemma {:induction false} AtLeastInserted(s: seq<nat>, x: nat, n: nat)
    ensures AtLeast(Sorting.InsertBy(Below, s, x), n) == AtLeast(s, n) + if x >= n then 1 else 0
  {
    if s == [] || !Below(s[0], x) {
      assert ([x] + s)[1..] == s;
    } else {
      AtLeastInserted(s[1..], x, n);
    }
  }

  lemma {:induction false} AtLeastInOrder(s: seq<nat>, n: nat)
    ensures AtLeast(InOrder(s), n) == AtLeast(s, n)
  {
    if s != [] {
      AtLeastInOrder(s[1..], n);
      AtLeastInserted(InOrder(s[1..]), s[0], n);
    }
  }

  lemma InOrderSorts(s: seq<nat>)
    ensures NonDescending(InOrder(s)) && multiset(InOrder(s)) == multiset(s)
    ensures forall n :: n in InOrder(s) <==> n in s
  {
    assert Sorting.StrictWeak(Below);
    Sorting.SortBySorted(Below, s);
    var r := InOrder(s);
    assert forall i, j :: 0 <= i < j < |r| ==> !Below(r[j], r[i]);
    assert forall n :: n in r <==> n in multiset(r);
  }

  lemma {:induction false} AtLeastAll(s: seq<nat>, n: nat)
    requires forall i :: 0 <= i < |s| ==> s[i] >= n
    ensures AtLeast(s, n) == |s|
  {
    if s != [] { AtLeastAll(s[1..], n); }
  }

  /** The removals of an ascending listing. */
  lemma {:induction false} SnapshotsRemoved(s: seq<nat>, retained: nat, current: nat, e: Effect)
    requires NonDescending(s)
    ensures e in SnapshotRemovals(s, retained, current)
            <==> e.Remove? && e.name.SnapshotFile? && e.name.number != current
                 && e.name.number in s && AtLeast(s, e.name.number) > retained
  {
    if |s| > retained {
      assert s == [s[0]] + s[1..];
      SnapshotsRemoved(s[1..], retained, current, e);
      if e == Remove(SnapshotFile(s[0])) { AtLeastAll(s, s[0]); }
    } else if e.Remove? {
      AtLeastBounded(s, e.name.number);
    }
  }

  lemma {:induction false} AtLeastBounded(s: seq<nat>, n: nat)
    ensures AtLeast(s, n) <= |s|
  {
    if s != [] { AtLeastBounded(s[1..], n); }
  }

  lemma {:induction false} LogsRemoved(s: seq<nat>, active: nat, e: Effect)
    ensures e in LogRemovals(s, active) <==> e.Remove? && e.name.LogFile? && e.name.number in s && e.name.number < active
  {
    if s != [] {
      assert s == [s[0]] + s[1..];
      LogsRemoved(s[1..], active, e);
    }
  }

  lemma RemovedExactly(retained: nat, live: Live, listing: Listing, e: Effect)
    ensures e in Removals(retained, live, listing)
            <==> e.Remove? && match e.name
                              case SnapshotFile(n) => Superseded(retained, live, listing, n)
                              case LogFile(n) => n in listing.logs && n < live.log
  {
    hide SnapshotRemovals, LogRemovals, InOrder;
    InOrderSorts(listing.snapshots);
    InOrderSorts(listing.logs);
    SnapshotsRemoved(InOrder(listing.snapshots), retained, live.snapshot, e);
    LogsRemoved(InOrder(listing.logs), live.log, e);
    if e.Remove? { AtLeastInOrder(listing.snapshots, e.name.number); }
  }

  /** Nothing but removals: the named files go, the rest stays. */
  lemma {:induction false} RemovalsPerformed(d: Disk, es: seq<Effect>)
    requires forall e <- es :: e.Remove?
    ensures var after := PerformAll(d, es);
            && after.current == d.current
            && (forall name <- after.files :: name in d.files && after.files[name] == d.files[name])
            && (forall name <- d.files :: name in after.files <==> Remove(name) !in es)
    decreases |es|
  {
    if es != [] {
      assert es == [es[0]] + es[1..];
      assert es[0].Remove?;
      RemovalsPerformed(Perform(d, es[0]), es[1..]);
      assert Perform(d, es[0]) == Disk(d.files - {es[0].name}, d.current);
    }
  }

  lemma CleanupCleans(retained: nat, live: Live, listing: Listing, d: Disk)
    ensures Cleaned(retained, live, listing, d, PerformAll(d, Removals(retained, live, listing)))
  {
    hide Removals, PerformAll, Superseded;
    forall e: Effect
      ensures e in Removals(retained, live, listing)
              <==> e.Remove? && match e.name
                                case SnapshotFile(n) => Superseded(retained, live, listing, n)
                                case LogFile(n) => n in listing.logs && n < live.log
    {
      RemovedExactly(retained, live, listing, e);
    }
    RemovalsPerformed(d, Removals(retained, live, listing));
  }

  // ---------------------------------------------------------------------
  // Snapshot
  // ---------------------------------------------------------------------

  /** The file that stores `payload` as the state after record `last`. */
  function SnapshotBytes(last: nat, payload: seq<Byte>): seq<Byte> {
    EncodeSnapshotFile(Encoded(Frame(SNAPSHOT_PAYLOAD, last, payload)))
  }

  function SnapshotPlan(retained: nat, live: Live, recovery: Recovery, payload: seq<Byte>, listing: Listing): Planned {
    if |payload| > MAX_SNAPSHOT_BYTES then Declined(LimitExceeded)
    else
      var after := live.(snapshot := live.snapshot + 1, log := live.log + 1);
      Accepted([Replace(SnapshotFile(after.snapshot), SnapshotBytes(live.last, payload)),
                Replace(LogFile(after.log), []),
                Publish(Pointer(after.snapshot, after.log))]
               + Removals(retained, after, listing),
               after, recovery)
  }

  // ---------------------------------------------------------------------
  // Open
  // ---------------------------------------------------------------------

  /** A finished snapshot: the new file, the empty new segment and CURRENT, then what a cleanup leaves. */
  lemma SnapshotCleans(retained: nat, live: Live, recovery: Recovery, payload: seq<Byte>, listing: Listing, d: Disk)
    requires |payload| <= MAX_SNAPSHOT_BYTES
    ensures var plan := SnapshotPlan(retained, live, recovery, payload, listing);
            && plan.Accepted? && plan.live == Live(live.last, live.log + 1, live.snapshot + 1)
            && Cleaned(retained, plan.live, listing, WithSnapshot(d, plan.live, payload), PerformAll(d, plan.effects))
  {
    hide Cleaned, Removals, Perform, PerformAll, SnapshotBytes;
    var after := live.(snapshot := live.snapshot + 1, log := live.log + 1);
    var first, second := Replace(SnapshotFile(after.snapshot), SnapshotBytes(live.last, payload)), Replace(LogFile(after.log), []);
    var third, removals := Publish(Pointer(after.snapshot, after.log)), Removals(retained, after, listing);
    CleanupCleans(retained, after, listing, WithSnapshot(d, after, payload));
    PerformTwice(d, [first, second, third], removals);
    assert [first, second, third] == [first] + ([second] + [third]);
    PerformTwice(d, [first], [second] + [third]);
    PerformTwice(PerformAll(d, [first]), [second], [third]);
    PerformOne(d, first);
    PerformOne(Perform(d, first), second);
    PerformOne(Perform(Perform(d, first), second), third);
    WrittenThrice(d, after, payload);
  }

  lemma WrittenThrice(d: Disk, live: Live, payload: seq<Byte>)
    ensures var one := Perform(d, Replace(SnapshotFile(live.snapshot), SnapshotBytes(live.last, payload)));
            Perform(Perform(one, Replace(LogFile(live.log), [])), Publish(Pointer(live.snapshot, live.log)))
            == WithSnapshot(d, live, payload)
  {
    hide SnapshotBytes;
  }

  datatype BaseRead = BaseRead(last: nat, payload: seq<Byte>) | BaseRefused(cause: StoreError)

  /** Reads the snapshot CURRENT names; 0 names none. */
  function ReadBase(d: Disk, snapshot: nat): BaseRead {
    if snapshot == 0 then BaseRead(0, [])
    else if SnapshotFile(snapshot) !in d.files then BaseRefused(NotFound)
    else
      var raw := d.files[SnapshotFile(snapshot)];
      if |raw| > MAX_SNAPSHOT_FILE_BYTES then BaseRefused(LimitExceeded)
      else match DecodeSnapshotFile(raw)
        case Unreadable(error) => BaseRefused(error)
        case Contents(record) =>
          match DecodeRecord(record)
          case Refused(_) => BaseRefused(StoreError.Corrupt)
          case Decoded(frame, _) =>
            if frame.kind != SNAPSHOT_PAYLOAD then BaseRefused(StoreError.Corrupt)
            else BaseRead(frame.sequence, frame.payload)
  }

  datatype LogRead = LogRead(repair: seq<Effect>, last: nat, tornBytes: nat, skipped: nat, replayed: seq<Frame>)
                   | LogRefused(cause: StoreError)

  /** Replays the active segment over a state that has applied `last`; a torn tail is cut off. */
  function ReadLog(allowTorn: bool, d: Disk, log: nat, last: nat): LogRead {
    if LogFile(log) !in d.files then LogRead([Replace(LogFile(log), [])], last, 0, 0, [])
    else
      var raw := d.files[LogFile(log)];
      if |raw| > MAX_LOG_BYTES then LogRefused(LimitExceeded)
      else
        var s := ScanLog(raw, None);
        var replayed := Fresh(s.frames, last);
        var skipped := Skipped(s.frames, last);
        match s.ending
        case Damaged => LogRefused(StoreError.Corrupt)
        case Unsupported => LogRefused(VersionUnsupported)
        case Regressed => LogRefused(SequenceRegression)
        case Clean => LogRead([], LastOf(replayed, last), 0, skipped, replayed)
        case Torn =>
          if !allowTorn then LogRefused(StoreError.Corrupt)
          else LogRead([Replace(LogFile(log), raw[..s.consumed])], LastOf(replayed, last), |raw| - s.consumed, skipped, replayed)
  }

  function Skipped(frames: seq<Frame>, last: nat): nat {
    if frames == [] then 0
    else if frames[0].sequence > last then Skipped(frames[1..], frames[0].sequence)
    else 1 + Skipped(frames[1..], last)
  }

  function OpenPlan(options: Options, d: Disk, listing: Listing): Planned {
    if options.retained == 0 || options.retained > MAX_RETAINED then Declined(InvalidArgument)
    else match d.current
      case None =>
        if d.files.Keys != {} then Declined(StoreError.Corrupt)
        else Accepted([Replace(LogFile(1), []), Publish(Pointer(0, 1))], Live(0, 1, 0), Recovery(true, 0, 0, [], []))
      case Some(pointer) =>
        if pointer.log == 0 then Declined(StoreError.Corrupt)
        else match ReadBase(d, pointer.snapshot)
          case BaseRefused(error) => Declined(error)
          case BaseRead(last, payload) =>
            match ReadLog(options.allowTorn, d, pointer.log, last)
            case LogRefused(error) => Declined(error)
            case LogRead(repair, last', tornBytes, skipped, replayed) =>
              var live := Live(last', pointer.log, pointer.snapshot);
              Accepted(repair + Removals(options.retained, live, listing), live,
                       Recovery(false, tornBytes, skipped, payload, replayed))
  }

  lemma RepairWrites(allowTorn: bool, d: Disk, log: nat, last: nat)
    requires ReadLog(allowTorn, d, log, last).LogRead?
    ensures var raw := FileBytes(d, LogFile(log));
            var whole := raw[..ScanLog(raw, None).consumed];
            var repair := ReadLog(allowTorn, d, log, last).repair;
            if repair == [] then LogFile(log) in d.files && whole == d.files[LogFile(log)]
            else repair == [Replace(LogFile(log), whole)]
  {
    hide ScanLog, Fresh, Skipped, LastOf;
    CleanWhole(FileBytes(d, LogFile(log)));
  }

  lemma CleanWhole(raw: seq<Byte>)
    ensures var s := ScanLog(raw, None);
            s.consumed <= |raw| && (s.ending.Clean? ==> raw[..s.consumed] == raw) && (raw == [] ==> raw[..s.consumed] == [])
  {
    hide ScanLog, Encodings, Increasing, AllStorable;
    ScanGenuine(raw, None);
  }

  /** Reading a segment leaves its whole records. */
  lemma LogMended(allowTorn: bool, d: Disk, log: nat, last: nat)
    requires ReadLog(allowTorn, d, log, last).LogRead?
    ensures PerformAll(d, ReadLog(allowTorn, d, log, last).repair) == Mended(d, log)
  {
    hide ScanLog, ReadLog, PerformAll, FileBytes;
    RepairWrites(allowTorn, d, log, last);
    var raw := FileBytes(d, LogFile(log));
    var whole := raw[..ScanLog(raw, None).consumed];
    var repair := ReadLog(allowTorn, d, log, last).repair;
    if repair == [] {
      NothingDone(d);
      assert d.files[LogFile(log) := whole] == d.files;
    } else {
      PerformOne(d, Replace(LogFile(log), whole));
    }
  }

  /** A finished opening: a new store's two files, or the segment's whole records and what a cleanup leaves. */
  lemma OpenCleans(options: Options, d: Disk, listing: Listing)
    requires OpenPlan(options, d, listing).Accepted?
    ensures var plan := OpenPlan(options, d, listing);
            var after := PerformAll(d, plan.effects);
            match d.current
            case None => after == Disk(map[LogFile(1) := []], Some(Pointer(0, 1)))
            case Some(pointer) =>
              && Pointer(plan.live.snapshot, plan.live.log) == pointer
              && Cleaned(options.retained, plan.live, listing, Mended(d, pointer.log), after)
  {
    hide ReadBase, ReadLog, Removals, PerformAll, Cleaned, Mended;
    var plan := OpenPlan(options, d, listing);
    match d.current
    case None =>
      assert plan.effects == [Replace(LogFile(1), [])] + [Publish(Pointer(0, 1))];
      PerformTwice(d, [Replace(LogFile(1), [])], [Publish(Pointer(0, 1))]);
      PerformOne(d, Replace(LogFile(1), []));
      PerformOne(Perform(d, Replace(LogFile(1), [])), Publish(Pointer(0, 1)));
      assert d.files == map[];
    case Some(pointer) =>
      var base := ReadBase(d, pointer.snapshot);
      var read := ReadLog(options.allowTorn, d, pointer.log, base.last);
      LogMended(options.allowTorn, d, pointer.log, base.last);
      PerformTwice(d, read.repair, Removals(options.retained, plan.live, listing));
      CleanupCleans(options.retained, plan.live, listing, Mended(d, pointer.log));
  }

  // ---------------------------------------------------------------------
  // The code
  // ---------------------------------------------------------------------

  /** How a call ends: done, refused with nothing written, or cut short by the death of the process. */
  datatype StoreOutcome = Completed | Failed(error: StoreError) | Crashed

  /** The disk a call leaves, against the plan for it. */
  ghost predicate Carried(plan: Planned, before: Disk, outcome: StoreOutcome, after: Disk) {
    match outcome
    case Completed => plan.Accepted? && after == PerformAll(before, plan.effects)
    case Failed(error) => plan == Declined(error) && after == before
    case Crashed => plan.Accepted? && CrashedWithin(before, plan.effects, after)
  }

  lemma CarriedOn(d: Disk, done: seq<Effect>, e: Effect, alive: bool, after: Disk)
    requires if alive then after == Perform(PerformAll(d, done), e) else CrashedWithin(PerformAll(d, done), [e], after)
    ensures alive ==> after == PerformAll(d, done + [e])
    ensures !alive ==> CrashedWithin(d, done + [e], after)
  {
    hide Perform;
    if alive {
      PerformTwice(d, done, [e]);
      PerformOne(PerformAll(d, done), e);
    } else {
      hide CrashedWithin, PerformAll;
      CrashedLater(d, done, [e], after);
    }
  }

  lemma NextSnapshot(all: seq<Effect>, done: seq<Effect>, snapshots: seq<nat>, retained: nat, current: nat)
    requires |snapshots| > retained && all == done + SnapshotRemovals(snapshots, retained, current)
    ensures var rest := SnapshotRemovals(snapshots[1..], retained, current);
            all == if snapshots[0] == current then done + rest else (done + [Remove(SnapshotFile(snapshots[0]))]) + rest
  {
    var rest := SnapshotRemovals(snapshots[1..], retained, current);
    assert SnapshotRemovals(snapshots, retained, current) ==
      if snapshots[0] == current then rest else [Remove(SnapshotFile(snapshots[0]))] + rest;
  }

  lemma NoSnapshots(snapshots: seq<nat>, retained: nat, current: nat)
    requires |snapshots| <= retained
    ensures SnapshotRemovals(snapshots, retained, current) == []
  {
  }

  lemma NextLog(all: seq<Effect>, done: seq<Effect>, logs: seq<nat>, i: nat, active: nat)
    requires i < |logs| && all == done + LogRemovals(logs[i..], active)
    ensures var rest := LogRemovals(logs[i + 1..], active);
            all == if logs[i] >= active then done + rest else (done + [Remove(LogFile(logs[i]))]) + rest
  {
    assert logs[i..][1..] == logs[i + 1..];
  }

  lemma NoLogs(logs: seq<nat>, active: nat)
    requires logs == []
    ensures LogRemovals(logs, active) == []
  {
  }

  /** Midway through the replay loop: the bytes up to `at` have been read, the rest decides the outcome. */
  ghost predicate Reading(raw: seq<Byte>, start: nat, at: nat, previous: Option<nat>, last: nat, replayed: seq<Frame>, skipped: nat) {
    && at <= |raw|
    && var whole, rest := ScanLog(raw, None), ScanLog(raw[at..], previous);
    && whole.consumed == at + rest.consumed && whole.ending == rest.ending
    && Fresh(whole.frames, start) == replayed + Fresh(rest.frames, last)
    && Skipped(whole.frames, start) == skipped + Skipped(rest.frames, last)
    && LastOf(Fresh(whole.frames, start), start) == LastOf(Fresh(rest.frames, last), last)
  }

  lemma ReadingStarts(raw: seq<Byte>, start: nat)
    ensures Reading(raw, start, 0, None, start, [], 0)
  {
    hide ScanLog, Fresh, Skipped, LastOf;
    assert raw[0..] == raw;
  }

  /** One accepted record moves the reading on by its encoded size. */
  lemma ReadingMoves(raw: seq<Byte>, start: nat, at: nat, previous: Option<nat>, last: nat, replayed: seq<Frame>, skipped: nat,
                     frame: Frame, consumed: nat)
    requires Reading(raw, start, at, previous, last, replayed, skipped)
    requires DecodeRecord(raw[at..]) == Decoded(frame, consumed)
    requires previous.Some? ==> previous.value < frame.sequence
    ensures at + consumed <= |raw|
    ensures if frame.sequence > last
            then Reading(raw, start, at + consumed, Some(frame.sequence), frame.sequence, replayed + [frame], skipped)
            else Reading(raw, start, at + consumed, Some(frame.sequence), last, replayed, skipped + 1)
  {
    hide DecodeRecord, ScanLog, Fresh, Skipped, LastOf;
    EncodedSize(raw[at..]);
    ScanStep(raw, at, previous, frame, consumed);
    var rest := ScanLog(raw[at + consumed..], Some(frame.sequence)).frames;
    FreshStep(frame, rest, last);
    assert replayed + ([frame] + Fresh(rest, frame.sequence)) == replayed + [frame] + Fresh(rest, frame.sequence);
  }

  lemma ScanStep(raw: seq<Byte>, at: nat, previous: Option<nat>, frame: Frame, consumed: nat)
    requires at <= |raw| && DecodeRecord(raw[at..]) == Decoded(frame, consumed)
    requires previous.Some? ==> previous.value < frame.sequence
    ensures at + consumed <= |raw|
    ensures var rest := ScanLog(raw[at + consumed..], Some(frame.sequence));
            ScanLog(raw[at..], previous) == Scanned([frame] + rest.frames, consumed + rest.consumed, rest.ending)
  {
    EncodedSize(raw[at..]);
    hide DecodeRecord;
    assert raw[at..][consumed..] == raw[at + consumed..];
  }

  lemma FreshStep(frame: Frame, rest: seq<Frame>, last: nat)
    ensures var frames := [frame] + rest;
            if frame.sequence > last
            then Fresh(frames, last) == [frame] + Fresh(rest, frame.sequence)
                 && LastOf(Fresh(frames, last), last) == LastOf(Fresh(rest, frame.sequence), frame.sequence)
                 && Skipped(frames, last) == Skipped(rest, frame.sequence)
            else Fresh(frames, last) == Fresh(rest, last) && Skipped(frames, last) == 1 + Skipped(rest, last)
  {
    assert ([frame] + rest)[1..] == rest;
  }

  /** When the reading stops, everything it gathered is the scan of the whole segment. */
  lemma ReadingStops(raw: seq<Byte>, start: nat, at: nat, previous: Option<nat>, last: nat, replayed: seq<Frame>, skipped: nat)
    requires Reading(raw, start, at, previous, last, replayed, skipped)
    requires var r := DecodeRecord(raw[at..]);
             r.Refused? || (previous.Some? && !(previous.value < r.frame.sequence))
    ensures var whole, r := ScanLog(raw, None), DecodeRecord(raw[at..]);
            && whole.consumed == at && whole.ending == (if r.Refused? then Unfinished(r.status) else Regressed)
            && Fresh(whole.frames, start) == replayed && Skipped(whole.frames, start) == skipped
            && LastOf(replayed, start) == last
  {
    hide DecodeRecord;
    assert ScanLog(raw[at..], previous).frames == [];
    assert Fresh([], last) == [] && LastOf([], last) == last;
    assert replayed + [] == replayed;
  }

  class DurableStore {
    const options: Options
    const fs: FileSystem
    var last: nat
    var log: nat
    var snapshot: nat
    var recovery: Recovery

    function State(): Live
      reads this
    {
      Live(last, log, snapshot)
    }

    constructor (options: Options, fs: FileSystem)
      ensures this.options == options && this.fs == fs && State() == Live(0, 0, 0)
    {
      this.options := options;
      this.fs := fs;
      last, log, snapshot := 0, 0, 0;
      recovery := NO_RECOVERY;
    }

    /** Appends, then publishes to memory; the next sequence is assigned here. */
    method Commit(kind: RecordType, payload: seq<Byte>) returns (outcome: StoreOutcome)
      modifies this, fs
      ensures Carried(CommitPlan(old(State()), old(recovery), kind, payload), old(fs.disk), outcome, fs.disk)
      ensures outcome.Completed? ==> State() == CommitPlan(old(State()), old(recovery), kind, payload).live
      ensures !outcome.Completed? ==> State() == old(State())
      ensures recovery == old(recovery)
    {
      hide PerformAll, CrashedWithin, Perform, Encoded;
      if |payload| > MAX_PAYLOAD_BYTES { return Failed(LimitExceeded); }
      if last + 1 >= U64_BOUND { return Failed(Exhausted); }
      var encoded := EncodeRecord(kind, last + 1, payload);
      var alive := fs.AppendDurable(LogFile(log), encoded);
      PerformOne(old(fs.disk), Append(LogFile(log), encoded));
      if !alive { return Crashed; }
      last := last + 1;
      outcome := Completed;
    }

    /** Removes the oldest listed snapshots beyond the bound, never the current one. */
    method CleanupSnapshots(listed: seq<nat>) returns (alive: bool)
      modifies fs
      ensures alive ==> fs.disk == PerformAll(old(fs.disk), SnapshotRemovals(listed, options.retained, snapshot))
      ensures !alive ==> CrashedWithin(old(fs.disk), SnapshotRemovals(listed, options.retained, snapshot), fs.disk)
    {
      hide PerformAll, CrashedWithin, Perform, SnapshotRemovals;
      var snapshots := listed;
      ghost var done: seq<Effect> := [];
      ghost var all := SnapshotRemovals(listed, options.retained, snapshot);
      NothingDone(fs.disk);
      while |snapshots| > options.retained
        invariant fs.disk == PerformAll(old(fs.disk), done)
        invariant all == done + SnapshotRemovals(snapshots, options.retained, snapshot)
        decreases |snapshots|
      {
        var victim := snapshots[0];
        NextSnapshot(all, done, snapshots, options.retained, snapshot);
        snapshots := snapshots[1..];
        if victim == snapshot { continue; }
        alive := fs.RemoveIfPresent(SnapshotFile(victim));
        CarriedOn(old(fs.disk), done, Remove(SnapshotFile(victim)), alive, fs.disk);
        done := done + [Remove(SnapshotFile(victim))];
        if !alive {
          CrashedEarlier(old(fs.disk), done, SnapshotRemovals(snapshots, options.retained, snapshot), fs.disk);
          return;
        }
      }
      NoSnapshots(snapshots, options.retained, snapshot);
      alive := true;
      assert done + [] == done;
    }

    /** Removes the listed segments before the active one. */
    method CleanupLogs(logs: seq<nat>) returns (alive: bool)
      modifies fs
      ensures alive ==> fs.disk == PerformAll(old(fs.disk), LogRemovals(logs, log))
      ensures !alive ==> CrashedWithin(old(fs.disk), LogRemovals(logs, log), fs.disk)
    {
      hide PerformAll, CrashedWithin, Perform, LogRemovals;
      ghost var done: seq<Effect> := [];
      ghost var all := LogRemovals(logs, log);
      NothingDone(fs.disk);
      for i := 0 to |logs|
        invariant fs.disk == PerformAll(old(fs.disk), done)
        invariant all == done + LogRemovals(logs[i..], log)
      {
        var value := logs[i];
        NextLog(all, done, logs, i, log);
        if value >= log { continue; }
        alive := fs.RemoveIfPresent(LogFile(value));
        CarriedOn(old(fs.disk), done, Remove(LogFile(value)), alive, fs.disk);
        done := done + [Remove(LogFile(value))];
        if !alive {
          CrashedEarlier(old(fs.disk), done, LogRemovals(logs[i + 1..], log), fs.disk);
          return;
        }
      }
      NoLogs(logs[|logs|..], log);
      alive := true;
      assert done + [] == done;
    }

    /** Removes old snapshots and segments by whatever numbers the listing gives. */
    method CleanupOldFiles(listing: Listing) returns (alive: bool)
      modifies fs
      ensures alive ==> fs.disk == PerformAll(old(fs.disk), Removals(options.retained, State(), listing))
      ensures alive ==> Cleaned(options.retained, State(), listing, old(fs.disk), fs.disk)
      ensures !alive ==> CrashedWithin(old(fs.disk), Removals(options.retained, State(), listing), fs.disk)
    {
      hide PerformAll, CrashedWithin, Perform, InOrder, SnapshotRemovals, LogRemovals, Cleaned;
      CleanupCleans(options.retained, State(), listing, fs.disk);
      var snapshots, logs := InOrder(listing.snapshots), InOrder(listing.logs);
      ghost var first, second := SnapshotRemovals(snapshots, options.retained, snapshot), LogRemovals(logs, log);
      alive := CleanupSnapshots(snapshots);
      if !alive {
        CrashedEarlier(old(fs.disk), first, second, fs.disk);
        return;
      }
      alive := CleanupLogs(logs);
      if alive {
        PerformTwice(old(fs.disk), first, second);
      } else {
        CrashedLater(old(fs.disk), first, second, fs.disk);
      }
    }

    /** Writes the snapshot and an empty next segment, publishes both, then cleans up. */
    method WriteSnapshot(payload: seq<Byte>, listing: Listing) returns (outcome: StoreOutcome)
      modifies this, fs
      ensures Carried(SnapshotPlan(options.retained, old(State()), old(recovery), payload, listing), old(fs.disk), outcome, fs.disk)
      ensures outcome.Completed? ==> State() == SnapshotPlan(options.retained, old(State()), old(recovery), payload, listing).live
      ensures outcome.Completed? ==> State() == Live(old(last), old(log) + 1, old(snapshot) + 1)
      ensures outcome.Completed? ==>
                Cleaned(options.retained, State(), listing, WithSnapshot(old(fs.disk), State(), payload), fs.disk)
      ensures outcome.Failed? ==> State() == old(State())
      ensures recovery == old(recovery)
    {
      hide PerformAll, CrashedWithin, Perform, Encoded, EncodeSnapshotFile, Removals, Cleaned, WithSnapshot;
      if |payload| > MAX_SNAPSHOT_BYTES { return Failed(LimitExceeded); }
      SnapshotCleans(options.retained, State(), recovery, payload, listing, fs.disk);
      var record := EncodeRecord(SNAPSHOT_PAYLOAD, last, payload);
      var file := EncodeSnapshotFile(record);
      ghost var before := fs.disk;
      var nextSnapshot, nextLog := snapshot + 1, log + 1;
      ghost var first, second := Replace(SnapshotFile(nextSnapshot), file), Replace(LogFile(nextLog), []);
      ghost var third := Publish(Pointer(nextSnapshot, nextLog));
      ghost var removals := Removals(options.retained, Live(last, nextLog, nextSnapshot), listing);
      ghost var all := [first, second, third] + removals;
      NothingDone(before);

      var alive := fs.WriteAtomic(SnapshotFile(nextSnapshot), file);
      CarriedOn(before, [], first, alive, fs.disk);
      assert [] + [first] == [first] && all == [first] + ([second, third] + removals);
      if !alive {
        CrashedEarlier(before, [first], [second, third] + removals, fs.disk);
        return Crashed;
      }
      alive := fs.WriteAtomic(LogFile(nextLog), []);
      CarriedOn(before, [first], second, alive, fs.disk);
      assert all == ([first] + [second]) + ([third] + removals);
      if !alive {
        CrashedEarlier(before, [first] + [second], [third] + removals, fs.disk);
        return Crashed;
      }
      alive := fs.WritePointer(Pointer(nextSnapshot, nextLog));
      CarriedOn(before, [first] + [second], third, alive, fs.disk);
      assert all == ([first] + [second] + [third]) + removals;
      if !alive {
        CrashedEarlier(before, [first] + [second] + [third], removals, fs.disk);
        return Crashed;
      }
      snapshot := nextSnapshot;
      log := nextLog;
      ghost var published := fs.disk;
      alive := CleanupOldFiles(listing);
      if !alive {
        CrashedLater(before, [first] + [second] + [third], removals, fs.disk);
        return Crashed;
      }
      PerformTwice(before, [first] + [second] + [third], removals);
      outcome := Completed;
    }

    method InitializeFresh() returns (outcome: StoreOutcome)
      modifies this, fs
      ensures var effects := [Replace(LogFile(1), []), Publish(Pointer(0, 1))];
              match outcome
              case Completed => fs.disk == PerformAll(old(fs.disk), effects) && State() == Live(0, 1, 0)
                                && recovery == Recovery(true, 0, 0, [], [])
              case Failed(_) => false
              case Crashed => CrashedWithin(old(fs.disk), effects, fs.disk)
    {
      hide PerformAll, CrashedWithin, Perform;
      ghost var first, second := Replace(LogFile(1), []), Publish(Pointer(0, 1));
      NothingDone(fs.disk);
      var alive := fs.WriteAtomic(LogFile(1), []);
      CarriedOn(old(fs.disk), [], first, alive, fs.disk);
      assert [] + [first] == [first] && [first] + [second] == [first, second];
      if !alive {
        CrashedEarlier(old(fs.disk), [first], [second], fs.disk);
        return Crashed;
      }
      alive := fs.WritePointer(Pointer(0, 1));
      CarriedOn(old(fs.disk), [first], second, alive, fs.disk);
      if !alive { return Crashed; }
      last, log, snapshot := 0, 1, 0;
      recovery := Recovery(true, 0, 0, [], []);
      outcome := Completed;
    }

    /** Reads the active segment record by record; a torn tail is cut off by rewriting the whole records. */
    method ReplayLog() returns (outcome: StoreOutcome)
      requires recovery.replayed == [] && recovery.skipped == 0 && recovery.tornBytes == 0
      modifies this, fs
      ensures log == old(log) && snapshot == old(snapshot)
      ensures var r := ReadLog(options.allowTorn, old(fs.disk), log, old(last));
              match outcome
              case Completed => r.LogRead? && fs.disk == PerformAll(old(fs.disk), r.repair) && last == r.last
                                && recovery == old(recovery).(replayed := r.replayed, skipped := r.skipped, tornBytes := r.tornBytes)
              case Failed(error) => r == LogRefused(error) && fs.disk == old(fs.disk)
              case Crashed => r.LogRead? && CrashedWithin(old(fs.disk), r.repair, fs.disk)
    {
      hide PerformAll, CrashedWithin, Perform, ScanLog, Fresh, Skipped, LastOf, DecodeRecord, Reading;
      NothingDone(fs.disk);
      if LogFile(log) !in fs.disk.files {
        var alive := fs.WriteAtomic(LogFile(log), []);
        PerformOne(old(fs.disk), Replace(LogFile(log), []));
        return if alive then Completed else Crashed;
      }
      var raw := fs.disk.files[LogFile(log)];
      if |raw| > MAX_LOG_BYTES { return Failed(LimitExceeded); }
      var remaining, consumedTotal: nat := raw, 0;
      var previous: Option<nat> := None;
      ReadingStarts(raw, last);
      while true
        invariant consumedTotal <= |raw| && remaining == raw[consumedTotal..]
        invariant fs.disk == old(fs.disk) && log == old(log) && snapshot == old(snapshot)
        invariant recovery == old(recovery).(replayed := recovery.replayed, skipped := recovery.skipped)
        invariant Reading(raw, old(last), consumedTotal, previous, last, recovery.replayed, recovery.skipped)
        decreases |remaining|
      {
        var r := DecodeRecord(remaining);
        if r.Refused? || (previous.Some? && !(previous.value < r.frame.sequence)) {
          ReadingStops(raw, old(last), consumedTotal, previous, last, recovery.replayed, recovery.skipped);
        }
        if r.Refused? && r.status.NoMoreData? { break; }
        if r.Refused? && r.status.TornTail? {
          if !options.allowTorn { return Failed(StoreError.Corrupt); }
          var prefix := raw[..consumedTotal];
          var alive := fs.WriteAtomic(LogFile(log), prefix);
          PerformOne(old(fs.disk), Replace(LogFile(log), prefix));
          if !alive { return Crashed; }
          recovery := recovery.(tornBytes := |remaining|);
          break;
        }
        if r.Refused? {
          return Failed(if r.status.UnsupportedVersion? then VersionUnsupported else StoreError.Corrupt);
        }
        if previous.Some? && !(previous.value < r.frame.sequence) { return Failed(SequenceRegression); }
        ReadingMoves(raw, old(last), consumedTotal, previous, last, recovery.replayed, recovery.skipped, r.frame, r.consumed);
        EncodedSize(remaining);
        previous := Some(r.frame.sequence);
        consumedTotal := consumedTotal + r.consumed;
        remaining := remaining[r.consumed..];
        assert remaining == raw[consumedTotal..];
        if !(r.frame.sequence > last) {
          recovery := recovery.(skipped := recovery.skipped + 1);
          continue;
        }
        last := r.frame.sequence;
        recovery := recovery.(replayed := recovery.replayed + [r.frame]);
      }
      outcome := Completed;
    }

    /** Opens the store: CURRENT, the snapshot it names, the segment it names, then cleanup. */
    method Open(listing: Listing) returns (outcome: StoreOutcome)
      modifies this, fs
      ensures Carried(OpenPlan(options, old(fs.disk), listing), old(fs.disk), outcome, fs.disk)
      ensures outcome.Completed? ==> State() == OpenPlan(options, old(fs.disk), listing).live
      ensures outcome.Completed? ==> recovery == OpenPlan(options, old(fs.disk), listing).recovery
      ensures outcome.Completed? ==>
                match old(fs.disk).current
                case None => fs.disk == Disk(map[LogFile(1) := []], Some(Pointer(0, 1)))
                case Some(pointer) =>
                  && Pointer(snapshot, log) == pointer
                  && Cleaned(options.retained, State(), listing, Mended(old(fs.disk), log), fs.disk)
    {
      hide PerformAll, CrashedWithin, Perform, ReadBase, ReadLog, Removals, Cleaned, Mended;
      if options.retained == 0 || options.retained > MAX_RETAINED { return Failed(InvalidArgument); }
      if fs.disk.current.None? {
        if fs.disk.files.Keys != {} { return Failed(StoreError.Corrupt); }
        OpenCleans(options, fs.disk, listing);
        outcome := InitializeFresh();
        return;
      }
      var pointer := fs.disk.current.value;
      if pointer.log == 0 { return Failed(StoreError.Corrupt); }
      var base := ReadBase(fs.disk, pointer.snapshot);
      if base.BaseRefused? { return Failed(base.cause); }
      snapshot, log, last := pointer.snapshot, pointer.log, base.last;
      recovery := Recovery(false, 0, 0, base.payload, []);
      outcome := ReplayLog();
      if outcome.Failed? { return; }
      ghost var repair := ReadLog(options.allowTorn, old(fs.disk), log, base.last).repair;
      ghost var removals := Removals(options.retained, Live(ReadLog(options.allowTorn, old(fs.disk), log, base.last).last, log, snapshot), listing);
      if outcome.Crashed? {
        CrashedEarlier(old(fs.disk), repair, removals, fs.disk);
        return;
      }
      var alive := CleanupOldFiles(listing);
      if !alive {
        CrashedLater(old(fs.disk), repair, removals, fs.disk);
        return Crashed;
      }
      PerformTwice(old(fs.disk), repair, removals);
      OpenCleans(options, old(fs.disk), listing);
    }
  }

  lemma EncodedSize(bytes: seq<Byte>)
    ensures DecodeRecord(bytes).Decoded? ==> 0 < DecodeRecord(bytes).consumed <= |bytes|
  {
  }

  lemma NothingDone(d: Disk)
    ensures d == PerformAll(d, [])
  {
  }
}
