/** Every run of a store: operations that finish, crashes at any effect and any byte, and reopenings. */
module StoreRuns {
  import opened Bytes
  import opened Collections
  import opened Disks
  import opened LogReplay
  import opened Records
  import opened Snapshots
  import opened Store

  datatype Operation =
    | Commit(kind: RecordType, body: seq<Byte>)
    | TakeSnapshot(state: seq<Byte>, listing: Listing)
    | Open(listing: Listing)

  /** Where a crash cuts an operation: after so many effects, and so many bytes into an append. */
  datatype Cut = Cut(effects: nat, bytes: nat)

  datatype Event = Event(op: Operation, cut: Option<Cut>)

  /** The disk, and the open store if there is one, with what it reported when it opened. */
  datatype Machine = Machine(disk: Disk, live: Option<Live>, recovery: Recovery)

  function Plan(options: Options, m: Machine, op: Operation): Planned {
    match op
    case Commit(kind, body) =>
      if m.live.None? then Declined(InvalidArgument) else CommitPlan(m.live.value, m.recovery, kind, body)
    case TakeSnapshot(state, listing) =>
      if m.live.None? then Declined(InvalidArgument)
      else SnapshotPlan(options.retained, m.live.value, m.recovery, state, listing)
    case Open(listing) =>
      if m.live.Some? then Declined(InvalidArgument) else OpenPlan(options, m.disk, listing)
  }

  function Least(a: nat, b: nat): (c: nat)
    ensures c <= a && c <= b
  {
    if a <= b then a else b
  }

  function Next(options: Options, m: Machine, e: Event): Machine {
    match Plan(options, m, e.op)
    case Declined(_) => if e.cut.None? then m else m.(live := None)
    case Accepted(effects, live, recovery) =>
      if e.cut.None? then Machine(PerformAll(m.disk, effects), Some(live), recovery)
      else
        var k := Least(e.cut.value.effects, |effects|);
        Machine(CrashAt(m.disk, effects, k, e.cut.value.bytes), None, m.recovery)
  }

  // ---------------------------------------------------------------------
  // What the callers know
  // ---------------------------------------------------------------------

  datatype Base = NoBase | Base(payload: seq<Byte>, last: nat) {
    function Last(): nat { if NoBase? then 0 else last }
    function Payload(): seq<Byte> { if NoBase? then [] else payload }
  }

  /** The last published snapshot, the records acknowledged since, and the record a crash interrupted. */
  datatype History = History(base: Base, acknowledged: seq<Frame>, inFlight: Option<Frame>)

  function Observe(options: Options, h: History, m: Machine, e: Event): History {
    var plan := Plan(options, m, e.op);
    if plan.Declined? then h
    else
      match e.op
      case Commit(kind, body) =>
        var frame := Frame(kind, h.base.Last() + |h.acknowledged| + 1, body);
        if e.cut.None? then h.(acknowledged := h.acknowledged + [frame]) else h.(inFlight := Some(frame))
      case TakeSnapshot(state, _) =>
        // The third effect publishes CURRENT.
        if e.cut.None? || e.cut.value.effects >= 3
        then History(Base(state, h.base.Last() + |h.acknowledged|), [], None)
        else h
      case Open(_) =>
        if e.cut.None? then History(h.base, plan.recovery.replayed, None) else h
  }

  /** Where the first `open` leaves an empty directory. */
  const START := Machine(Disk(map[LogFile(1) := []], Some(Pointer(0, 1))), Some(Live(0, 1, 0)), Recovery(true, 0, 0, [], []))
  const NOTHING_YET := History(NoBase, [], None)

  datatype Reached = Reached(machine: Machine, history: History)

  function Run(options: Options, events: seq<Event>): Reached {
    if events == [] then Reached(START, NOTHING_YET)
    else
      var before := Run(options, events[..|events| - 1]);
      var e := events[|events| - 1];
      Reached(Next(options, before.machine, e), Observe(options, before.history, before.machine, e))
  }

  // ---------------------------------------------------------------------
  // What the disk holds
  // ---------------------------------------------------------------------

  ghost predicate BaseOnDisk(d: Disk, snapshot: nat, base: Base) {
    && (snapshot == 0 <==> base.NoBase?)
    && (base.Base? ==>
          && SnapshotFile(snapshot) in d.files
          && d.files[SnapshotFile(snapshot)] == SnapshotBytes(base.last, base.payload)
          && base.last < U64_BOUND && |base.payload| <= MAX_SNAPSHOT_BYTES)
  }

  ghost predicate Holds(d: Disk, p: Pointer, base: Base, records: seq<Frame>, torn: seq<Byte>) {
    && d.current == Some(p) && p.log > 0
    && BaseOnDisk(d, p.snapshot, base)
    && LogFile(p.log) in d.files && d.files[LogFile(p.log)] == Encodings(records) + torn
    && Numbered(records, base.Last())
  }

  ghost predicate Steady(h: History, m: Machine) {
    && m.live.Some?
    && var v := m.live.value;
    && Holds(m.disk, Pointer(v.snapshot, v.log), h.base, h.acknowledged, [])
    && v.last == h.base.Last() + |h.acknowledged| < U64_BOUND
    && h.inFlight.None?
  }

  /** What may be in the log after a crash: all acknowledged records, then none, part or all of the
      record in flight. */
  ghost predicate Left(h: History, records: seq<Frame>, torn: seq<Byte>) {
    match h.inFlight
    case None => records == h.acknowledged && torn == []
    case Some(frame) =>
      && Numbered(h.acknowledged + [frame], h.base.Last())
      && (   (records == h.acknowledged && torn < Encoded(frame))
          || (records == h.acknowledged + [frame] && torn == []))
  }

  ghost predicate Downed(h: History, m: Machine) {
    && m.live.None?
    && exists p, records, torn :: Holds(m.disk, p, h.base, records, torn) && Left(h, records, torn)
  }

  ghost predicate Inv(h: History, m: Machine) {
    Steady(h, m) || Downed(h, m)
  }

  // ---------------------------------------------------------------------
  // Cleanup keeps what CURRENT names
  // ---------------------------------------------------------------------

  /** Only removals, none of a file CURRENT names, none of a segment from the active one on. */
  ghost predicate Harmless(es: seq<Effect>, p: Pointer) {
    forall i :: 0 <= i < |es| ==>
      es[i].Remove? && es[i].name != SnapshotFile(p.snapshot) && es[i].name != LogFile(p.log)
  }

  lemma {:induction false} SnapshotRemovalsHarmless(snapshots: seq<nat>, retained: nat, p: Pointer)
    ensures Harmless(SnapshotRemovals(snapshots, retained, p.snapshot), p)
    decreases |snapshots|
  {
    if |snapshots| > retained { SnapshotRemovalsHarmless(snapshots[1..], retained, p); }
  }

  lemma {:induction false} LogRemovalsHarmless(logs: seq<nat>, p: Pointer)
    ensures Harmless(LogRemovals(logs, p.log), p)
    decreases |logs|
  {
    if logs != [] { LogRemovalsHarmless(logs[1..], p); }
  }

  /** Whatever numbers the directory listing yields, cleanup spares the files CURRENT names. */
  lemma RemovalsHarmless(retained: nat, live: Live, listing: Listing)
    ensures Harmless(Removals(retained, live, listing), Pointer(live.snapshot, live.log))
  {
    var p := Pointer(live.snapshot, live.log);
    SnapshotRemovalsHarmless(InOrder(listing.snapshots), retained, p);
    LogRemovalsHarmless(InOrder(listing.logs), p);
  }

  lemma {:induction false} HarmlessKeeps(d: Disk, es: seq<Effect>, p: Pointer, base: Base, records: seq<Frame>, torn: seq<Byte>)
    requires Harmless(es, p) && Holds(d, p, base, records, torn)
    ensures Holds(PerformAll(d, es), p, base, records, torn)
    decreases |es|
  {
    if es != [] {
      RemoveKeeps(d, es[0], p, base, records, torn);
      hide Perform, Holds;
      HarmlessKeeps(Perform(d, es[0]), es[1..], p, base, records, torn);
    }
  }

  lemma RemoveKeeps(d: Disk, e: Effect, p: Pointer, base: Base, records: seq<Frame>, torn: seq<Byte>)
    requires Holds(d, p, base, records, torn)
    requires e.Remove? && e.name != SnapshotFile(p.snapshot) && e.name != LogFile(p.log)
    ensures Holds(Perform(d, e), p, base, records, torn)
  {
    hide Numbered, Encodings, SnapshotBytes;
  }

  // ---------------------------------------------------------------------
  // Commit
  // ---------------------------------------------------------------------

  lemma NumberedNext(records: seq<Frame>, base: nat, frame: Frame)
    requires Numbered(records, base) && frame.Storable() && frame.sequence == base + |records| + 1
    ensures Numbered(records + [frame], base)
  {
    hide Frame.Storable;
  }

  lemma NumberedPrefix(records: seq<Frame>, base: nat, frame: Frame)
    requires Numbered(records + [frame], base)
    ensures Numbered(records, base) && frame.Storable()
  {
    hide Frame.Storable;
    assert (records + [frame])[|records|] == frame;
    assert forall i :: 0 <= i < |records| ==> (records + [frame])[i] == records[i];
  }

  lemma AppendHolds(d: Disk, p: Pointer, base: Base, records: seq<Frame>, bytes: seq<Byte>)
    requires Holds(d, p, base, records, [])
    ensures Holds(Perform(d, Append(LogFile(p.log), bytes)), p, base, records, bytes)
  {
    hide Numbered, Encodings, SnapshotBytes;
    assert (d.files[LogFile(p.log)] + []) == d.files[LogFile(p.log)];
    assert Encodings(records) + [] == Encodings(records);
  }

  lemma WholeRecord(d: Disk, p: Pointer, base: Base, records: seq<Frame>, frame: Frame)
    requires Holds(d, p, base, records, Encoded(frame)) && Numbered(records + [frame], base.Last())
    ensures Holds(d, p, base, records + [frame], [])
  {
    hide Numbered, SnapshotBytes, Encoded;
    EncodingsAppend(records, frame);
    hide Encodings;
    assert Encodings(records + [frame]) + [] == Encodings(records) + Encoded(frame);
  }

  lemma CommitKeeps(options: Options, h: History, m: Machine, e: Event)
    requires Inv(h, m) && e.op.Commit?
    ensures Inv(Observe(options, h, m, e), Next(options, m, e))
  {
    hide Holds, Numbered, Encoded, PerformAll, Perform, Frame.Storable;
    var plan := Plan(options, m, e.op);
    if plan.Declined? {
      if m.live.Some? && e.cut.Some? { CrashIdle(h, m); }
    } else {
      var v := m.live.value;
      var p := Pointer(v.snapshot, v.log);
      var frame := Frame(e.op.kind, v.last + 1, e.op.body);
      var bytes := Encoded(frame);
      var effect := Append(LogFile(v.log), bytes);
      HoldsNumbered(m.disk, p, h.base, h.acknowledged, []);
      CommitStorable(frame);
      NumberedNext(h.acknowledged, h.base.Last(), frame);
      PerformOne(m.disk, effect);
      AppendHolds(m.disk, p, h.base, h.acknowledged, bytes);
      WholeRecord(Perform(m.disk, effect), p, h.base, h.acknowledged, frame);
      if e.cut.Some? {
        CommitCut(options, h, m, e, frame, p);
      }
    }
  }

  lemma CommitStorable(frame: Frame)
    requires IsRecordType(frame.kind) && frame.sequence < U64_BOUND && |frame.payload| <= MAX_PAYLOAD_BYTES
    ensures frame.Storable()
  {
  }

  lemma HoldsNumbered(d: Disk, p: Pointer, base: Base, records: seq<Frame>, torn: seq<Byte>)
    requires Holds(d, p, base, records, torn)
    ensures Numbered(records, base.Last())
  {
  }

  lemma CrashIdle(h: History, m: Machine)
    requires Steady(h, m)
    ensures Downed(h, m.(live := None))
  {
    hide Holds;
    var v := m.live.value;
    assert Left(h, h.acknowledged, []);
    assert Holds(m.(live := None).disk, Pointer(v.snapshot, v.log), h.base, h.acknowledged, []);
  }

  lemma CommitCut(options: Options, h: History, m: Machine, e: Event, frame: Frame, p: Pointer)
    requires Steady(h, m) && e.op.Commit? && e.cut.Some? && Plan(options, m, e.op).Accepted?
    requires p == Pointer(m.live.value.snapshot, m.live.value.log) && frame == Frame(e.op.kind, m.live.value.last + 1, e.op.body)
    requires Numbered(h.acknowledged + [frame], h.base.Last())
    requires Holds(Perform(m.disk, Append(LogFile(p.log), Encoded(frame))), p, h.base, h.acknowledged + [frame], [])
    ensures Downed(Observe(options, h, m, e), Next(options, m, e))
  {
    hide Holds, Numbered, Encoded, PerformAll, Perform;
    var bytes := Encoded(frame);
    var effects := [Append(LogFile(p.log), bytes)];
    var after, h' := Next(options, m, e), Observe(options, h, m, e);
    var k, n := Least(e.cut.value.effects, 1), e.cut.value.bytes;
    PerformOne(m.disk, effects[0]);
    assert effects[..1] == effects && effects[..0] == [];
    Unperformed(m.disk);
    if k == 1 || n == |bytes| {
      assert bytes[..|bytes|] == bytes;
      assert Left(h', h.acknowledged + [frame], []);
      assert Holds(after.disk, p, h.base, h.acknowledged + [frame], []);
    } else if n < |bytes| {
      AppendHolds(m.disk, p, h.base, h.acknowledged, bytes[..n]);
      assert Left(h', h.acknowledged, bytes[..n]);
      assert Holds(after.disk, p, h.base, h.acknowledged, bytes[..n]);
    } else {
      EncodedNotEmpty(frame);
      assert Left(h', h.acknowledged, []);
      assert Holds(after.disk, p, h.base, h.acknowledged, []);
    }
  }

  lemma EncodedNotEmpty(frame: Frame)
    ensures [] < Encoded(frame)
  {
  }

  lemma Unperformed(d: Disk)
    ensures PerformAll(d, []) == d
  {
  }

  // ---------------------------------------------------------------------
  // Snapshot
  // ---------------------------------------------------------------------

  /** Writing the new files does not touch the ones CURRENT still names. */
  lemma NewFilesKeep(d: Disk, p: Pointer, base: Base, records: seq<Frame>, file: seq<Byte>)
    requires Holds(d, p, base, records, [])
    ensures var d1 := Perform(d, Replace(SnapshotFile(p.snapshot + 1), file));
            Holds(d1, p, base, records, []) && Holds(Perform(d1, Replace(LogFile(p.log + 1), [])), p, base, records, [])
  {
    hide Numbered, Encodings, SnapshotBytes;
  }

  lemma PublishedHolds(d: Disk, p: Pointer, last: nat, state: seq<Byte>)
    requires p.log > 0 && last < U64_BOUND && |state| <= MAX_SNAPSHOT_BYTES
    ensures var q := Pointer(p.snapshot + 1, p.log + 1);
            var d1 := Perform(d, Replace(SnapshotFile(q.snapshot), SnapshotBytes(last, state)));
            Holds(Perform(Perform(d1, Replace(LogFile(q.log), [])), Publish(q)), q, Base(state, last), [], [])
  {
    hide SnapshotBytes;
  }

  /** A snapshot performs three writes, then removals; a crash falls before the third or after it. */
  lemma SnapshotSteps(d: Disk, first: Effect, second: Effect, third: Effect, removals: seq<Effect>, k: nat)
    requires k <= 3 + |removals|
    ensures var es := [first, second, third] + removals;
            PerformAll(d, es[..k]) ==
              if k == 0 then d
              else if k == 1 then Perform(d, first)
              else if k == 2 then Perform(Perform(d, first), second)
              else PerformAll(Perform(Perform(Perform(d, first), second), third), removals[..k - 3])
  {
    hide Perform;
    var es := [first, second, third] + removals;
    if k == 0 {
    } else if k == 1 {
      assert es[..1] == [first];
      PerformOne(d, first);
    } else {
      PerformTwice(d, [first], [second]);
      PerformOne(d, first);
      PerformOne(Perform(d, first), second);
      if k == 2 {
        assert es[..2] == [first] + [second];
      } else {
        PerformTwice(d, [first] + [second], [third]);
        PerformOne(PerformAll(d, [first] + [second]), third);
        PerformTwice(d, [first] + [second] + [third], removals[..k - 3]);
        assert es[..k] == [first] + [second] + [third] + removals[..k - 3];
      }
    }
  }

  lemma HarmlessPrefix(es: seq<Effect>, p: Pointer, k: nat)
    requires Harmless(es, p) && k <= |es|
    ensures Harmless(es[..k], p)
  {
  }

  lemma SnapshotKeeps(options: Options, h: History, m: Machine, e: Event)
    requires Inv(h, m) && e.op.TakeSnapshot?
    ensures Inv(Observe(options, h, m, e), Next(options, m, e))
  {
    hide Holds, Numbered, Encoded, PerformAll, Perform, SnapshotBytes, Removals, Harmless;
    var plan := Plan(options, m, e.op);
    if plan.Declined? {
      if m.live.Some? && e.cut.Some? { CrashIdle(h, m); }
    } else {
      var v := m.live.value;
      var p := Pointer(v.snapshot, v.log);
      var q := Pointer(v.snapshot + 1, v.log + 1);
      var file := SnapshotBytes(v.last, e.op.state);
      var removals := Removals(options.retained, plan.live, e.op.listing);
      var first, second, third := Replace(SnapshotFile(q.snapshot), file), Replace(LogFile(q.log), []), Publish(q);
      var d3 := Perform(Perform(Perform(m.disk, first), second), third);
      NewFilesKeep(m.disk, p, h.base, h.acknowledged, file);
      HoldsActive(m.disk, p, h.base, h.acknowledged, []);
      PublishedHolds(m.disk, p, v.last, e.op.state);
      RemovalsHarmless(options.retained, plan.live, e.op.listing);
      var k := if e.cut.None? then |plan.effects| else Least(e.cut.value.effects, |plan.effects|);
      SnapshotSteps(m.disk, first, second, third, removals, k);
      assert plan.effects[..|plan.effects|] == plan.effects;
      var after, h' := Next(options, m, e), Observe(options, h, m, e);
      assert after.disk == PerformAll(m.disk, plan.effects[..k]) by { NoAppends(plan.effects, first, second, third, removals, q); }
      if k >= 3 {
        HarmlessPrefix(removals, q, k - 3);
        HarmlessKeeps(d3, removals[..k - 3], q, Base(e.op.state, v.last), [], []);
        assert Left(h', [], []);
        assert Holds(after.disk, q, h'.base, [], []);
      } else {
        assert Left(h', h.acknowledged, []);
        assert Holds(after.disk, p, h.base, h.acknowledged, []);
      }
    }
  }

  lemma NoAppends(es: seq<Effect>, first: Effect, second: Effect, third: Effect, removals: seq<Effect>, p: Pointer)
    requires es == [first, second, third] + removals && Harmless(removals, p)
    requires !first.Append? && !second.Append? && !third.Append?
    ensures forall i :: 0 <= i < |es| ==> !es[i].Append?
  {
  }

  lemma HoldsActive(d: Disk, p: Pointer, base: Base, records: seq<Frame>, torn: seq<Byte>)
    requires Holds(d, p, base, records, torn)
    ensures d.current == Some(p) && p.log > 0
  {
  }

  // ---------------------------------------------------------------------
  // Open
  // ---------------------------------------------------------------------

  /** The snapshot CURRENT names reads back exactly when one record can hold it. */
  lemma BaseReads(d: Disk, snapshot: nat, base: Base)
    requires BaseOnDisk(d, snapshot, base)
    ensures ReadBase(d, snapshot).BaseRead? <==> |base.Payload()| <= MAX_PAYLOAD_BYTES
    ensures ReadBase(d, snapshot).BaseRead? ==> ReadBase(d, snapshot) == BaseRead(base.Last(), base.Payload())
  {
    hide Encoded, DecodeRecord, EncodeSnapshotFile, DecodeSnapshotFile;
    if base.Base? { SnapshotReads(base.last, base.payload); }
  }

  lemma SnapshotReads(last: nat, payload: seq<Byte>)
    requires last < U64_BOUND && |payload| <= MAX_SNAPSHOT_BYTES
    ensures var frame := Frame(SNAPSHOT_PAYLOAD, last, payload);
      && |SnapshotBytes(last, payload)| == PREFIX_BYTES + HEADER_BYTES + |payload|
      && (HEADER_BYTES + |payload| <= MAX_SNAPSHOT_BYTES ==>
            DecodeSnapshotFile(SnapshotBytes(last, payload)) == Contents(Encoded(frame)))
      && (HEADER_BYTES + |payload| > MAX_SNAPSHOT_BYTES ==>
            DecodeSnapshotFile(SnapshotBytes(last, payload)) == Unreadable(LimitExceeded))
      && DecodeRecord(Encoded(frame)) ==
           if |payload| <= MAX_PAYLOAD_BYTES then Decoded(frame, |Encoded(frame)|) else Refused(Oversized)
  {
    hide Encoded, DecodeRecord, EncodeSnapshotFile, DecodeSnapshotFile;
    var frame := Frame(SNAPSHOT_PAYLOAD, last, payload);
    var record := Encoded(frame);
    SnapshotRoundTrip(record);
    OversizedRefused(frame, []);
    assert record + [] == record;
    if |payload| <= MAX_PAYLOAD_BYTES { EncodedDecodes(frame, record); }
  }

  /** The active segment replays exactly unless it is too long, or cut with repair disabled. */
  lemma LogReads(allowTorn: bool, d: Disk, p: Pointer, base: Base, records: seq<Frame>, torn: seq<Byte>, frame: Frame)
    requires Holds(d, p, base, records, torn) && Partial(torn, frame)
    ensures var r := ReadLog(allowTorn, d, p.log, base.Last());
            && (r.LogRead? <==> |FileBytes(d, LogFile(p.log))| <= MAX_LOG_BYTES && (allowTorn || torn == []))
            && (r.LogRead? ==>
                  && r.replayed == records && r.last == base.Last() + |records| && r.tornBytes == |torn|
                  && r.repair == Repair(p, records, torn))
  {
    hide BaseOnDisk, Encoded;
    ScanFindsAll(records, base.Last(), None, torn, frame);
    NumberedAllFresh(records, base.Last());
    hide Numbered, ScanLog, Fresh, Skipped, Encodings;
    var raw := d.files[LogFile(p.log)];
    assert raw[..|Encodings(records)|] == Encodings(records);
    if records == [] { assert LastOf(records, base.Last()) == base.Last(); }
  }

  /** The record in flight serves as the record whose prefix is left; with none, any record does. */
  lemma LeftPartial(h: History, records: seq<Frame>, torn: seq<Byte>) returns (frame: Frame)
    requires Left(h, records, torn)
    ensures Partial(torn, frame)
  {
    hide Encoded;
    frame := Frame(1, 0, []);
    EncodedNotEmpty(frame);
    if h.inFlight.Some? && records == h.acknowledged {
      NumberedPrefix(h.acknowledged, h.base.Last(), h.inFlight.value);
      if torn < Encoded(h.inFlight.value) { frame := h.inFlight.value; }
    }
  }

  /** A closed store can be opened again. */
  ghost predicate Openable(options: Options, h: History, d: Disk, torn: seq<Byte>) {
    && 0 < options.retained <= MAX_RETAINED
    && |h.base.Payload()| <= MAX_PAYLOAD_BYTES
    && (d.current.Some? ==> |FileBytes(d, LogFile(d.current.value.log))| <= MAX_LOG_BYTES)
    && (options.allowTorn || torn == [])
  }

  lemma HoldsBase(d: Disk, p: Pointer, base: Base, records: seq<Frame>, torn: seq<Byte>)
    requires Holds(d, p, base, records, torn)
    ensures d.current == Some(p) && p.log > 0 && BaseOnDisk(d, p.snapshot, base)
  {
  }

  lemma OpenFollows(options: Options, d: Disk, p: Pointer, listing: Listing)
    requires d.current == Some(p) && p.log > 0
    ensures var plan, base := OpenPlan(options, d, listing), ReadBase(d, p.snapshot);
            && (plan.Accepted? <==>
                  && 0 < options.retained <= MAX_RETAINED && base.BaseRead?
                  && ReadLog(options.allowTorn, d, p.log, base.last).LogRead?)
            && (plan.Accepted? ==>
                  var log := ReadLog(options.allowTorn, d, p.log, base.last);
                  && plan.live == Live(log.last, p.log, p.snapshot)
                  && plan.effects == log.repair + Removals(options.retained, plan.live, listing)
                  && plan.recovery.replayed == log.replayed && plan.recovery.snapshotPayload == base.payload)
  {
    hide ReadBase, ReadLog, Removals;
  }

  function Repair(p: Pointer, records: seq<Frame>, torn: seq<Byte>): seq<Effect> {
    if torn == [] then [] else [Replace(LogFile(p.log), Encodings(records))]
  }

  lemma OpensExactly(options: Options, h: History, d: Disk, p: Pointer, records: seq<Frame>, torn: seq<Byte>, listing: Listing)
    requires Holds(d, p, h.base, records, torn) && Left(h, records, torn)
    ensures var plan := OpenPlan(options, d, listing);
            && (plan.Accepted? <==> Openable(options, h, d, torn))
            && (plan.Accepted? ==>
                  && plan.recovery.replayed == records && plan.recovery.snapshotPayload == h.base.Payload()
                  && plan.live == Live(h.base.Last() + |records|, p.log, p.snapshot)
                  && plan.effects == Repair(p, records, torn) + Removals(options.retained, plan.live, listing))
  {
    hide Holds, ReadLog, Left, ReadBase, BaseOnDisk, Removals, OpenPlan, Partial, Repair, FileBytes;
    var frame := LeftPartial(h, records, torn);
    LogReads(options.allowTorn, d, p, h.base, records, torn, frame);
    HoldsBase(d, p, h.base, records, torn);
    BaseReads(d, p.snapshot, h.base);
    OpenFollows(options, d, p, listing);
  }

  lemma RepairHolds(d: Disk, p: Pointer, base: Base, records: seq<Frame>, torn: seq<Byte>)
    requires Holds(d, p, base, records, torn)
    ensures Holds(PerformAll(d, Repair(p, records, torn)), p, base, records, [])
  {
    hide Numbered, SnapshotBytes, PerformAll, Encoded, EncodeSnapshotFile;
    if torn == [] {
      Unperformed(d);
    } else {
      PerformOne(d, Replace(LogFile(p.log), Encodings(records)));
      assert Encodings(records) + [] == Encodings(records);
    }
  }

  lemma LeftWhole(h: History, records: seq<Frame>, torn: seq<Byte>)
    requires Left(h, records, torn)
    ensures Left(h, records, [])
  {
    hide Encoded, Numbered;
    if h.inFlight.Some? { EncodedNotEmpty(h.inFlight.value); }
  }

  lemma LastFits(d: Disk, p: Pointer, base: Base, records: seq<Frame>, torn: seq<Byte>)
    requires Holds(d, p, base, records, torn)
    ensures base.Last() + |records| < U64_BOUND
  {
    hide SnapshotBytes, Encodings;
    if records != [] { assert records[|records| - 1].Storable(); }
  }

  /** After any part of an opening the same records are on the disk. */
  lemma OpeningHolds(d: Disk, p: Pointer, base: Base, records: seq<Frame>, torn: seq<Byte>, removals: seq<Effect>, k: nat, n: nat)
    returns (left: seq<Byte>)
    requires Holds(d, p, base, records, torn) && Harmless(removals, p)
    requires k <= |Repair(p, records, torn) + removals|
    ensures left == if k >= |Repair(p, records, torn)| then [] else torn
    ensures Holds(CrashAt(d, Repair(p, records, torn) + removals, k, n), p, base, records, left)
  {
    hide Holds, PerformAll, Perform, Harmless, Repair, Encodings;
    var repair := Repair(p, records, torn);
    var es := repair + removals;
    RepairShape(p, records, torn);
    NoAppend(repair, removals, p);
    if k >= |repair| {
      left := [];
      assert es[..k] == repair + removals[..k - |repair|];
      PerformTwice(d, repair, removals[..k - |repair|]);
      RepairHolds(d, p, base, records, torn);
      HarmlessPrefix(removals, p, k - |repair|);
      HarmlessKeeps(PerformAll(d, repair), removals[..k - |repair|], p, base, records, []);
    } else {
      left := torn;
      assert es[..k] == [];
      Unperformed(d);
    }
  }

  lemma RepairShape(p: Pointer, records: seq<Frame>, torn: seq<Byte>)
    ensures var repair := Repair(p, records, torn);
      |repair| == (if torn == [] then 0 else 1) && forall i :: 0 <= i < |repair| ==> repair[i].Replace?
  {
  }

  lemma NoAppend(repair: seq<Effect>, removals: seq<Effect>, p: Pointer)
    requires Harmless(removals, p) && forall i :: 0 <= i < |repair| ==> repair[i].Replace?
    ensures forall i :: 0 <= i < |repair + removals| ==> !(repair + removals)[i].Append?
  {
  }

  lemma OpenKeeps(options: Options, h: History, m: Machine, e: Event)
    requires Inv(h, m) && e.op.Open?
    ensures Inv(Observe(options, h, m, e), Next(options, m, e))
  {
    hide Holds, Left, PerformAll, Perform, OpenPlan, Openable, Repair, Removals, Harmless;
    var plan := Plan(options, m, e.op);
    if plan.Declined? {
      if m.live.Some? && e.cut.Some? { CrashIdle(h, m); }
    } else {
      var p, records, torn :| Holds(m.disk, p, h.base, records, torn) && Left(h, records, torn);
      OpensExactly(options, h, m.disk, p, records, torn, e.op.listing);
      RemovalsHarmless(options.retained, plan.live, e.op.listing);
      var removals := Removals(options.retained, plan.live, e.op.listing);
      var after := Next(options, m, e);
      var k := if e.cut.None? then |plan.effects| else Least(e.cut.value.effects, |plan.effects|);
      var n := if e.cut.None? then 0 else e.cut.value.bytes;
      var left := OpeningHolds(m.disk, p, h.base, records, torn, removals, k, n);
      assert plan.effects[..|plan.effects|] == plan.effects;
      assert Holds(after.disk, p, h.base, records, left);
      if e.cut.None? {
        LastFits(after.disk, p, h.base, records, left);
      } else {
        LeftWhole(h, records, torn);
      }
    }
  }

  // ---------------------------------------------------------------------
  // Every run
  // ---------------------------------------------------------------------

  lemma StartHolds()
    ensures Inv(NOTHING_YET, START)
  {
    assert Holds(START.disk, Pointer(0, 1), NoBase, [], []);
  }

  lemma {:induction false} RunKeeps(options: Options, events: seq<Event>)
    ensures var r := Run(options, events); Inv(r.history, r.machine)
  {
    hide Inv, Next, Observe;
    if events == [] {
      StartHolds();
    } else {
      RunKeeps(options, events[..|events| - 1]);
      var before := Run(options, events[..|events| - 1]);
      var e := events[|events| - 1];
      match e.op
      case Commit(_, _) => CommitKeeps(options, before.history, before.machine, e);
      case TakeSnapshot(_, _) => SnapshotKeeps(options, before.history, before.machine, e);
      case Open(_) => OpenKeeps(options, before.history, before.machine, e);
    }
  }

  /** The bytes of the active segment after its last complete record. */
  function LogTail(d: Disk): seq<Byte> {
    if d.current.None? then [] else
      var raw := FileBytes(d, LogFile(d.current.value.log));
      raw[ScanLog(raw, None).consumed..]
  }

  lemma TailIsTorn(h: History, d: Disk, p: Pointer, records: seq<Frame>, torn: seq<Byte>)
    requires Holds(d, p, h.base, records, torn) && Left(h, records, torn)
    ensures LogTail(d) == torn
  {
    var frame := LeftPartial(h, records, torn);
    hide BaseOnDisk, Partial, Left;
    ScanFindsAll(records, h.base.Last(), None, torn, frame);
    hide ScanLog, Encodings, Numbered;
  }

  /** The records recovery yields: every acknowledged one in order, and perhaps the one in flight. */
  ghost predicate Faithful(h: History, replayed: seq<Frame>) {
    || replayed == h.acknowledged
    || (h.inFlight.Some? && replayed == h.acknowledged + [h.inFlight.value])
  }

  /** After any run that left the store closed, opening it succeeds exactly when the last published
      snapshot fits one record, the segment is within its bound, and a cut tail may be repaired; it
      then yields that snapshot, every record acknowledged since, and at most the one in flight. */
  lemma RecoveryIsExact(options: Options, events: seq<Event>, listing: Listing)
    requires Run(options, events).machine.live.None?
    ensures var r := Run(options, events);
            var plan := OpenPlan(options, r.machine.disk, listing);
            && (plan.Accepted? <==> Openable(options, r.history, r.machine.disk, LogTail(r.machine.disk)))
            && (plan.Accepted? ==>
                  && Faithful(r.history, plan.recovery.replayed)
                  && plan.recovery.snapshotPayload == r.history.base.Payload()
                  && plan.live.last == r.history.base.Last() + |plan.recovery.replayed|)
  {
    hide Run, OpenPlan, Openable, Holds, Left, LogTail;
    RunKeeps(options, events);
    var r := Run(options, events);
    var h, d := r.history, r.machine.disk;
    var p, records, torn :| Holds(d, p, h.base, records, torn) && Left(h, records, torn);
    OpensExactly(options, h, d, p, records, torn, listing);
    TailIsTorn(h, d, p, records, torn);
    LeftFaithful(h, records, torn);
  }

  lemma ObserveKeeps(options: Options, events: seq<Event>, e: Event)
    requires !e.op.TakeSnapshot?
    ensures var r := Run(options, events);
            var h := Observe(options, r.history, r.machine, e);
            r.history.acknowledged <= h.acknowledged && h.base == r.history.base
  {
    hide Run, OpenPlan, Openable;
    var r := Run(options, events);
    if e.op.Open? && r.machine.live.None? { RecoveryIsExact(options, events, e.op.listing); }
  }

  /** Until a snapshot is taken, no crash and no reopening ever drops an acknowledged record. */
  lemma {:induction false} NothingForgotten(options: Options, events: seq<Event>, later: seq<Event>)
    requires forall i :: 0 <= i < |later| ==> !later[i].op.TakeSnapshot?
    ensures Run(options, events).history.acknowledged <= Run(options, events + later).history.acknowledged
    ensures Run(options, events + later).history.base == Run(options, events).history.base
    decreases |later|
  {
    hide Observe, Next;
    if later == [] {
      assert events + later == events;
    } else {
      var n := |later| - 1;
      NothingForgotten(options, events, later[..n]);
      assert (events + later)[..|events + later| - 1] == events + later[..n];
      ObserveKeeps(options, events + later[..n], later[n]);
    }
  }

  lemma LeftFaithful(h: History, records: seq<Frame>, torn: seq<Byte>)
    requires Left(h, records, torn)
    ensures Faithful(h, records)
  {
  }

  /** In every run a finished commit acknowledges its record under the next number exactly when the payload is within its
      bound and a number is left; otherwise nothing at all changes. */
  lemma CommitAcknowledgedExactly(options: Options, events: seq<Event>, kind: RecordType, body: seq<Byte>)
    requires Run(options, events).machine.live.Some?
    ensures var r, t := Run(options, events), Run(options, events + [Event(Commit(kind, body), None)]);
            var frame := Frame(kind, r.history.base.Last() + |r.history.acknowledged| + 1, body);
            if |body| <= MAX_PAYLOAD_BYTES && frame.sequence < U64_BOUND
            then && t.history == r.history.(acknowledged := r.history.acknowledged + [frame])
                 && t.machine.live.Some? && t.machine.live.value == r.machine.live.value.(last := frame.sequence)
            else t == r
  {
    hide PerformAll, Encoded, Run, OpenPlan, SnapshotPlan;
    LastNumber(options, events);
    RunOnce(options, events, Event(Commit(kind, body), None));
  }

  lemma RunOnce(options: Options, events: seq<Event>, e: Event)
    ensures var r := Run(options, events);
            Run(options, events + [e]) == Reached(Next(options, r.machine, e), Observe(options, r.history, r.machine, e))
  {
    hide Next, Observe;
    var all := events + [e];
    assert all[..|all| - 1] == events && all[|all| - 1] == e;
  }

  lemma LastNumber(options: Options, events: seq<Event>)
    requires Run(options, events).machine.live.Some?
    ensures var r := Run(options, events);
            r.machine.live.value.last == r.history.base.Last() + |r.history.acknowledged|
  {
    hide Run, Holds;
    RunKeeps(options, events);
  }

  /** In every run a finished snapshot becomes the whole state exactly when the payload is within its bound. */
  lemma SnapshotTakenExactly(options: Options, events: seq<Event>, state: seq<Byte>, listing: Listing)
    requires Run(options, events).machine.live.Some?
    ensures var r, t := Run(options, events), Run(options, events + [Event(TakeSnapshot(state, listing), None)]);
            if |state| <= MAX_SNAPSHOT_BYTES
            then && t.history == History(Base(state, r.history.base.Last() + |r.history.acknowledged|), [], None)
                 && t.machine.live.Some? && t.machine.live.value.last == r.machine.live.value.last
            else t == r
  {
    hide Removals, PerformAll, SnapshotBytes, Run, OpenPlan, CommitPlan;
    RunOnce(options, events, Event(TakeSnapshot(state, listing), None));
  }

  /** While the store is open nothing is missing: the disk is the snapshot and the acknowledged records. */
  lemma OpenStoreIsExact(options: Options, events: seq<Event>)
    requires Run(options, events).machine.live.Some?
    ensures var r := Run(options, events);
            var v := r.machine.live.value;
            && r.machine.disk.current == Some(Pointer(v.snapshot, v.log))
            && FileBytes(r.machine.disk, LogFile(v.log)) == Encodings(r.history.acknowledged)
            && v.last == r.history.base.Last() + |r.history.acknowledged|
            && (v.snapshot != 0 ==>
                  && r.history.base.Base?
                  && FileBytes(r.machine.disk, SnapshotFile(v.snapshot)) == SnapshotBytes(r.history.base.last, r.history.base.payload))
  {
    hide Run, Encodings, SnapshotBytes, Numbered;
    RunKeeps(options, events);
    var r := Run(options, events);
    assert Encodings(r.history.acknowledged) + [] == Encodings(r.history.acknowledged);
  }

  /** At every moment of every run the files CURRENT names are there. */
  lemma NamedFilesPresent(options: Options, events: seq<Event>)
    ensures var d := Run(options, events).machine.disk;
            && d.current.Some? && LogFile(d.current.value.log) in d.files
            && (d.current.value.snapshot != 0 ==> SnapshotFile(d.current.value.snapshot) in d.files)
  {
    hide Run, Encodings, SnapshotBytes, Numbered, Left;
    RunKeeps(options, events);
  }

  /** The very first opening is outside these runs: a crash between its two writes leaves a directory
      that every later opening refuses. */
  lemma FirstOpening(options: Options, listing: Listing, k: nat, n: nat)
    requires 0 < options.retained <= MAX_RETAINED && k <= 2
    ensures var plan := OpenPlan(options, Disk(map[], None), listing);
            && plan.Accepted? && |plan.effects| == 2
            && var d := CrashAt(Disk(map[], None), plan.effects, k, n);
            && (k == 0 ==> OpenPlan(options, d, listing) == plan)
            && (k == 1 ==> OpenPlan(options, d, listing) == Declined(StoreError.Corrupt))
            && (k == 2 ==> Machine(d, Some(plan.live), plan.recovery) == START)
  {
    var first, second := Replace(LogFile(1), []), Publish(Pointer(0, 1));
    var d := Disk(map[], None);
    SnapshotSteps(d, first, second, second, [], k);
    assert ([first, second, second] + [])[..k] == [first, second][..k];
    if k == 1 { assert LogFile(1) in Perform(d, first).files.Keys; }
  }

  // ---------------------------------------------------------------------
  // The code takes these steps
  // ---------------------------------------------------------------------

  /** Whatever way a method ends, it is one event of a run. */
  lemma MethodsStep(options: Options, m: Machine, op: Operation, outcome: StoreOutcome, after: Disk) returns (e: Event)
    requires Carried(Plan(options, m, op), m.disk, outcome, after)
    ensures e.op == op && e.cut.Some? == outcome.Crashed?
    ensures Next(options, m, e).disk == after
    ensures var plan := Plan(options, m, op);
            match outcome
            case Completed => plan.Accepted? && Next(options, m, e) == Machine(after, Some(plan.live), plan.recovery)
            case Failed(_) => Next(options, m, e) == m
            case Crashed => Next(options, m, e).live.None?
  {
    hide Plan, PerformAll;
    e := Event(op, None);
    if outcome.Crashed? {
      var effects := Plan(options, m, op).effects;
      var k: nat, n: nat :| k <= |effects| && after == CrashAt(m.disk, effects, k, n);
      e := Event(op, Some(Cut(k, n)));
    }
  }
}
