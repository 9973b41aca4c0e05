/** What observations and reports lead to: which are taken, what each leaves, and where every recorded state comes from. */
module CoordinatorReports {
  import opened Boundaries
  import opened Collections
  import opened CoordinatorRuns
  import opened CoordinatorState
  import opened CoordinatorSteps
  import opened Resources

  // ---------------------------------------------------------------------
  // Evidence
  // ---------------------------------------------------------------------

  predicate WellFormed(o: Observation) {
    o.generation > 0 && o.resource != ""
  }

  /** The same generation of one resource's evidence, told differently. */
  predicate Contradicts(s: State, o: Observation) {
    && WellFormed(o) && o.resource in s.evidence && s.evidence[o.resource].generation == o.generation
    && s.evidence[o.resource] != EvidenceEntry(o.state, o.generation, o.source)
  }

  predicate Outdated(s: State, o: Observation) {
    WellFormed(o) && o.resource in s.evidence && s.evidence[o.resource].generation > o.generation
  }

  predicate NoRoom(s: State, o: Observation) {
    WellFormed(o) && o.resource !in s.evidence && |s.evidence| >= MAX_EVIDENCE
  }

  /** Each refusal has its own cause, anything else is recorded, and what is recorded as a change clears the conflict. */
  lemma DetectionDecided(s: State, o: Observation)
    ensures var t := RecordDetection(s, o);
      && (t.code == InvalidArgument <==> !WellFormed(o))
      && (t.code == Conflict <==> Contradicts(s, o))
      && (t.code == SequenceRegression <==> Outdated(s, o))
      && (t.code == LimitExceeded <==> NoRoom(s, o))
      && (t.code == Ok <==> WellFormed(o) && !Contradicts(s, o) && !Outdated(s, o) && !NoRoom(s, o))
      && t.state.evidence == (if t.code == Ok then s.evidence[o.resource := EvidenceEntry(o.state, o.generation, o.source)]
                              else s.evidence)
      && t.state.conflict == (t.code == Conflict || (s.conflict && t.state.evidence == s.evidence))
  {
    if o.resource in s.evidence { assert s.evidence[o.resource := s.evidence[o.resource]] == s.evidence; }
  }

  /** Event `i` contradicted the evidence of its time, and no evidence has changed since. */
  ghost predicate ConflictFrom(start: State, events: seq<Event>, i: nat) {
    && i < |events| && events[i].Detected?
    && Contradicts(Run(start, events[..i]).state, events[i].observation)
    && Run(start, events[..i]).state.revision == Run(start, events).state.revision
  }

  lemma FlagStep(s: State, e: Event)
    ensures var t := Next(s, e);
      && s.revision <= t.revision
      && t.conflict == ((e.Detected? && Contradicts(s, e.observation)) || (s.conflict && t.revision == s.revision))
      && (e.Detected? && Contradicts(s, e.observation) ==> t.revision == s.revision)
  {
    if e.Detected? {
      DetectionDecided(s, e.observation);
      DetectionForward(s, e.observation);
      hide RecordDetection, Contradicts;
    } else if e.AuthorizationAsked? || MovesDefinitions(e) {
      hide Pruned;
    } else {
      FlagFrame(s, e);
      hide Next;
    }
  }

  lemma FlagFrame(s: State, e: Event)
    requires !e.AuthorizationAsked? && !MovesDefinitions(e)
    ensures Next(s, e).conflict == s.conflict && Next(s, e).revision == s.revision
  {
    hide MakePlan, Transition, SubmitApply, Acknowledge, VerifyEffect, Validated;
    match e
    case Planned(authorization, computed) => PlanWrites(s, authorization, computed);
    case TransitionAsked(r) => TransitionWrites(s, r);
    case ApplySubmitted(r) => SubmitWrites(s, r);
    case ApplyAcknowledged(ack) => AcknowledgeWrites(s, ack);
    case EffectVerified(report) => VerifyWrites(s, report);
  }

  lemma EarlierConflict(start: State, before: seq<Event>, e: Event, i: nat)
    requires i < |before|
    requires Run(start, before).state.revision <= Run(start, before + [e]).state.revision
    ensures ConflictFrom(start, before + [e], i)
            <==> ConflictFrom(start, before, i) && Run(start, before).state.revision == Run(start, before + [e]).state.revision
  {
    hide Run, Contradicts, Next;
    assert (before + [e])[..i] == before[..i];
    RunForward(start, before[..i], before[i..]);
    assert before[..i] + before[i..] == before;
  }

  /** In every run the conflict flag stands exactly while some observation contradicted the evidence and no evidence
      has changed since. */
  lemma {:induction false} ConflictStandsExactly(start: State, events: seq<Event>)
    requires IsStart(start)
    ensures Run(start, events).state.conflict <==> exists i: nat :: ConflictFrom(start, events, i)
  {
    hide Next, Contradicts, Run, ConflictFrom;
    if events == [] {
      NoConflictYet(start);
    } else {
      var n := |events| - 1;
      var before, e := events[..n], events[n];
      var s, t := Run(start, before).state, Run(start, events).state;
      ConflictStandsExactly(start, before);
      assert events == before + [e];
      LastStep(start, before, e);
      FlagStep(s, e);
      forall i: nat ensures ConflictFrom(start, events, i) <==>
        if i < n then ConflictFrom(start, before, i) && s.revision == t.revision
        else i == n && e.Detected? && Contradicts(s, e.observation) && s.revision == t.revision
      {
        if i < n { EarlierConflict(start, before, e, i); } else { LastConflict(start, before, e, i); }
      }
      assert forall i: nat :: ConflictFrom(start, before, i) ==> i < n by {
        forall i: nat ensures ConflictFrom(start, before, i) ==> i < n { ConflictWithin(start, before, i); }
      }
      if t.conflict {
        if e.Detected? && Contradicts(s, e.observation) {
          assert ConflictFrom(start, events, n);
        } else {
          var i: nat :| ConflictFrom(start, before, i);
          assert ConflictFrom(start, events, i);
        }
      }
    }
  }

  lemma NoConflictYet(start: State)
    requires IsStart(start)
    ensures !Run(start, []).state.conflict && forall i: nat :: !ConflictFrom(start, [], i)
  {
  }

  lemma ConflictWithin(start: State, events: seq<Event>, i: nat)
    ensures ConflictFrom(start, events, i) ==> i < |events|
  {
    hide Run, Contradicts;
  }

  lemma LastConflict(start: State, before: seq<Event>, e: Event, i: nat)
    requires i >= |before|
    ensures ConflictFrom(start, before + [e], i) <==>
      && i == |before| && e.Detected? && Contradicts(Run(start, before).state, e.observation)
      && Run(start, before).state.revision == Run(start, before + [e]).state.revision
  {
    hide Run, Contradicts;
    assert (before + [e])[..|before|] == before;
  }

  // ---------------------------------------------------------------------
  // Attempts
  // ---------------------------------------------------------------------

  /** Attempts are numbered in the order they were made. */
  ghost predicate Numbered(s: State) {
    && (forall i, j :: 0 <= i < j < |s.attempts| ==> s.attempts[i].sequence < s.attempts[j].sequence)
    && (forall i :: 0 <= i < |s.attempts| ==> s.attempts[i].sequence <= s.attemptCounter)
  }

  /** The event is why the attempt stands as it does. */
  predicate Explains(e: Event, a: Attempt) {
    match e
    case ApplyAcknowledged(ack) =>
      && ack.plan == a.plan && ack.sequence == a.sequence
      && if ack.observed != a.boundaryDigest then a.effect.Ambiguous?
         else a.observed == ack.observed && a.applierSequence == ack.applierSequence
              && (if ack.accepted then a.effect.Acknowledged? else a.effect.Failed?)
    case EffectVerified(report) =>
      && report.plan == a.plan && report.sequence == a.sequence
      && a.observed == report.observed && a.applierSequence == report.applierSequence
      && (a.effect.VerifiedApplied? <==> report.observation.Applied? && report.observed == a.boundaryDigest)
      && (a.effect.VerifiedReleased? <==> report.observation.Released? && report.observed == a.boundaryDigest)
      && (a.effect.Failed? <==> report.observation.NotApplied?)
      && (a.effect.VerifiedApplied? || a.effect.VerifiedReleased? || a.effect.Failed? || a.effect.Ambiguous?)
    case _ => false
  }

  /** Every attempt is as it was, explained by the event, or newly submitted. */
  ghost predicate AttemptsFollow(s: State, e: Event, t: State) {
    forall a <- t.attempts :: a in s.attempts || Explains(e, a) || a.effect.Submitted?
  }

  ghost predicate AttemptsStep(s: State, e: Event, t: State) {
    (Numbered(s) ==> Numbered(t)) && AttemptsFollow(s, e, t)
  }

  lemma AttemptsAlone(s: State, e: Event, t: State)
    requires t.attempts == s.attempts && t.attemptCounter == s.attemptCounter
    ensures AttemptsStep(s, e, t)
  {
  }

  lemma AttemptReplaced(s: State, e: Event, t: State, k: nat, after: Attempt)
    requires k < |s.attempts| && after.sequence == s.attempts[k].sequence && Explains(e, after)
    requires t.attempts == s.attempts[k := after] && t.attemptCounter == s.attemptCounter
    ensures AttemptsStep(s, e, t)
  {
    hide Explains;
  }

  lemma AttemptAdded(s: State, e: Event, t: State, a: Attempt)
    requires t.attempts == KeepLast(s.attempts + [a], s.config.maxAttempts) && t.attemptCounter == s.attemptCounter + 1
    requires a.sequence == t.attemptCounter && a.effect.Submitted?
    ensures AttemptsStep(s, e, t)
  {
    var all := s.attempts + [a];
    hide Explains, KeepLast;
    KeptLast(all, s.config.maxAttempts);
    var dropped := |all| - |t.attempts|;
    forall x <- t.attempts ensures x in s.attempts || x == a {
      var i :| 0 <= i < |t.attempts| && t.attempts[i] == x;
      assert x == all[dropped + i];
    }
    if Numbered(s) {
      assert forall i, j :: 0 <= i < j < |all| ==> all[i].sequence < all[j].sequence;
    }
  }

  lemma KeptLast<T>(s: seq<T>, n: nat)
    ensures |KeepLast(s, n)| <= |s|
    ensures forall i :: 0 <= i < |KeepLast(s, n)| ==> KeepLast(s, n)[i] == s[|s| - |KeepLast(s, n)| + i]
  {
  }

  lemma AcknowledgeAttempts(s: State, ack: Acknowledgement)
    ensures AttemptsStep(s, ApplyAcknowledged(ack), Acknowledge(s, ack).state)
  {
    hide RecomputedEffect, AttemptsStep;
    var t := Acknowledge(s, ack).state;
    var found := FindAttempt(s.attempts, ack.plan, ack.sequence);
    if t.attempts == s.attempts {
      AttemptsAlone(s, ApplyAcknowledged(ack), t);
    } else {
      var after := t.attempts[found.value];
      AttemptReplaced(s, ApplyAcknowledged(ack), t, found.value, after);
    }
  }

  lemma VerifyAttempts(s: State, report: Verification)
    ensures AttemptsStep(s, EffectVerified(report), VerifyEffect(s, report).state)
  {
    hide RecomputedEffect, AttemptsStep, Adopted, Boundary.Ids;
    var t := VerifyEffect(s, report).state;
    var found := FindAttempt(s.attempts, report.plan, report.sequence);
    if found.None? || CanVerify(s, s.attempts[found.value], report) != Ok {
      AttemptsAlone(s, EffectVerified(report), t);
    } else {
      var after := Reported(s.attempts[found.value], report);
      var s1 := s.Committed().(attempts := s.attempts[found.value := after]);
      SettlingKeepsMembers(s1, after, report);
      VerifyWrites(s, report);
      hide Settled, CanVerify;
      AttemptReplaced(s, EffectVerified(report), t, found.value, after);
    }
  }

  lemma SubmitAttempts(s: State, r: SubmitRequest)
    ensures AttemptsStep(s, ApplySubmitted(r), SubmitApply(s, r).state)
  {
    ValidatedFrame(s, r.authorization, true);
    hide Validated, AttemptsStep, KeepLast, Boundary.Ids, DigestOfBoundary;
    var t := SubmitApply(s, r).state;
    if t.attemptCounter == s.attemptCounter {
      AttemptsAlone(s, ApplySubmitted(r), t);
    } else {
      var plan := s.plans[FindPlan(s.plans, r.plan).value];
      AttemptAdded(s, ApplySubmitted(r), t,
                   Attempt(plan.generation, s.attemptCounter + 1, DigestOfBoundary(plan.boundary),
                           plan.boundary.generation, Submitted, 0, ZeroDigest));
    }
  }

  lemma EventAttempts(s: State, e: Event)
    ensures AttemptsStep(s, e, Next(s, e))
  {
    hide MakePlan, Transition, SubmitApply, Acknowledge, VerifyEffect, Validated, AttemptsStep;
    match e
    case ApplySubmitted(r) => SubmitAttempts(s, r);
    case ApplyAcknowledged(ack) => AcknowledgeAttempts(s, ack);
    case EffectVerified(report) => VerifyAttempts(s, report);
    case Planned(authorization, computed) =>
      PlanWrites(s, authorization, computed);
      AttemptsAlone(s, e, Next(s, e));
    case TransitionAsked(r) =>
      TransitionWrites(s, r);
      AttemptsAlone(s, e, Next(s, e));
    case _ => AttemptsAlone(s, e, Next(s, e));
  }

  /** In every run each attempt is still as submitted or an earlier event explains how it stands: nothing is verified
      but by a report of its own boundary in place, nothing acknowledged but by an accepting acknowledgement. */
  lemma {:induction false} EffectsExplained(start: State, events: seq<Event>)
    requires IsStart(start)
    ensures var s := Run(start, events).state;
      Numbered(s) && forall a <- s.attempts :: a.effect.Submitted? || exists e :: e in events && Explains(e, a)
  {
    hide Next, Explains;
    if events != [] {
      var n := |events| - 1;
      var s, t := Run(start, events[..n]).state, Run(start, events).state;
      EffectsExplained(start, events[..n]);
      EventAttempts(s, events[n]);
      forall a <- t.attempts ensures a.effect.Submitted? || exists e :: e in events && Explains(e, a) {
        if a in s.attempts && !a.effect.Submitted? {
          var e :| e in events[..n] && Explains(e, a);
          assert e in events;
        } else if !a.effect.Submitted? {
          assert Explains(events[n], a) && events[n] in events;
        }
      }
    }
  }

  // ---------------------------------------------------------------------
  // Decisions on reports
  // ---------------------------------------------------------------------

  predicate About(a: Attempt, plan: nat, sequence: nat) {
    a.plan == plan && a.sequence == sequence
  }

  lemma {:induction false} FoundByNumber(attempts: seq<Attempt>, plan: nat, sequence: nat, k: nat)
    requires forall i, j :: 0 <= i < j < |attempts| ==> attempts[i].sequence < attempts[j].sequence
    requires k < |attempts| && About(attempts[k], plan, sequence)
    ensures FindAttempt(attempts, plan, sequence) == Some(k)
  {
    if k > 0 {
      assert attempts[0].sequence < attempts[k].sequence;
      FoundByNumber(attempts[1..], plan, sequence, k - 1);
    }
  }

  lemma {:induction false} NothingFound(attempts: seq<Attempt>, plan: nat, sequence: nat)
    ensures FindAttempt(attempts, plan, sequence).None? <==> forall a <- attempts :: !About(a, plan, sequence)
  {
    if attempts != [] {
      NothingFound(attempts[1..], plan, sequence);
      assert attempts == [attempts[0]] + attempts[1..];
      assert attempts[0] in attempts;
    }
  }

  /** A report on an attempt that is not retained changes nothing. */
  lemma UnknownAttempt(s: State, ack: Acknowledgement, report: Verification)
    ensures Acknowledge(s, ack).code == NotFound <==> forall a <- s.attempts :: !About(a, ack.plan, ack.sequence)
    ensures VerifyEffect(s, report).code == NotFound <==> forall a <- s.attempts :: !About(a, report.plan, report.sequence)
    ensures Acknowledge(s, ack).code == NotFound ==> Acknowledge(s, ack).state == s
    ensures VerifyEffect(s, report).code == NotFound ==> VerifyEffect(s, report).state == s
  {
    NothingFound(s.attempts, ack.plan, ack.sequence);
    NothingFound(s.attempts, report.plan, report.sequence);
    hide FindAttempt, About, RecomputedEffect, Adopted;
  }

  predicate NewestFor(attempts: seq<Attempt>, plan: nat, k: nat) {
    && k < |attempts| && attempts[k].plan == plan
    && forall j :: 0 <= j < |attempts| && attempts[j].plan == plan ==> attempts[j].sequence <= attempts[k].sequence
  }

  /** The attempt picked for a plan has the highest number, and one is picked whenever there is one. */
  lemma {:induction false} NewestIsHighest(attempts: seq<Attempt>, plan: nat)
    ensures var r := Newest(attempts, plan);
            if r.Some? then NewestFor(attempts, plan, r.value) else forall a <- attempts :: a.plan != plan
  {
    if attempts != [] {
      var n := |attempts| - 1;
      NewestIsHighest(attempts[..n], plan);
      assert attempts == attempts[..n] + [attempts[n]];
    }
  }

  /** The summary is the state of the newest attempt for the plan in force, or that nothing was asked for yet. */
  ghost predicate Summarises(s: State) {
    && (forall k: nat :: NewestFor(s.attempts, s.boundaryPlan, k) ==> s.effect == s.attempts[k].effect)
    && ((forall a <- s.attempts :: a.plan != s.boundaryPlan) ==> s.effect.NotRequested?)
  }

  lemma RecomputedSummarises(s: State)
    requires Numbered(s) && !s.reverify && (s.boundaryPlan != 0 || s.boundary.Some?)
    ensures Summarises(Recomputed(s))
  {
    NewestIsHighest(s.attempts, s.boundaryPlan);
  }

  /** The acknowledgement comes from this incarnation, for an attempt still open, and is newer than the last word on it. */
  predicate Acknowledgeable(s: State, a: Attempt, ack: Acknowledgement) {
    && ack.expectedEpoch == s.epoch && ack.expectedBoot == s.boot
    && (a.effect.NotRequested? || a.effect.Submitted? || a.effect.Acknowledged?)
    && ack.applierSequence > a.applierSequence
  }

  /** The attempt at `k` alone changes, and the event explains it. */
  ghost predicate OnlyExplained(s: State, t: State, e: Event, k: nat) {
    && k < |s.attempts| == |t.attempts| && t.attempts == s.attempts[k := t.attempts[k]]
    && Explains(e, t.attempts[k]) && t.attempts[k].boundaryDigest == s.attempts[k].boundaryDigest
  }

  /** Which acknowledgements are taken, which are contradictions, and what a taken one leaves. */
  lemma AcknowledgementDecided(s: State, ack: Acknowledgement, k: nat)
    requires Numbered(s) && k < |s.attempts| && About(s.attempts[k], ack.plan, ack.sequence)
    ensures var t, a := Acknowledge(s, ack), s.attempts[k];
      && (t.code == Ok <==> Acknowledgeable(s, a, ack) && ack.observed == a.boundaryDigest)
      && (t.code == Conflict <==> Acknowledgeable(s, a, ack) && ack.observed != a.boundaryDigest)
      && (!Acknowledgeable(s, a, ack) ==> t.state == s)
      && (Acknowledgeable(s, a, ack) ==> OnlyExplained(s, t.state, ApplyAcknowledged(ack), k))
      && (t.code == Ok && !s.reverify && (s.boundary.Some? || s.boundaryPlan != 0) ==> Summarises(t.state))
  {
    FoundByNumber(s.attempts, ack.plan, ack.sequence, k);
    var t := Acknowledge(s, ack);
    AcknowledgeAttempts(s, ack);
    if t.code == Ok && !s.reverify && (s.boundary.Some? || s.boundaryPlan != 0) {
      RecomputedSummarises(t.state.(effect := s.effect));
    }
    hide RecomputedEffect, Summarises, Numbered, AttemptsFollow;
  }

  /** The report comes from this incarnation, for an attempt not yet settled by one, and is newer than the last word on it. */
  predicate Verifiable(s: State, a: Attempt, report: Verification) {
    && report.expectedEpoch == s.epoch && report.expectedBoot == s.boot
    && !IsVerified(a.effect) && !a.effect.FencedEffect? && !a.effect.Superseded?
    && report.applierSequence > a.applierSequence
  }

  /** Another boundary than the attempt's is reported as in place. */
  predicate Elsewhere(a: Attempt, report: Verification) {
    (report.observation.Applied? || report.observation.Released?) && report.observed != a.boundaryDigest
  }

  /** Which reports are taken, which are contradictions, and what a taken one leaves. */
  lemma ReportDecided(s: State, report: Verification, k: nat)
    requires Numbered(s) && k < |s.attempts| && About(s.attempts[k], report.plan, report.sequence)
    ensures var t, a := VerifyEffect(s, report), s.attempts[k];
      && (t.code == Ok <==> Verifiable(s, a, report) && !Elsewhere(a, report))
      && (t.code == Conflict <==> Verifiable(s, a, report) && Elsewhere(a, report))
      && (!Verifiable(s, a, report) ==> t.state == s)
      && (Verifiable(s, a, report) ==> OnlyExplained(s, t.state, EffectVerified(report), k))
      && (Verifiable(s, a, report) && !s.reverify && (s.boundary.Some? || s.boundaryPlan != 0) ==> Summarises(t.state))
  {
    FoundByNumber(s.attempts, report.plan, report.sequence, k);
    VerifyAttempts(s, report);
    VerifyWrites(s, report);
    var t := VerifyEffect(s, report).state;
    if Verifiable(s, s.attempts[k], report) {
      var after := Reported(s.attempts[k], report);
      SettlingKeepsMembers(s.Committed().(attempts := s.attempts[k := after]), after, report);
      if !s.reverify && (s.boundary.Some? || s.boundaryPlan != 0) { RecomputedSummarises(t.(effect := s.effect)); }
    }
    hide RecomputedEffect, Summarises, Numbered, AttemptsFollow, Adopted, Scope;
  }
}
