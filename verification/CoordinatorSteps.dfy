/** What a single coordinator step can and cannot do, whatever the state it starts from, and what stays ordered
    over any run of them. */
module CoordinatorSteps {
  import opened Boundaries
  import opened Collections
  import opened CoordinatorRuns
  import opened CoordinatorState
  import opened Resources

  /** Evidence only moves forward, a refusal leaves everything but the conflict flag alone, and the revision
      counts the accepted changes. */
  lemma DetectionForward(s: State, o: Observation)
    ensures var t := RecordDetection(s, o);
      && (t.code != Ok ==> t.state == s.(conflict := s.conflict || t.code.Conflict?))
      && (t.code == Ok ==>
            && o.resource in t.state.evidence
            && t.state.evidence[o.resource] == EvidenceEntry(o.state, o.generation, o.source))
      && (t.code == Ok ==> t.state.revision == s.revision + if t.state.evidence == s.evidence then 0 else 1)
      && (t.state.conflict && !s.conflict ==> t.code.Conflict?)
      && (forall r :: r in s.evidence ==>
            && r in t.state.evidence
            && s.evidence[r].generation <= t.state.evidence[r].generation
            && (r != o.resource ==> t.state.evidence[r] == s.evidence[r]))
  {
    if o.resource in s.evidence {
      assert s.evidence[o.resource := s.evidence[o.resource]] == s.evidence;
    }
  }

  lemma {:induction false} PrunedKeeps(entries: seq<Authorization>, now: nat, e: Authorization)
    requires e in entries && e.expires > now
    ensures e in Pruned(entries, now)
  {
    if entries[0].expires <= now {
      assert e in entries[1..];
      PrunedKeeps(entries[1..], now, e);
    }
  }

  /** Issuing drops no lease that still runs, and the table never outgrows its bound. */
  lemma AuthorizeBounded(s: State, e: Authorization)
    requires |s.authorizations| <= s.config.maxAuthorizations
    ensures var t := Authorize(s);
      && |t.state.authorizations| <= s.config.maxAuthorizations
      && (e in s.authorizations && e.expires > s.now ==> e in t.state.authorizations)
      && (t.code == Ok ==>
            exists a :: a in t.state.authorizations && a.id == s.authorizationCounter + 1
              && a.authority == s.CurrentAuthority() && !a.fenced)
  {
    var t := Authorize(s);
    PrunedShorter(s.authorizations, s.now);
    if e in s.authorizations && e.expires > s.now { PrunedKeeps(s.authorizations, s.now, e); }
    if t.code == Ok {
      var last := t.state.authorizations[|t.state.authorizations| - 1];
      assert last in t.state.authorizations && last.id == s.authorizationCounter + 1;
    }
  }

  lemma {:induction false} PrunedShorter(entries: seq<Authorization>, now: nat)
    ensures |Pruned(entries, now)| <= |entries|
  {
    if entries != [] { PrunedShorter(entries[1..], now); }
  }

  /** A new plan takes the next generation and no plan but the oldest is given up for it. */
  lemma PlanAppended(s: State, computed: Computed)
    requires s.config.maxPlans > 0 && |s.plans| <= s.config.maxPlans
    ensures var t := PlanFrom(s, computed);
      && (t.code != Ok ==> t.state == s)
      && (t.code == Ok ==> t.state.plans != [] && |t.state.plans| <= s.config.maxPlans)
      && (t.code == Ok ==> var p := t.state.plans[|t.state.plans| - 1];
            && p.generation == s.planCounter + 1 == t.state.planCounter
            && (computed.Cut? ==> p.boundary.generation == p.generation)
            && (s.conflict ==> !p.claim.ProvenContainment? && !p.claim.ProvenFeasibleNotMinimal? && !p.claim.ProvenInfeasible?))
      && (t.code == Ok ==> forall i :: 0 < i < |s.plans| ==> s.plans[i] in t.state.plans)
      && (t.code == Ok && |s.plans| < s.config.maxPlans ==> s.plans <= t.state.plans)
  {
    var t := PlanFrom(s, computed);
    if t.code == Ok {
      var p := t.state.plans[|t.state.plans| - 1];
      var all := s.plans + [p];
      assert t.state.plans == KeepLast(all, s.config.maxPlans);
      forall i | 0 < i < |s.plans| ensures s.plans[i] in t.state.plans {
        assert all[i] == s.plans[i];
        if |all| > s.config.maxPlans { assert t.state.plans[i - (|all| - s.config.maxPlans)] == all[i]; }
      }
    }
  }

  /** A refused transition takes a number and a record, and changes no intent, plan or attempt. */
  lemma RefusalChangesNothing(s: State, r: TransitionRequest)
    requires !Transition(s, r).status.Accepted?
    ensures var t := Transition(s, r).state;
      t == s.(transitionCounter := s.transitionCounter + 1, sequence := s.sequence + 1, authorizations := t.authorizations)
  {
    hide Judged, Validated, Installed, FindPlan;
    ValidationFences(s.(transitionCounter := s.transitionCounter + 1), r.authorization, false);
  }

  /** Checking a lease changes nothing but the lease table. */
  lemma ValidationFences(s: State, id: nat, requireApply: bool)
    ensures var t := Validated(s, id, requireApply).state; t == s.(authorizations := t.authorizations)
  {
  }

  /** A submission makes exactly one attempt, for the current decision or a plan with its membership, and only
      while nothing is in flight or verified. */
  lemma SubmissionMakesOne(s: State, r: SubmitRequest)
    requires s.config.maxAttempts > 0
    ensures var t := SubmitApply(s, r);
      && (t.code != Ok ==> t.state == s.(authorizations := t.state.authorizations))
      && (t.code == Ok ==> s.boundary.Some? && (s.effect.NotRequested? || s.effect.Failed? || s.effect.Ambiguous?))
      && (t.code == Ok ==> t.state.attempts != [] && t.state.effect.Submitted?)
      && (t.code == Ok ==> r.planDigest in s.plans && NewAttempt(s, t.state, r.planDigest) && InForce(s, r.planDigest))
  {
    hide DigestOfBoundary, Boundary.Ids, Validated;
    ValidationFences(s, r.authorization, true);
    var t := SubmitApply(s, r);
    if t.code == Ok {
      var v := Validated(s, r.authorization, true).state;
      var i := FindPlan(v.plans, r.plan).value;
      assert s.plans[i] == r.planDigest;
    }
  }

  /** The plan is the current decision or has the membership of the current boundary. */
  ghost predicate InForce(s: State, plan: Plan) {
    && s.boundary.Some?
    && (plan.boundary.Ids() == s.boundary.value.Ids()
        || (plan.generation == s.boundaryPlan && plan.boundary.generation == s.boundary.value.generation))
  }

  /** The newest attempt of `after` is the only one `before` did not have. */
  ghost predicate NewAttempt(before: State, after: State, plan: Plan) {
    && after.attempts != []
    && var a := after.attempts[|after.attempts| - 1];
    && a.plan == plan.generation && a.sequence == before.attemptCounter + 1 == after.attemptCounter
    && a.boundaryDigest == DigestOfBoundary(plan.boundary) && a.effect.Submitted?
    && forall k :: 0 <= k < |after.attempts| - 1 ==> after.attempts[k] in before.attempts
  }

  /** An acknowledgement never counts as applied, and a digest mismatch leaves the summary effect alone. */
  lemma AcknowledgementNeverVerifies(s: State, ack: Acknowledgement)
    ensures var t := Acknowledge(s, ack);
      && |t.state.attempts| == |s.attempts|
      && (forall k :: 0 <= k < |s.attempts| && IsVerified(t.state.attempts[k].effect) ==> t.state.attempts[k] == s.attempts[k])
      && (t.code.Conflict? ==> t.state.effect == s.effect)
      && (t.code.Conflict? ==>
            exists k :: 0 <= k < |s.attempts| && s.attempts[k].plan == ack.plan && t.state.attempts[k].effect.Ambiguous?)
      && t.state.boundary == s.boundary && t.state.boundaryPlan == s.boundaryPlan
  {
    hide RecomputedEffect;
    var t := Acknowledge(s, ack);
    if t.code.Conflict? {
      var k := FindAttempt(s.attempts, ack.plan, ack.sequence).value;
      assert t.state.attempts[k].effect.Ambiguous?;
    }
  }

  /** An attempt becomes verified only through a report of its own boundary's digest, and what it makes current
      has the membership of what was current before. */
  lemma VerificationNeedsDigest(s: State, report: Verification)
    ensures var t := VerifyEffect(s, report);
      && |t.state.attempts| == |s.attempts|
      && (forall k :: 0 <= k < |s.attempts| && IsVerified(t.state.attempts[k].effect) && !IsVerified(s.attempts[k].effect) ==>
            s.attempts[k].plan == report.plan && s.attempts[k].sequence == report.sequence
            && report.observed == s.attempts[k].boundaryDigest)
      && (t.state.boundary.Some? <==> s.boundary.Some?)
      && (s.boundary.Some? ==> t.state.boundary.value.Ids() == s.boundary.value.Ids())
  {
    hide Boundary.Ids, Settled;
    var found := FindAttempt(s.attempts, report.plan, report.sequence);
    if found.Some? {
      var after := Reported(s.attempts[found.value], report);
      SettlingKeepsMembers(s.Committed().(attempts := s.attempts[found.value := after]), after, report);
    }
  }

  lemma SettlingKeepsMembers(s: State, after: Attempt, report: Verification)
    ensures var t := Settled(s, after, report).state;
      && (t.boundary.Some? <==> s.boundary.Some?)
      && (s.boundary.Some? ==> t.boundary.value.Ids() == s.boundary.value.Ids()) && t.attempts == s.attempts
  {
    hide RecomputedEffect, Boundary.Ids, Adopted;
    AdoptionKeepsMembers(s.(reverify := false), report.plan);
  }

  lemma AdoptionKeepsMembers(s: State, plan: nat)
    ensures var t := Adopted(s, plan);
      && (t.boundary.Some? <==> s.boundary.Some?)
      && (s.boundary.Some? ==> t.boundary.value.Ids() == s.boundary.value.Ids()) && t.attempts == s.attempts
  {
    hide Boundary.Ids;
  }

  // ---------------------------------------------------------------------
  // Over runs
  // ---------------------------------------------------------------------

  /** What was published by `s` is still covered by `t`: generations only grow, and the same revision means the
      same evidence. */
  ghost predicate Forward(s: State, t: State) {
    && s.topology <= t.topology && s.policy <= t.policy && s.revision <= t.revision
    && (s.revision == t.revision ==> s.evidence == t.evidence)
    && forall r :: r in s.evidence ==> r in t.evidence && s.evidence[r].generation <= t.evidence[r].generation
  }

  lemma ForwardTransitive(a: State, b: State, c: State)
    requires Forward(a, b) && Forward(b, c)
    ensures Forward(a, c)
  {
  }

  lemma StepForward(s: State, e: Event)
    ensures Forward(s, Next(s, e))
  {
    if e.Detected? {
      DetectionForward(s, e.observation);
      hide MergeEvidence;
    } else if !e.AuthorizationAsked? && !MovesDefinitions(e) {
      hide Next;
      StepFrame(s, e);
    }
  }

  /** In every run topology, policy, revision and evidence only move forward, and whenever two states of a run
      carry the same revision they carry the same evidence. */
  lemma {:induction false} RunForward(start: State, events: seq<Event>, later: seq<Event>)
    ensures Forward(Run(start, events).state, Run(start, events + later).state)
    decreases |later|
  {
    hide Next, Forward, Run;
    if later == [] {
      assert events + later == events;
      SameForward(Run(start, events).state);
    } else {
      var n := |later| - 1;
      RunForward(start, events, later[..n]);
      LastStep(start, events + later[..n], later[n]);
      assert events + later == events + later[..n] + [later[n]];
      StepForward(Run(start, events + later[..n]).state, later[n]);
      ForwardTransitive(Run(start, events).state, Run(start, events + later[..n]).state, Run(start, events + later).state);
    }
  }

  lemma LastStep(start: State, events: seq<Event>, e: Event)
    ensures Run(start, events + [e]).state == Next(Run(start, events).state, e)
  {
    hide Next;
    var all := events + [e];
    assert all[..|all| - 1] == events && all[|all| - 1] == e;
  }

  lemma SameForward(s: State)
    ensures Forward(s, s)
  {
  }
}
