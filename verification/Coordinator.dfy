/** The coordinator as the object it is: fields updated in place, each operation one locked step. */
module Coordinator {
  import opened Boundaries
  import opened Collections
  import opened CoordinatorState
  import opened Resources
  import opened Sorting

  class ContainmentRuntime {
    const config: Config
    const epoch: nat
    const boot: nat
    var now: nat
    var sequence: nat
    var topology: nat
    var policy: nat
    var evidence: map<ResourceId, EvidenceEntry>
    var revision: nat
    var conflict: bool
    var planCounter: nat
    var transitionCounter: nat
    var attemptCounter: nat
    var authorizationCounter: nat
    var boundary: Option<Boundary>
    var boundaryPlan: nat
    var effect: EffectState
    var reverify: bool
    var plans: seq<Plan>
    var attempts: seq<Attempt>
    var authorizations: seq<Authorization>

    function Now(): State
      reads this
    {
      State(config, now, epoch, boot, sequence, topology, policy, evidence, revision, conflict,
            planCounter, transitionCounter, attemptCounter, authorizationCounter,
            boundary, boundaryPlan, effect, reverify, plans, attempts, authorizations)
    }

    /** Boundaries are held in canonical order, as the searches over them need. */
    ghost predicate Valid()
      reads this
    {
      && config.Accepted()
      && (forall i :: 0 <= i < |plans| ==> plans[i].boundary.Sorted())
      && (boundary.Some? ==> boundary.value.Sorted())
    }

    constructor (config: Config, now: nat, epoch: nat, boot: nat, topology: nat, policy: nat)
      requires config.Accepted()
      ensures Valid() && Now() == Start(config, now, epoch, boot, topology, policy)
    {
      this.config, this.now, this.epoch, this.boot := config, now, epoch, boot;
      this.topology, this.policy := topology, policy;
      sequence, evidence, revision, conflict := 0, map[], 0, false;
      planCounter, transitionCounter, attemptCounter, authorizationCounter := 0, 0, 0, 0;
      boundary, boundaryPlan, effect, reverify := None, 0, NotRequested, false;
      plans, attempts, authorizations := [], [], [];
    }

    /** Appends a durable record and publishes the new sequence. */
    method Commit()
      modifies `sequence
      ensures sequence == old(sequence) + 1
    {
      sequence := sequence + 1;
    }

    method ApplyTopology(generation: Positive) returns (code: Code)
      requires Valid()
      modifies `sequence, `topology
      ensures Valid() && Step(Now(), code) == CoordinatorState.ApplyTopology(old(Now()), generation)
    {
      if topology != 0 && !(topology < generation) { return StaleGeneration; }
      Commit();
      topology := generation;
      code := Ok;
    }

    method ApplyPolicy(generation: Positive) returns (code: Code)
      requires Valid()
      modifies `sequence, `policy
      ensures Valid() && Step(Now(), code) == CoordinatorState.ApplyPolicy(old(Now()), generation)
    {
      if !(policy < generation) { return StaleGeneration; }
      Commit();
      policy := generation;
      code := Ok;
    }

    method RecordDetection(o: Observation) returns (code: Code)
      requires Valid()
      modifies `sequence, `evidence, `revision, `conflict
      ensures Valid() && Step(Now(), code) == CoordinatorState.RecordDetection(old(Now()), o)
    {
      hide MergeEvidence, Boundary.Sorted;
      if o.generation == 0 { return InvalidArgument; }
      var merged := MergeEvidence(evidence, o);
      if merged.MergeRefused? {
        if merged.code.Conflict? { conflict := true; }
        return merged.code;
      }
      if merged.evidence != evidence { AcceptEvidence(merged.evidence); }
      code := Ok;
    }

    /** Records a change of the evidence and publishes it. */
    method AcceptEvidence(after: map<ResourceId, EvidenceEntry>)
      requires Valid()
      modifies `sequence, `evidence, `revision, `conflict
      ensures Valid()
      ensures Now() == old(Now()).(sequence := old(sequence) + 1, evidence := after, revision := old(revision) + 1, conflict := false)
    {
      hide Boundary.Sorted;
      Commit();
      evidence := after;
      revision := revision + 1;
      conflict := false;
    }

    method Authorize() returns (code: Code)
      requires Valid()
      modifies `authorizations, `authorizationCounter
      ensures Valid() && Step(Now(), code) == CoordinatorState.Authorize(old(Now()))
    {
      while authorizations != [] && authorizations[0].expires <= now
        invariant Pruned(authorizations, now) == Pruned(old(authorizations), now)
        invariant Valid() && Now() == old(Now()).(authorizations := authorizations)
        decreases |authorizations|
      {
        authorizations := authorizations[1..];
      }
      if |authorizations| >= config.maxAuthorizations { return Exhausted; }
      authorizationCounter := authorizationCounter + 1;
      authorizations := authorizations
        + [Authorization(authorizationCounter, Now().CurrentAuthority(), now + config.lease, true, false)];
      code := Ok;
    }

    /** Checks a presented authorization, fencing it when it is stale or expired. */
    method ValidateAuthorization(id: nat, requireApply: bool) returns (code: Code)
      requires Valid()
      modifies `authorizations
      ensures Valid() && Step(Now(), code) == Validated(old(Now()), id, requireApply)
    {
      if id == 0 { return Unauthorized; }
      var found := FindAuthorization(authorizations, id);
      if found.None? { return Unauthorized; }
      var entry := authorizations[found.value];
      if entry.fenced { return Fenced; }
      var check := ValidateAuthority(entry.authority, Now().CurrentAuthority());
      if !check.Valid? {
        authorizations := authorizations[found.value := entry.(fenced := true)];
        return if check.FencedBoot? then Fenced else StaleGeneration;
      }
      if now >= entry.expires {
        authorizations := authorizations[found.value := entry.(fenced := true)];
        return StaleGeneration;
      }
      if requireApply && !entry.allowsApply { return Denied; }
      code := Ok;
    }

    method ComposePlan(computed: Computed) returns (code: Code)
      requires Valid()
      modifies `sequence, `planCounter, `plans
      ensures Valid() && Step(Now(), code) == PlanFrom(old(Now()), computed)
    {
      hide SortBy, Boundary.Sorted, Creatable, Downgraded;
      if topology == 0 { return Unsupported; }
      if computed.Refusal? { return PlannerRefused; }
      var chosen := BLANK;
      BlankIsSorted();
      if computed.Cut? {
        var created := Create(planCounter + 1, computed.members);
        if created.CreateRefused? { return PlannerRefused; }
        chosen := created.boundary;
      }
      RetainPlan(Plan(planCounter + 1, Downgraded(conflict, computed.claim), chosen));
      code := Ok;
    }

    /** Records the plan and keeps it with the newest ones. */
    method RetainPlan(plan: Plan)
      requires Valid() && plan.boundary.Sorted()
      modifies `sequence, `planCounter, `plans
      ensures Valid()
      ensures Now() == old(Now()).(sequence := old(sequence) + 1, planCounter := old(planCounter) + 1,
                                   plans := KeepLast(old(plans) + [plan], config.maxPlans))
    {
      hide Boundary.Sorted, KeepLast;
      Commit();
      planCounter := planCounter + 1;
      plans := plans + [plan];
      EvictPlans();
    }

    /** `computed` is what the planner returned for the current definitions. */
    method MakePlan(authorization: nat, computed: Computed) returns (code: Code)
      requires Valid()
      modifies `authorizations, `sequence, `planCounter, `plans
      ensures Valid() && Step(Now(), code) == CoordinatorState.MakePlan(old(Now()), authorization, computed)
    {
      hide Validated, PlanFrom, Boundary.Sorted;
      code := ValidateAuthorization(authorization, false);
      if code == Ok { code := ComposePlan(computed); }
    }

    /** The oldest plans beyond the retention bound are dropped. */
    method EvictPlans()
      requires Valid()
      modifies `plans
      ensures Valid() && plans == KeepLast(old(plans), config.maxPlans)
    {
      hide Boundary.Sorted;
      while |plans| > config.maxPlans
        invariant Valid() && KeepLast(plans, config.maxPlans) == KeepLast(old(plans), config.maxPlans)
        decreases |plans|
      {
        plans := plans[1..];
      }
    }

    method EvictAttempts()
      requires Valid()
      modifies `attempts
      ensures Valid() && attempts == KeepLast(old(attempts), config.maxAttempts)
    {
      hide Boundary.Sorted;
      while |attempts| > config.maxAttempts
        invariant KeepLast(attempts, config.maxAttempts) == KeepLast(old(attempts), config.maxAttempts)
        decreases |attempts|
      {
        attempts := attempts[1..];
      }
    }

    /** The newest retained attempt of the plan in force decides the summary effect state. */
    method RecomputeEffectState()
      requires Valid()
      modifies `effect
      ensures Valid() && Now() == Recomputed(old(Now()))
    {
      hide Boundary.Sorted;
      if reverify {
        effect := Ambiguous;
        return;
      }
      if boundaryPlan == 0 && boundary.None? {
        effect := NotRequested;
        return;
      }
      var newest: Option<nat> := None;
      for i := 0 to |attempts|
        invariant newest == Newest(attempts[..i], boundaryPlan)
        invariant Now() == old(Now()) && Valid()
      {
        assert attempts[..i + 1][..i] == attempts[..i];
        if attempts[i].plan == boundaryPlan && (newest.None? || attempts[newest.value].sequence < attempts[i].sequence) {
          newest := Some(i);
        }
      }
      assert attempts[..|attempts|] == attempts;
      effect := if newest.None? then NotRequested else attempts[newest.value].effect;
    }

    method Acknowledge(ack: Acknowledgement) returns (code: Code)
      requires Valid()
      modifies `sequence, `attempts, `effect
      ensures Valid() && Step(Now(), code) == CoordinatorState.Acknowledge(old(Now()), ack)
    {
      hide Boundary.Sorted, RecomputedEffect;
      var found := FindAttempt(attempts, ack.plan, ack.sequence);
      if found.None? { return NotFound; }
      if ack.expectedEpoch != epoch { return StaleGeneration; }
      if ack.expectedBoot != boot { return Fenced; }
      var attempt := attempts[found.value];
      if IsTerminal(attempt.effect) { return AlreadyExists; }
      if !(ack.applierSequence > attempt.applierSequence) { return SequenceRegression; }
      if ack.observed != attempt.boundaryDigest {
        attempts := attempts[found.value := attempt.(effect := Ambiguous)];
        Commit();
        return Conflict;
      }
      attempt := attempt.(applierSequence := ack.applierSequence, observed := ack.observed);
      attempt := attempt.(effect := if ack.accepted then Acknowledged else Failed);
      attempts := attempts[found.value := attempt];
      Commit();
      RecomputeEffectState();
      code := Ok;
    }

    method VerifyEffect(report: Verification) returns (code: Code)
      requires Valid()
      modifies `sequence, `attempts, `effect, `reverify, `boundary, `boundaryPlan
      ensures Valid() && Step(Now(), code) == CoordinatorState.VerifyEffect(old(Now()), report)
    {
      hide Boundary.Sorted, Boundary.Ids, Settled;
      var found := FindAttempt(attempts, report.plan, report.sequence);
      if found.None? { return NotFound; }
      if report.expectedEpoch != epoch { return StaleGeneration; }
      if report.expectedBoot != boot { return Fenced; }
      var attempt := attempts[found.value];
      if IsVerified(attempt.effect) { return AlreadyExists; }
      if attempt.effect.FencedEffect? || attempt.effect.Superseded? { return Fenced; }
      if !(report.applierSequence > attempt.applierSequence) { return SequenceRegression; }
      var matches := report.observed == attempt.boundaryDigest;
      attempt := attempt.(applierSequence := report.applierSequence, observed := report.observed);
      match report.observation {
        case Applied => attempt := attempt.(effect := if matches then VerifiedApplied else Ambiguous);
        case Released => attempt := attempt.(effect := if matches then VerifiedReleased else Ambiguous);
        case NotApplied => attempt := attempt.(effect := Failed);
        case PartiallyApplied => attempt := attempt.(effect := Ambiguous);
        case Unclear => attempt := attempt.(effect := Ambiguous);
      }
      assert attempt == Reported(attempts[found.value], report);
      attempts := attempts[found.value := attempt];
      Commit();
      code := Settle(attempt, report);
    }

    /** A verified report may make its plan the current decision; the summary state follows. */
    method Settle(attempt: Attempt, report: Verification) returns (code: Code)
      requires Valid()
      modifies `effect, `reverify, `boundary, `boundaryPlan
      ensures Valid() && Step(Now(), code) == Settled(old(Now()), attempt, report)
    {
      hide Boundary.Sorted, Boundary.Ids, RecomputedEffect, Adopted;
      if attempt.observed != attempt.boundaryDigest && (report.observation.Applied? || report.observation.Released?) {
        RecomputeEffectState();
        return Conflict;
      }
      if IsVerified(attempt.effect) {
        reverify := false;
        Adopt(report.plan);
      }
      RecomputeEffectState();
      code := Ok;
    }

    /** A plan with the membership of the current boundary becomes the current decision. */
    method Adopt(plan: nat)
      requires Valid()
      modifies `boundary, `boundaryPlan
      ensures Valid() && Now() == Adopted(old(Now()), plan)
    {
      hide Boundary.Sorted, Boundary.Ids;
      var found := FindPlan(plans, plan);
      if found.None? || boundary.None? { return; }
      var same := SameMembers(plans[found.value].boundary, boundary.value);
      if same {
        boundary := Some(plans[found.value].boundary);
        boundaryPlan := plans[found.value].generation;
      }
    }

    method JudgeSubmission(r: SubmitRequest, plan: Plan) returns (code: Code)
      requires Valid() && plan.boundary.Sorted()
      ensures code == SubmissionJudged(Now(), r, plan)
    {
      hide Boundary.Sorted, Boundary.Ids;
      if plan != r.planDigest { return Conflict; }
      if boundary.None? { return StaleGeneration; }
      var sameDecision := boundaryPlan == plan.generation && boundary.value.generation == plan.boundary.generation;
      var reassertion := SameMembers(plan.boundary, boundary.value);
      if !sameDecision && !reassertion { return StaleGeneration; }
      if !(effect.NotRequested? || effect.Failed? || effect.Ambiguous?) { return AlreadyExists; }
      code := Ok;
    }

    method RecordAttempt(plan: Plan)
      requires Valid()
      modifies `sequence, `attemptCounter, `attempts, `effect
      ensures Valid() && Now() == WithAttempt(old(Now()), plan)
    {
      hide Boundary.Sorted, DigestOfBoundary, KeepLast;
      attemptCounter := attemptCounter + 1;
      var attempt := Attempt(plan.generation, attemptCounter, DigestOfBoundary(plan.boundary), plan.boundary.generation,
                             Submitted, 0, ZeroDigest);
      Commit();
      attempts := attempts + [attempt];
      effect := Submitted;
      EvictAttempts();
    }

    method SubmitApply(r: SubmitRequest) returns (code: Code)
      requires Valid()
      modifies `authorizations, `sequence, `attemptCounter, `attempts, `effect
      ensures Valid() && Step(Now(), code) == CoordinatorState.SubmitApply(old(Now()), r)
    {
      hide Boundary.Sorted, Validated, SubmissionJudged, WithAttempt;
      code := ValidateAuthorization(r.authorization, true);
      if code != Ok { return; }
      var found := FindPlan(plans, r.plan);
      if found.None? { return NotFound; }
      var plan := plans[found.value];
      code := JudgeSubmission(r, plan);
      if code != Ok { return; }
      RecordAttempt(plan);
    }

    /** Whether the requested kind of change fits the current boundary and the plan. */
    method CheckKind(kind: TransitionKind, plan: Plan) returns (allowed: bool)
      requires Valid() && plan.boundary.Sorted()
      ensures allowed <==> KindAllows(kind, boundary, plan)
    {
      hide Boundary.Sorted, Boundary.Ids;
      match kind {
        case Expand =>
          if boundary.None? { return true; }
          allowed := IsSubsetOf(boundary.value, plan.boundary);
        case Contract =>
          if boundary.None? { return false; }
          var subset := IsSubsetOf(plan.boundary, boundary.value);
          if !subset { return false; }
          var same := SameMembers(plan.boundary, boundary.value);
          allowed := !same;
        case Release =>
          allowed := plan.boundary.members == [] && plan.Releasable();
      }
    }

    method Judge(r: TransitionRequest, plan: Plan) returns (verdict: Verdict)
      requires Valid() && plan.boundary.Sorted()
      ensures verdict == Judged(Now(), r, plan)
    {
      hide Boundary.Sorted, KindAllows;
      if plan != r.planDigest { return Verdict(InvalidTransition, Conflict); }
      var current := if boundary.Some? then boundary.value.generation else 0;
      if current != r.expectedCurrent { return Verdict(StaleTransition, StaleGeneration); }
      if r.expectedReleased != boundary.None? { return Verdict(StaleTransition, StaleGeneration); }
      if boundary.Some? && !IsVerified(effect) { return Verdict(IndeterminateTransition, AmbiguousEffect); }
      var allowed := CheckKind(r.kind, plan);
      if !allowed {
        return if r.kind.Release? then Verdict(DeniedTransition, Denied) else Verdict(InvalidTransition, InvalidArgument);
      }
      if !(plan.generation > boundaryPlan) && boundaryPlan != 0 { return Verdict(StaleTransition, StaleGeneration); }
      verdict := Verdict(Accepted, Ok);
    }

    /** The decision and the boundary are two records. */
    method CommitDecision()
      modifies `sequence
      ensures sequence == old(sequence) + 2
    {
      Commit();
      Commit();
    }

    /** Records the decision and the boundary, then makes the boundary current. */
    method Install(kind: TransitionKind, plan: Plan)
      requires Valid() && plan.boundary.Sorted()
      modifies `sequence, `boundary, `boundaryPlan, `effect, `reverify
      ensures Valid() && Now() == Installed(old(Now()), kind, plan)
    {
      hide Boundary.Sorted;
      CommitDecision();
      boundary := if kind.Release? then None else Some(plan.boundary);
      boundaryPlan := plan.generation;
      effect := NotRequested;
      reverify := false;
    }

    method Transition(r: TransitionRequest) returns (status: TransitionStatus, code: Code)
      requires Valid()
      modifies `authorizations, `sequence, `transitionCounter, `boundary, `boundaryPlan, `effect, `reverify
      ensures Valid() && Decision(Now(), status, code) == CoordinatorState.Transition(old(Now()), r)
    {
      hide Boundary.Sorted, Validated, Decided;
      transitionCounter := transitionCounter + 1;
      status := StaleTransition;
      code := ValidateAuthorization(r.authorization, false);
      if code != Ok {
        Commit();
        return;
      }
      status, code := Decide(r);
    }

    /** Finds the plan, judges the request and records the outcome. */
    method Decide(r: TransitionRequest) returns (status: TransitionStatus, code: Code)
      requires Valid()
      modifies `sequence, `boundary, `boundaryPlan, `effect, `reverify
      ensures Valid() && Decision(Now(), status, code) == Decided(old(Now()), r)
    {
      hide Boundary.Sorted, Judged, Installed;
      var found := FindPlan(plans, r.plan);
      if found.None? {
        Commit();
        return StaleTransition, NotFound;
      }
      var plan := plans[found.value];
      var verdict := Judge(r, plan);
      status, code := verdict.status, verdict.code;
      if !status.Accepted? {
        Commit();
        return;
      }
      Install(r.kind, plan);
      code := Ok;
    }
  }

  lemma BlankIsSorted()
    ensures BLANK.Sorted()
  {
  }
}
