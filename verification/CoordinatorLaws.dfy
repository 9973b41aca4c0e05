/** Which requests a coordinator accepts, said without its order of checks, and what an accepted one leads to over
    every run. */
module CoordinatorLaws {
  import opened Boundaries
  import opened Collections
  import opened CoordinatorReports
  import opened CoordinatorRuns
  import opened CoordinatorState
  import opened CoordinatorSteps
  import opened Resources
  import opened Sorting

  // ---------------------------------------------------------------------
  // Transitions
  // ---------------------------------------------------------------------

  /** The plan is retained as the caller saw it. */
  predicate Retained(s: State, plan: Plan, generation: nat) {
    plan in s.plans && plan.generation == generation
  }

  /** The lease runs, the plan is retained as the caller saw it, and the caller knows what is in force. */
  ghost predicate Addressed(h: History, s: State, r: TransitionRequest) {
    && Current(h, s.now, r.authorization) && Retained(s, r.planDigest, r.plan)
    && (r.expectedReleased <==> s.boundary.None?)
    && r.expectedCurrent == (if s.boundary.Some? then s.boundary.value.generation else 0)
  }

  /** What the enforcement plane was last asked for is known to be in place. */
  predicate InPlace(s: State) {
    s.boundary.Some? ==> IsVerified(s.effect)
  }

  /** Expansion keeps every member, contraction gives some up, release needs a proof that nothing is to be contained. */
  ghost predicate RightKind(s: State, kind: TransitionKind, plan: Plan) {
    var members := set m | m in plan.boundary.members :: m.resource;
    match kind
    case Expand => Scope(s).Some? ==> Scope(s).value <= members
    case Contract => Scope(s).Some? && members < Scope(s).value
    case Release => plan.claim.ProvenContainment? && members == {}
  }

  /** Nothing in force, or something older. */
  predicate NewerThanInForce(s: State, plan: Plan) {
    s.boundaryPlan == 0 || plan.generation > s.boundaryPlan
  }

  lemma MembersAreIds(b: Boundary)
    ensures b.Ids() == set m | m in b.members :: m.resource
    ensures b.members == [] <==> b.Ids() == {}
  {
    var named := set m | m in b.members :: m.resource;
    forall x | x in b.Ids() ensures x in named {
      var i :| 0 <= i < |b.members| && b.members[i].resource == x;
      assert b.members[i] in b.members;
    }
    forall x | x in named ensures x in b.Ids() {
      var m :| m in b.members && m.resource == x;
      var i :| 0 <= i < |b.members| && b.members[i] == m;
    }
    if b.members != [] { assert b.members[0].resource in b.Ids(); }
  }

  lemma KindMeans(s: State, kind: TransitionKind, plan: Plan)
    ensures KindAllows(kind, s.boundary, plan) <==> RightKind(s, kind, plan)
  {
    MembersAreIds(plan.boundary);
    hide Boundary.Ids;
  }

  /** Generations name plans: the plan found under a generation is the retained one. */
  lemma FoundIsRetained(catalog: seq<Plan>, s: State, generation: nat, plan: Plan)
    requires IntentOk(catalog, s)
    ensures Retained(s, plan, generation)
            <==> FindPlan(s.plans, generation).Some? && s.plans[FindPlan(s.plans, generation).value] == plan
  {
    hide CatalogOk, AttemptOk, ScopeOk, VerifiedFor;
    var found := FindPlan(s.plans, generation);
    if Retained(s, plan, generation) {
      var i :| 0 <= i < |s.plans| && s.plans[i] == plan;
      assert InCatalog(catalog, s.plans[i]);
      assert found.Some?;
      assert InCatalog(catalog, s.plans[found.value]);
    }
  }

  lemma JudgedMeans(s: State, r: TransitionRequest, plan: Plan)
    requires plan == r.planDigest
    ensures var addressed := (r.expectedReleased <==> s.boundary.None?)
                             && r.expectedCurrent == (if s.boundary.Some? then s.boundary.value.generation else 0);
            var status := Judged(s, r, plan).status;
            && (status.Accepted? <==> addressed && InPlace(s) && RightKind(s, r.kind, plan) && NewerThanInForce(s, plan))
            && (status.IndeterminateTransition? <==> addressed && !InPlace(s))
            && (status.DeniedTransition? <==> addressed && InPlace(s) && r.kind.Release? && !RightKind(s, r.kind, plan))
            && (status.InvalidTransition? <==> addressed && InPlace(s) && !r.kind.Release? && !RightKind(s, r.kind, plan))
  {
    KindMeans(s, r.kind, plan);
    hide KindAllows, RightKind;
  }

  lemma DecidedMeans(catalog: seq<Plan>, s: State, r: TransitionRequest)
    requires IntentOk(catalog, s)
    ensures var d := Decided(s, r);
            && (d.status.Accepted? <==> Retained(s, r.planDigest, r.plan) && Judged(s, r, r.planDigest).status.Accepted?)
            && (d.status.IndeterminateTransition?
                <==> Retained(s, r.planDigest, r.plan) && Judged(s, r, r.planDigest).status.IndeterminateTransition?)
            && (d.status.DeniedTransition?
                <==> Retained(s, r.planDigest, r.plan) && Judged(s, r, r.planDigest).status.DeniedTransition?)
  {
    FoundIsRetained(catalog, s, r.plan, r.planDigest);
    hide KindAllows, IntentOk, Retained;
  }

  /** In every run a transition is accepted exactly when the lease runs, the plan is retained under this digest, the
      caller knows what is in force and that is verified, the sets fit the kind, and the plan is the newer one. It is
      indeterminate exactly when the rest is right but what is in force is not verified, and denied exactly for a
      release without its proof. */
  lemma TransitionAcceptedExactly(start: State, events: seq<Event>, r: TransitionRequest)
    requires IsStart(start)
    ensures var run := Run(start, events);
            var s, status := run.state, Transition(run.state, r).status;
            && (status.Accepted? <==> && Addressed(run.history, s, r) && InPlace(s)
                                      && RightKind(s, r.kind, r.planDigest) && NewerThanInForce(s, r.planDigest))
            && (status.IndeterminateTransition? <==> Addressed(run.history, s, r) && !InPlace(s))
            && (status.DeniedTransition? <==> && Addressed(run.history, s, r) && InPlace(s)
                                              && r.kind.Release? && !RightKind(s, r.kind, r.planDigest))
  {
    hide Run, LeasesOk, IntentOk, Validated, Decided, Judged, RightKind, NewerThanInForce, Current, InPlace;
    RunKeeps(start, events);
    var h, s := Run(start, events).history, Run(start, events).state;
    LeaseAcceptedExactly(start, events, r.authorization, false);
    CountedSame(s, r.authorization);
    var v := Validated(s.(transitionCounter := s.transitionCounter + 1), r.authorization, false).state;
    IntentUncounted(h.catalog, s, v);
    DecidedMeans(h.catalog, v, r);
    JudgedMeans(v, r, r.planDigest);
    SameQuestions(s, v, r);
  }

  lemma IntentUncounted(catalog: seq<Plan>, s: State, v: State)
    requires IntentOk(catalog, s) && v == s.(transitionCounter := v.transitionCounter, authorizations := v.authorizations)
    ensures IntentOk(catalog, v)
  {
    hide CatalogOk, InCatalog, AttemptOk, VerifiedFor;
  }

  lemma SameQuestions(s: State, v: State, r: TransitionRequest)
    requires v == s.(transitionCounter := v.transitionCounter, authorizations := v.authorizations)
    ensures InPlace(v) == InPlace(s) && RightKind(v, r.kind, r.planDigest) == RightKind(s, r.kind, r.planDigest)
    ensures NewerThanInForce(v, r.planDigest) == NewerThanInForce(s, r.planDigest)
    ensures Retained(v, r.planDigest, r.plan) == Retained(s, r.planDigest, r.plan)
  {
    hide Boundary.Ids;
  }

  /** In every run an accepted transition puts a strictly newer plan in force, and only a report on an attempt moves
      the plan in force otherwise: to the retained plan it names, which governs the same resources. */
  lemma InForceMoves(start: State, events: seq<Event>, e: Event)
    requires IsStart(start)
    ensures var s, t := Run(start, events).state, Run(start, events + [e]).state;
            && (e.TransitionAsked? && Transition(s, e.transition).status.Accepted? ==>
                  t.boundaryPlan == e.transition.plan > s.boundaryPlan)
            && (t.boundaryPlan != s.boundaryPlan && !(e.TransitionAsked? && Transition(s, e.transition).status.Accepted?) ==>
                  && e.EffectVerified? && t.boundaryPlan == e.report.plan
                  && s.boundary.Some? && t.boundary.Some? && Scope(t) == Scope(s))
  {
    hide Run, LeasesOk, IntentOk, Transition, Next, Judged, RightKind, Boundary.Ids;
    RunKeeps(start, events);
    var h, s := Run(start, events).history, Run(start, events).state;
    LastStep(start, events, e);
    MovesStep(s, e);
    if e.TransitionAsked? && Transition(s, e.transition).status.Accepted? {
      TransitionAcceptedExactly(start, events, e.transition);
      GenerationPositive(h.catalog, s, e.transition.planDigest);
    }
  }

  lemma GenerationPositive(catalog: seq<Plan>, s: State, plan: Plan)
    requires IntentOk(catalog, s) && plan in s.plans
    ensures plan.generation >= 1
  {
    var i :| 0 <= i < |s.plans| && s.plans[i] == plan;
    assert InCatalog(catalog, s.plans[i]);
  }

  lemma MovesStep(s: State, e: Event)
    ensures var t := Next(s, e);
            && (e.TransitionAsked? && Transition(s, e.transition).status.Accepted? ==>
                  t.boundaryPlan == e.transition.planDigest.generation == e.transition.plan)
            && (t.boundaryPlan != s.boundaryPlan && !(e.TransitionAsked? && Transition(s, e.transition).status.Accepted?) ==>
                  && e.EffectVerified? && t.boundaryPlan == e.report.plan
                  && s.boundary.Some? && t.boundary.Some? && Scope(t) == Scope(s))
  {
    hide MakePlan, Transition, SubmitApply, Acknowledge, VerifyEffect, Validated, Scope, KindAllows;
    match e
    case Planned(authorization, computed) => PlanWrites(s, authorization, computed);
    case TransitionAsked(r) => TransitionWrites(s, r);
    case ApplySubmitted(r) => SubmitWrites(s, r);
    case ApplyAcknowledged(ack) => AcknowledgeWrites(s, ack);
    case EffectVerified(report) => VerifyMoves(s, report);
    case _ =>
  }

  lemma VerifyMoves(s: State, report: Verification)
    ensures var t := VerifyEffect(s, report).state;
            t.boundaryPlan != s.boundaryPlan ==>
              t.boundaryPlan == report.plan && s.boundary.Some? && t.boundary.Some? && Scope(t) == Scope(s)
  {
    VerifyWrites(s, report);
    hide RecomputedEffect, CanVerify, Scope, Boundary.Ids;
  }

  // ---------------------------------------------------------------------
  // The plan in force can go back
  // ---------------------------------------------------------------------

  /** A verified report re-establishes the current membership under an older plan. */
  ghost predicate GoesBack(s: State, report: Verification) {
    && report.plan < s.boundaryPlan && s.boundary.Some?
    && (report.observation.Applied? || report.observation.Released?)
    && (exists plan :: plan in s.plans && plan.generation == report.plan && plan.boundary.Ids() == s.boundary.value.Ids())
    && (exists a :: && a in s.attempts && About(a, report.plan, report.sequence) && Verifiable(s, a, report)
                    && report.observed == a.boundaryDigest)
  }

  lemma Adopts(catalog: seq<Plan>, s: State, plan: nat)
    requires IntentOk(catalog, s.(effect := NotRequested))
    ensures Adopted(s, plan).boundaryPlan ==
      if s.boundary.Some? && exists p :: p in s.plans && p.generation == plan && p.boundary.Ids() == s.boundary.value.Ids()
      then plan else s.boundaryPlan
  {
    hide CatalogOk, AttemptOk, ScopeOk, VerifiedFor, Boundary.Ids;
    var found := FindPlan(s.plans, plan);
    if found.Some? { assert s.plans[found.value] in s.plans; }
    if p :| p in s.plans && p.generation == plan {
      FoundIsRetained(catalog, s.(effect := NotRequested), plan, p);
    }
  }

  lemma AttemptAt(s: State, report: Verification, k: nat)
    requires Numbered(s) && k < |s.attempts| && About(s.attempts[k], report.plan, report.sequence)
    ensures forall a <- s.attempts :: About(a, report.plan, report.sequence) ==> a == s.attempts[k]
  {
    forall a <- s.attempts | About(a, report.plan, report.sequence) ensures a == s.attempts[k] {
      var i :| 0 <= i < |s.attempts| && s.attempts[i] == a;
    }
  }

  lemma VerifiedMoves(catalog: seq<Plan>, s: State, report: Verification, k: nat)
    requires IntentOk(catalog, s) && Numbered(s) && k < |s.attempts| && About(s.attempts[k], report.plan, report.sequence)
    ensures var a := s.attempts[k];
            VerifyEffect(s, report).state.boundaryPlan ==
              if Verifiable(s, a, report) && (report.observation.Applied? || report.observation.Released?)
                 && report.observed == a.boundaryDigest
              then Adopted(s, report.plan).boundaryPlan else s.boundaryPlan
  {
    FoundByNumber(s.attempts, report.plan, report.sequence, k);
    hide RecomputedEffect, IntentOk, Numbered, Boundary.Ids;
  }

  /** In every run a report takes the plan in force back exactly when it finds an open attempt's own boundary in place
      and that attempt's plan is retained, older, and governs the current resources. */
  lemma InForceGoesBackExactly(start: State, events: seq<Event>, report: Verification)
    requires IsStart(start)
    ensures var s := Run(start, events).state;
            VerifyEffect(s, report).state.boundaryPlan < s.boundaryPlan <==> GoesBack(s, report)
  {
    hide Run, LeasesOk, IntentOk, VerifyEffect, Adopted, Boundary.Ids, Numbered;
    RunKeeps(start, events);
    EffectsExplained(start, events);
    var h, s := Run(start, events).history, Run(start, events).state;
    UnknownReport(s, report);
    if exists a :: a in s.attempts && About(a, report.plan, report.sequence) {
      var a :| a in s.attempts && About(a, report.plan, report.sequence);
      var k :| 0 <= k < |s.attempts| && s.attempts[k] == a;
      AttemptAt(s, report, k);
      VerifiedMoves(h.catalog, s, report, k);
      IntentUnasked(h.catalog, s);
      Adopts(h.catalog, s, report.plan);
    }
  }

  lemma UnknownReport(s: State, report: Verification)
    ensures (forall a <- s.attempts :: !About(a, report.plan, report.sequence)) ==> VerifyEffect(s, report).state == s
  {
    UnknownAttempt(s, Acknowledgement(0, 0, 0, 0, 0, ZeroDigest, false), report);
  }

  lemma IntentUnasked(catalog: seq<Plan>, s: State)
    requires IntentOk(catalog, s)
    ensures IntentOk(catalog, s.(effect := NotRequested))
  {
    hide CatalogOk, InCatalog, AttemptOk;
  }

  /** Nothing in `later` takes the plan in force back. */
  ghost predicate NeverBack(start: State, events: seq<Event>, later: seq<Event>) {
    forall i :: 0 <= i < |later| && later[i].EffectVerified? ==>
                  !GoesBack(Run(start, events + later[..i]).state, later[i].report)
  }

  lemma {:induction false} InForceForward(start: State, events: seq<Event>, later: seq<Event>)
    requires IsStart(start) && NeverBack(start, events, later)
    ensures Run(start, events).state.boundaryPlan <= Run(start, events + later).state.boundaryPlan
    decreases |later|
  {
    hide Run, Next, GoesBack, Transition, VerifyEffect;
    if later == [] {
      assert events + later == events;
    } else {
      var n := |later| - 1;
      var before, e := later[..n], later[n];
      assert forall i :: 0 <= i < n ==> before[..i] == later[..i];
      InForceForward(start, events, before);
      assert events + later == events + before + [e];
      InForceMoves(start, events + before, e);
      if e.EffectVerified? {
        InForceGoesBackExactly(start, events + before, e.report);
        LastStep(start, events + before, e);
        VerifyIsNext(Run(start, events + before).state, e);
      }
    }
  }

  lemma TransitionIsNext(s: State, r: TransitionRequest)
    ensures Next(s, TransitionAsked(r)) == Transition(s, r).state
  {
    hide Transition;
  }

  lemma VerifyIsNext(s: State, e: Event)
    requires e.EffectVerified?
    ensures Next(s, e) == VerifyEffect(s, e.report).state
  {
    hide VerifyEffect;
  }

  /** Accepted decisions carry ever newer plans, as long as no report in between takes the plan in force back. */
  lemma AcceptedAscend(start: State, events: seq<Event>, first: TransitionRequest, later: seq<Event>, second: TransitionRequest)
    requires IsStart(start)
    requires Transition(Run(start, events).state, first).status.Accepted?
    requires NeverBack(start, events + [TransitionAsked(first)], later)
    requires Transition(Run(start, events + [TransitionAsked(first)] + later).state, second).status.Accepted?
    ensures second.plan > first.plan
  {
    hide Run, Transition, NeverBack;
    InForceMoves(start, events, TransitionAsked(first));
    InForceForward(start, events + [TransitionAsked(first)], later);
    InForceMoves(start, events + [TransitionAsked(first)] + later, TransitionAsked(second));
  }

  // A run in which the decision in force goes back and the same plan is accepted twice.

  const ONE := Member("a", 1, false, [], false)
  const CONFIG := Config(1000, 4, 4, 4)
  const FRESH := Start(CONFIG, 0, 1, 1, 0, 0)

  function MadePlan(n: nat): Plan { Plan(n, ProvenContainment, Boundary(n, [ONE])) }

  const ASK := TransitionRequest(Expand, 2, MadePlan(2), 0, true, 1)
  const ASK_AGAIN := TransitionRequest(Expand, 2, MadePlan(2), 1, false, 1)
  const PLANNED := Planned(1, Cut(ProvenContainment, [ONE]))
  const PREPARE := [TopologyApplied(1)] + [AuthorizationAsked] + [PLANNED] + [PLANNED]
  const REASSERT := [ApplySubmitted(SubmitRequest(1, MadePlan(1), 1)),
                     EffectVerified(Verification(1, 1, 1, 1, 1, DigestOf(Boundary(1, [ONE])), Applied))]

  const PREPARED := Start(CONFIG, 0, 1, 1, 0, 0).(
    topology := 1, sequence := 3, authorizationCounter := 1, planCounter := 2,
    authorizations := [Authorization(1, Authority(1, 1, 0, 1, 0, map[]), 1000, true, false)],
    plans := [MadePlan(1), MadePlan(2)])

  lemma LeaseRuns(s: State, requireApply: bool)
    requires s.authorizations == PREPARED.authorizations && s.CurrentAuthority() == PREPARED.authorizations[0].authority && s.now == 0
    ensures Validated(s, 1, requireApply) == Step(s, Ok)
  {
  }

  lemma OnePlan(s: State)
    requires s.topology == 1 && s.planCounter <= 1 && !s.conflict && s.config == CONFIG && |s.plans| == s.planCounter
    requires s.authorizations == PREPARED.authorizations && s.CurrentAuthority() == PREPARED.authorizations[0].authority && s.now == 0
    ensures Next(s, PLANNED) == s.Committed().(planCounter := s.planCounter + 1, plans := s.plans + [MadePlan(s.planCounter + 1)])
  {
    LeaseRuns(s, false);
    hide Validated;
    assert Sorting.SortBy(MemberLess, [ONE]) == [ONE];
    assert Creatable(s.planCounter + 1, [ONE]);
  }

  const LOADED := FRESH.(sequence := 1, topology := 1)
  const LEASED := LOADED.(authorizationCounter := 1, authorizations := PREPARED.authorizations)

  lemma Leasing()
    ensures Next(FRESH, TopologyApplied(1)) == LOADED && Next(LOADED, AuthorizationAsked) == LEASED
  {
  }

  lemma PlanningTwice()
    ensures Next(Next(LEASED, PLANNED), PLANNED) == PREPARED
  {
    hide Next;
    OnePlan(LEASED);
    OnePlan(Next(LEASED, PLANNED));
  }

  lemma Preparing()
    ensures Run(FRESH, PREPARE).state == PREPARED
  {
    Leasing();
    PlanningTwice();
    OneStep(FRESH, TopologyApplied(1));
    LastStep(FRESH, [TopologyApplied(1)], AuthorizationAsked);
    LastStep(FRESH, [TopologyApplied(1)] + [AuthorizationAsked], PLANNED);
    LastStep(FRESH, [TopologyApplied(1)] + [AuthorizationAsked] + [PLANNED], PLANNED);
    hide Run, Next;
  }

  lemma OneStep(start: State, e: Event)
    ensures Run(start, [e]).state == Next(start, e)
  {
    hide Next;
    assert [e][..0] == [];
  }

  const IN_FORCE := PREPARED.(
    transitionCounter := 1, sequence := 5, boundary := Some(Boundary(2, [ONE])), boundaryPlan := 2)

  lemma FirstAccepted()
    ensures Transition(PREPARED, ASK) == Decision(IN_FORCE, Accepted, Ok)
  {
    LeaseRuns(PREPARED.(transitionCounter := 1), false);
    hide Validated;
    assert FindPlan(PREPARED.plans, 2) == Some(1);
  }

  const REASSERTED := IN_FORCE.(
    sequence := 7, boundary := Some(Boundary(1, [ONE])), boundaryPlan := 1, effect := VerifiedApplied, attemptCounter := 1,
    attempts := [Attempt(1, 1, DigestOf(Boundary(1, [ONE])), 1, VerifiedApplied, 1, DigestOf(Boundary(1, [ONE])))])

  lemma SameMembers()
    ensures MadePlan(1).boundary.Ids() == MadePlan(2).boundary.Ids()
  {
  }

  const SUBMITTED := IN_FORCE.(
    sequence := 6, effect := Submitted, attemptCounter := 1,
    attempts := [Attempt(1, 1, DigestOf(Boundary(1, [ONE])), 1, Submitted, 0, ZeroDigest)])

  lemma Submitting()
    ensures Next(IN_FORCE, REASSERT[0]) == SUBMITTED
  {
    LeaseRuns(IN_FORCE, true);
    assert FindPlan(IN_FORCE.plans, 1) == Some(0);
    SameMembers();
    hide Validated, Boundary.Ids;
  }

  lemma Reasserting()
    ensures Next(SUBMITTED, REASSERT[1]) == REASSERTED
  {
    assert FindPlan(SUBMITTED.plans, 1) == Some(0);
    SameMembers();
    hide Boundary.Ids;
    assert FindAttempt(SUBMITTED.attempts, 1, 1) == Some(0);
    assert Newest(REASSERTED.attempts, 1) == Some(0);
  }

  lemma SecondAccepted()
    ensures Transition(REASSERTED, ASK_AGAIN).status.Accepted?
  {
    LeaseRuns(REASSERTED.(transitionCounter := 2), false);
    hide Validated;
    assert FindPlan(REASSERTED.plans, 2) == Some(1);
    SameMembers();
    hide Boundary.Ids;
  }

  /** A decision is accepted, an attempt under an older plan of the same membership is verified, and the same decision
      is accepted again. */
  lemma SamePlanTwice()
    ensures IsStart(FRESH)
    ensures Transition(Run(FRESH, PREPARE).state, ASK).status.Accepted?
    ensures Transition(Run(FRESH, PREPARE + [TransitionAsked(ASK)] + REASSERT).state, ASK_AGAIN).status.Accepted?
    ensures ASK_AGAIN.plan == ASK.plan
  {
    hide Run, Next, Transition;
    Preparing();
    FirstAccepted();
    LastStep(FRESH, PREPARE, TransitionAsked(ASK));
    TransitionIsNext(PREPARED, ASK);
    var made := PREPARE + [TransitionAsked(ASK)];
    LastStep(FRESH, made, REASSERT[0]);
    LastStep(FRESH, made + [REASSERT[0]], REASSERT[1]);
    assert made + [REASSERT[0]] + [REASSERT[1]] == made + REASSERT;
    Submitting();
    Reasserting();
    SecondAccepted();
  }

  // ---------------------------------------------------------------------
  // Submissions and plans
  // ---------------------------------------------------------------------

  /** In every run a submission is accepted exactly when the lease runs, the plan is retained as the caller saw it and in
      force, and nothing is in flight or verified. */
  lemma SubmissionAcceptedExactly(start: State, events: seq<Event>, r: SubmitRequest)
    requires IsStart(start)
    ensures var run := Run(start, events);
            var s := run.state;
            SubmitApply(s, r).code == Ok
            <==> && Current(run.history, s.now, r.authorization) && Retained(s, r.planDigest, r.plan) && InForce(s, r.planDigest)
                 && (s.effect.NotRequested? || s.effect.Failed? || s.effect.Ambiguous?)
  {
    hide Run, LeasesOk, IntentOk, Validated, Current, Boundary.Ids;
    RunKeeps(start, events);
    var h, s := Run(start, events).history, Run(start, events).state;
    LeaseAcceptedExactly(start, events, r.authorization, true);
    ValidatedFrame(s, r.authorization, true);
    FoundIsRetained(h.catalog, s, r.plan, r.planDigest);
  }

  /** The chosen members can make a boundary, whatever their order. */
  ghost predicate FitForBoundary(members: seq<Member>) {
    && |members| <= MAX_MEMBERS && (forall m <- members :: MemberOk(m))
    && (forall i, j :: 0 <= i < j < |members| ==> members[i].resource != members[j].resource)
  }

  lemma CreatableMeans(generation: nat, members: seq<Member>)
    requires generation > 0
    ensures Creatable(generation, members) <==> FitForBoundary(members)
  {
    IdOrder();
    if FitForBoundary(members) {
      forall i, j | 0 <= i < j < |members| ensures MemberLess(members[i], members[j]) || MemberLess(members[j], members[i]) {
        assert members[i].resource != members[j].resource;
      }
      assert forall i :: 0 <= i < |members| ==> members[i] in members;
    }
    if Creatable(generation, members) {
      forall i, j | 0 <= i < j < |members| ensures members[i].resource != members[j].resource {
        if members[i].resource == members[j].resource {
          SameIdNotLess(members[i], members[j]);
          SameIdNotLess(members[j], members[i]);
        }
      }
    }
  }

  /** In every run a plan is made exactly when the lease runs, a topology is loaded and the planner chose members that
      can make a boundary; the plan holds those members under its own generation, and its claim unless evidence conflicts. */
  lemma PlanMadeExactly(start: State, events: seq<Event>, authorization: nat, computed: Computed)
    requires IsStart(start)
    ensures var run := Run(start, events);
            var s, t := run.state, MakePlan(run.state, authorization, computed);
            && (t.code == Ok <==> && Current(run.history, s.now, authorization) && s.topology != 0
                                  && !computed.Refusal? && (computed.Cut? ==> FitForBoundary(computed.members)))
            && (t.code == Ok ==>
                  && |t.state.plans| > 0
                  && HoldsComputed(s.planCounter + 1, s.conflict, t.state.plans[|t.state.plans| - 1], computed))
  {
    hide Run, LeasesOk, IntentOk, Validated, Current, FitForBoundary, Creatable, PlanFrom, HoldsComputed;
    RunKeeps(start, events);
    var h, s := Run(start, events).history, Run(start, events).state;
    LeaseAcceptedExactly(start, events, authorization, false);
    ValidatedFrame(s, authorization, false);
    var v := Validated(s, authorization, false).state;
    if computed.Cut? { CreatableMeans(s.planCounter + 1, computed.members); }
    IntentSees(h.catalog, s, v);
    KeptNewest(v, computed);
  }

  /** What a plan made from `computed` says. */
  ghost predicate HoldsComputed(generation: nat, conflict: bool, plan: Plan, computed: Computed) {
    && plan.generation == generation && !computed.Refusal?
    && (if computed.Cut?
        then plan.boundary.generation == generation && multiset(plan.boundary.members) == multiset(computed.members)
        else plan.boundary == BLANK)
    && (plan.claim == computed.claim
        || (conflict && plan.claim.Indeterminate? && !computed.claim.Invalid? && !computed.claim.NotSupported?))
    && (conflict ==> plan.claim.Indeterminate? || plan.claim.Invalid? || plan.claim.NotSupported?)
  }

  lemma KeptNewest(s: State, computed: Computed)
    requires s.config.maxPlans > 0
    ensures var t := PlanFrom(s, computed);
      && (t.code == Ok <==> && s.topology != 0 && !computed.Refusal?
                            && (computed.Cut? ==> Creatable(s.planCounter + 1, computed.members)))
      && (t.code == Ok ==>
            |t.state.plans| > 0 && HoldsComputed(s.planCounter + 1, s.conflict, t.state.plans[|t.state.plans| - 1], computed))
  {
    hide Creatable, SortBy;
    if computed.Cut? { SortedSameMembers(computed.members); }
    hide SortedBy, StrictlySortedBy, Separated, MemberLess;
    var t := PlanFrom(s, computed);
    if t.code == Ok {
      var plan := t.state.plans[|t.state.plans| - 1];
      assert plan == (s.plans + [plan])[|s.plans|];
    }
  }

  // ---------------------------------------------------------------------
  // Definitions, leases and records
  // ---------------------------------------------------------------------

  /** A topology or policy is taken exactly when it is strictly newer than the one held. */
  lemma DefinitionsDecided(s: State, generation: Positive)
    ensures var t := ApplyTopology(s, generation);
      if s.topology < generation then t.code == Ok && t.state == s.(topology := generation, sequence := s.sequence + 1)
      else t == Step(s, StaleGeneration)
    ensures var t := ApplyPolicy(s, generation);
      if s.policy < generation then t.code == Ok && t.state == s.(policy := generation, sequence := s.sequence + 1)
      else t == Step(s, StaleGeneration)
  {
  }

  lemma {:induction false} PrunedFront(entries: seq<Authorization>, now: nat) returns (k: nat)
    ensures k <= |entries| && Pruned(entries, now) == entries[k..]
    ensures (forall i :: 0 <= i < k ==> entries[i].expires <= now) && (k < |entries| ==> entries[k].expires > now)
    decreases |entries|
  {
    k := 0;
    if entries != [] && entries[0].expires <= now {
      var rest := PrunedFront(entries[1..], now);
      assert entries[1..][rest..] == entries[rest + 1..];
      forall i | 0 <= i < rest + 1 ensures entries[i].expires <= now {
        if i > 0 { assert entries[i] == entries[1..][i - 1]; }
      }
      k := rest + 1;
    }
  }

  /** The ended leases at the front go; a lease is issued exactly when that leaves room, as the youngest, on the current
      definitions and for the configured time. */
  lemma IssuedExactly(s: State) returns (k: nat)
    ensures k <= |s.authorizations| && (forall i :: 0 <= i < k ==> s.authorizations[i].expires <= s.now)
    ensures k < |s.authorizations| ==> s.authorizations[k].expires > s.now
    ensures var t, kept := Authorize(s), s.authorizations[k..];
      if |kept| < s.config.maxAuthorizations
      then && t.code == Ok && t.state.authorizationCounter == s.authorizationCounter + 1
           && t.state.authorizations ==
                kept + [Authorization(s.authorizationCounter + 1,
                                      Authority(s.epoch, s.boot, s.policy, s.topology, s.revision, s.evidence),
                                      s.now + s.config.lease, true, false)]
      else t == Step(s.(authorizations := kept), Exhausted)
  {
    k := PrunedFront(s.authorizations, s.now);
    hide Pruned;
  }

  /** What the event adds to the durable log: one record for each change that is published, one for each refused
      transition, two for an accepted one. */
  ghost function RecordsOf(s: State, e: Event): nat {
    match e
    case ClockAdvances(_) => 0
    case TopologyApplied(topology) => if s.topology < topology then 1 else 0
    case PolicyApplied(policy) => if s.policy < policy then 1 else 0
    case Detected(o) => if Next(s, e).evidence != s.evidence then 1 else 0
    case AuthorizationAsked => 0
    case Planned(authorization, computed) => if MakePlan(s, authorization, computed).code == Ok then 1 else 0
    case TransitionAsked(r) => if Transition(s, r).status.Accepted? then 2 else 1
    case ApplySubmitted(r) => if SubmitApply(s, r).code == Ok then 1 else 0
    case ApplyAcknowledged(ack) => if Acknowledge(s, ack).code in {Ok, Conflict} then 1 else 0
    case EffectVerified(report) => if VerifyEffect(s, report).code in {Ok, Conflict} then 1 else 0
  }

  lemma RecordsCounted(s: State, e: Event)
    ensures Next(s, e).sequence == s.sequence + RecordsOf(s, e)
  {
    hide MakePlan, Transition, SubmitApply, Acknowledge, VerifyEffect, Pruned;
    match e
    case Planned(authorization, computed) => PlanCounted(s, authorization, computed);
    case TransitionAsked(r) => TransitionCounted(s, r);
    case ApplySubmitted(r) => SubmitCounted(s, r);
    case ApplyAcknowledged(ack) => AcknowledgeCounted(s, ack);
    case EffectVerified(report) => VerifyCounted(s, report);
    case Detected(o) => DetectionDecided(s, o);
    case _ =>
  }

  lemma PlanCounted(s: State, authorization: nat, computed: Computed)
    ensures var t := MakePlan(s, authorization, computed); t.state.sequence == s.sequence + if t.code == Ok then 1 else 0
  {
    ValidatedFrame(s, authorization, false);
    hide Validated, Creatable, SortBy, KeepLast, Downgraded;
  }

  lemma TransitionCounted(s: State, r: TransitionRequest)
    ensures var d := Transition(s, r); d.state.sequence == s.sequence + if d.status.Accepted? then 2 else 1
  {
    CountedSame(s, r.authorization);
    hide Validated, Judged;
  }

  lemma SubmitCounted(s: State, r: SubmitRequest)
    ensures var t := SubmitApply(s, r); t.state.sequence == s.sequence + if t.code == Ok then 1 else 0
  {
    ValidatedFrame(s, r.authorization, true);
    hide Validated, SubmissionJudged, KeepLast, DigestOfBoundary;
  }

  lemma AcknowledgeCounted(s: State, ack: Acknowledgement)
    ensures var t := Acknowledge(s, ack); t.state.sequence == s.sequence + if t.code in {Ok, Conflict} then 1 else 0
  {
    hide RecomputedEffect;
  }

  lemma VerifyCounted(s: State, report: Verification)
    ensures var t := VerifyEffect(s, report); t.state.sequence == s.sequence + if t.code in {Ok, Conflict} then 1 else 0
  {
    hide RecomputedEffect, Boundary.Ids;
  }
}
