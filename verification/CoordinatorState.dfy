/** One coordinator incarnation: its state, and what each locked operation does to it. */
module CoordinatorState {
  import opened Boundaries
  import opened Collections
  import opened Resources
  import opened Sorting

  type Positive = n: nat | n > 0 witness 1

  datatype Code =
    | Ok | Unauthorized | Fenced | StaleGeneration | Denied | NotFound | Conflict | AlreadyExists
    | SequenceRegression | InvalidArgument | LimitExceeded | Unsupported | Exhausted | AmbiguousEffect | PlannerRefused

  // ---------------------------------------------------------------------
  // Authority
  // ---------------------------------------------------------------------

  datatype EvidenceState = Present | Absent | NoEvidence
  datatype EvidenceEntry = EvidenceEntry(state: EvidenceState, generation: nat, source: int)

  /** What makes a decision legal. The evidence vector stands for its digest. */
  datatype Authority = Authority(
    epoch: nat, boot: nat, policy: nat, topology: nat, revision: nat, evidence: map<ResourceId, EvidenceEntry>)

  datatype AuthorityState = Valid | StaleEpoch | StalePolicy | StaleTopology | StaleEvidence | FencedBoot

  function ValidateAuthority(presented: Authority, current: Authority): AuthorityState {
    if presented.boot != current.boot then FencedBoot
    else if presented.epoch != current.epoch then StaleEpoch
    else if presented.policy != current.policy then StalePolicy
    else if presented.topology != current.topology then StaleTopology
    else if presented.revision != current.revision || presented.evidence != current.evidence then StaleEvidence
    else Valid
  }

  datatype Authorization = Authorization(id: nat, authority: Authority, expires: nat, allowsApply: bool, fenced: bool)

  // ---------------------------------------------------------------------
  // Plans, attempts, state
  // ---------------------------------------------------------------------

  datatype Claim = ProvenContainment | ProvenFeasibleNotMinimal | Indeterminate | ProvenInfeasible | Invalid | NotSupported

  datatype Plan = Plan(generation: nat, claim: Claim, boundary: Boundary) {
    predicate Releasable() { claim.ProvenContainment? && boundary.members == [] }
  }

  datatype EffectState =
    | NotRequested | Submitted | Acknowledged | VerifiedApplied | VerifiedReleased
    | Failed | Ambiguous | FencedEffect | Superseded

  predicate IsVerified(e: EffectState) { e.VerifiedApplied? || e.VerifiedReleased? }

  predicate IsTerminal(e: EffectState) { !(e.NotRequested? || e.Submitted? || e.Acknowledged?) }

  datatype Attempt = Attempt(
    plan: nat, sequence: nat, boundaryDigest: Digest, boundaryGeneration: nat, effect: EffectState,
    applierSequence: nat, observed: Digest)

  datatype Config = Config(lease: nat, maxPlans: nat, maxAttempts: nat, maxAuthorizations: nat) {
    predicate Accepted() { maxPlans > 0 && maxAttempts > 0 && maxAuthorizations > 0 }
  }

  datatype State = State(
    config: Config, now: nat, epoch: nat, boot: nat, sequence: nat,
    topology: nat, policy: nat, evidence: map<ResourceId, EvidenceEntry>, revision: nat, conflict: bool,
    planCounter: nat, transitionCounter: nat, attemptCounter: nat, authorizationCounter: nat,
    boundary: Option<Boundary>, boundaryPlan: nat, effect: EffectState, reverify: bool,
    plans: seq<Plan>, attempts: seq<Attempt>, authorizations: seq<Authorization>)
  {
    function CurrentAuthority(): Authority {
      Authority(epoch, boot, policy, topology, revision, evidence)
    }

    function Committed(): State { this.(sequence := sequence + 1) }
  }

  /** A fresh incarnation over an empty store; topology 0 means none is loaded. */
  function Start(config: Config, now: nat, epoch: nat, boot: nat, topology: nat, policy: nat): State {
    State(config, now, epoch, boot, 0, topology, policy, map[], 0, false, 0, 0, 0, 0,
          None, 0, NotRequested, false, [], [], [])
  }

  datatype Step = Step(state: State, code: Code)

  /** The newest `n` entries. */
  function KeepLast<T>(s: seq<T>, n: nat): seq<T> {
    if |s| > n then s[|s| - n..] else s
  }

  function FindPlan(plans: seq<Plan>, generation: nat): (r: Option<nat>)
    ensures r.Some? ==> r.value < |plans| && plans[r.value].generation == generation
    ensures r.None? ==> forall i :: 0 <= i < |plans| ==> plans[i].generation != generation
  {
    if plans == [] then None
    else if plans[0].generation == generation then Some(0)
    else
      var r := FindPlan(plans[1..], generation);
      if r.None? then None else Some(r.value + 1)
  }

  function FindAttempt(attempts: seq<Attempt>, plan: nat, sequence: nat): (r: Option<nat>)
    ensures r.Some? ==> r.value < |attempts| && attempts[r.value].plan == plan && attempts[r.value].sequence == sequence
  {
    if attempts == [] then None
    else if attempts[0].plan == plan && attempts[0].sequence == sequence then Some(0)
    else
      var r := FindAttempt(attempts[1..], plan, sequence);
      if r.None? then None else Some(r.value + 1)
  }

  function FindAuthorization(entries: seq<Authorization>, id: nat): (r: Option<nat>)
    ensures r.Some? ==> r.value < |entries| && entries[r.value].id == id
    ensures r.None? ==> forall i :: 0 <= i < |entries| ==> entries[i].id != id
  {
    if entries == [] then None
    else if entries[0].id == id then Some(0)
    else
      var r := FindAuthorization(entries[1..], id);
      if r.None? then None else Some(r.value + 1)
  }

  // ---------------------------------------------------------------------
  // Definitions and evidence
  // ---------------------------------------------------------------------

  function ApplyTopology(s: State, generation: Positive): Step {
    if s.topology != 0 && !(s.topology < generation) then Step(s, StaleGeneration)
    else Step(s.Committed().(topology := generation), Ok)
  }

  function ApplyPolicy(s: State, generation: Positive): Step {
    if !(s.policy < generation) then Step(s, StaleGeneration)
    else Step(s.Committed().(policy := generation), Ok)
  }

  const MAX_EVIDENCE: nat := 65536

  datatype Observation = Observation(resource: ResourceId, state: EvidenceState, generation: nat, source: int)

  datatype Merge = Merged(evidence: map<ResourceId, EvidenceEntry>) | MergeRefused(code: Code)

  function MergeEvidence(evidence: map<ResourceId, EvidenceEntry>, o: Observation): Merge {
    var next := EvidenceEntry(o.state, o.generation, o.source);
    if o.resource == "" then MergeRefused(InvalidArgument)
    else if o.resource !in evidence then
      if |evidence| + 1 > MAX_EVIDENCE then MergeRefused(LimitExceeded) else Merged(evidence[o.resource := next])
    else
      var held := evidence[o.resource];
      if o.generation < held.generation then MergeRefused(SequenceRegression)
      else if o.generation == held.generation then
        if held.source != o.source || held.state != o.state then MergeRefused(Conflict) else Merged(evidence)
      else Merged(evidence[o.resource := next])
  }

  function RecordDetection(s: State, o: Observation): Step {
    if o.generation == 0 then Step(s, InvalidArgument)
    else
      match MergeEvidence(s.evidence, o)
      case MergeRefused(code) => Step(if code.Conflict? then s.(conflict := true) else s, code)
      case Merged(evidence) =>
        if evidence == s.evidence then Step(s, Ok)
        else Step(s.Committed().(evidence := evidence, revision := s.revision + 1, conflict := false), Ok)
  }

  // ---------------------------------------------------------------------
  // Authorizations
  // ---------------------------------------------------------------------

  /** Leases that ended are dropped from the front of the table. */
  function Pruned(entries: seq<Authorization>, now: nat): seq<Authorization> {
    if entries == [] || entries[0].expires > now then entries else Pruned(entries[1..], now)
  }

  function Authorize(s: State): Step {
    var kept := Pruned(s.authorizations, s.now);
    if |kept| >= s.config.maxAuthorizations then Step(s.(authorizations := kept), Exhausted)
    else
      var id := s.authorizationCounter + 1;
      var entry := Authorization(id, s.CurrentAuthority(), s.now + s.config.lease, true, false);
      Step(s.(authorizations := kept + [entry], authorizationCounter := id), Ok)
  }

  /** Checks a presented authorization; a stale or expired one is fenced for good. */
  function Validated(s: State, id: nat, requireApply: bool): Step {
    var found := FindAuthorization(s.authorizations, id);
    if id == 0 || found.None? then Step(s, Unauthorized)
    else
      var entry := s.authorizations[found.value];
      var fencedNow := s.(authorizations := s.authorizations[found.value := entry.(fenced := true)]);
      if entry.fenced then Step(s, Fenced)
      else
        var check := ValidateAuthority(entry.authority, s.CurrentAuthority());
        if !check.Valid? then Step(fencedNow, if check.FencedBoot? then Fenced else StaleGeneration)
        else if s.now >= entry.expires then Step(fencedNow, StaleGeneration)
        else if requireApply && !entry.allowsApply then Step(s, Denied)
        else Step(s, Ok)
  }

  // ---------------------------------------------------------------------
  // Planning
  // ---------------------------------------------------------------------

  /** What the planner returns: refusal, a claim with no boundary, or a claim over chosen members. */
  datatype Computed = Refusal | NoCut(claim: Claim) | Cut(claim: Claim, members: seq<Member>)

  function Downgraded(conflict: bool, claim: Claim): Claim {
    if conflict && !claim.Invalid? && !claim.NotSupported? then Indeterminate else claim
  }

  /** Plans take generations in order; a plan's boundary carries the plan's own generation. */
  ghost function PlanFrom(s: State, computed: Computed): Step {
    var generation := s.planCounter + 1;
    if s.topology == 0 then Step(s, Unsupported)
    else if computed.Refusal? || (computed.Cut? && !Creatable(generation, computed.members)) then Step(s, PlannerRefused)
    else
      var boundary := if computed.Cut? then Boundary(generation, SortBy(MemberLess, computed.members)) else BLANK;
      var plan := Plan(generation, Downgraded(s.conflict, computed.claim), boundary);
      Step(s.Committed().(planCounter := generation, plans := KeepLast(s.plans + [plan], s.config.maxPlans)), Ok)
  }

  ghost function MakePlan(s: State, authorization: nat, computed: Computed): Step {
    var v := Validated(s, authorization, false);
    if v.code != Ok then v else PlanFrom(v.state, computed)
  }

  // ---------------------------------------------------------------------
  // Transitions
  // ---------------------------------------------------------------------

  datatype TransitionKind = Expand | Contract | Release

  /** `planDigest` is the plan the caller saw; digests are injective. */
  datatype TransitionRequest = TransitionRequest(
    kind: TransitionKind, plan: nat, planDigest: Plan, expectedCurrent: nat, expectedReleased: bool, authorization: nat)

  datatype TransitionStatus = Accepted | DeniedTransition | IndeterminateTransition | StaleTransition | InvalidTransition

  datatype Decision = Decision(state: State, status: TransitionStatus, code: Code)

  datatype Verdict = Verdict(status: TransitionStatus, code: Code)

  ghost predicate KindAllows(kind: TransitionKind, current: Option<Boundary>, plan: Plan) {
    match kind
    case Expand => current.Some? ==> current.value.Ids() <= plan.boundary.Ids()
    case Contract => current.Some? && plan.boundary.Ids() < current.value.Ids()
    case Release => plan.Releasable()
  }

  /** The checks on an authorized request against a retained plan, in the order they are made. */
  ghost function Judged(s: State, r: TransitionRequest, plan: Plan): Verdict {
    var current := if s.boundary.Some? then s.boundary.value.generation else 0;
    if plan != r.planDigest then Verdict(InvalidTransition, Conflict)
    else if current != r.expectedCurrent then Verdict(StaleTransition, StaleGeneration)
    else if r.expectedReleased != s.boundary.None? then Verdict(StaleTransition, StaleGeneration)
    else if s.boundary.Some? && !IsVerified(s.effect) then Verdict(IndeterminateTransition, AmbiguousEffect)
    else if !KindAllows(r.kind, s.boundary, plan) then
      if r.kind.Release? then Verdict(DeniedTransition, Denied) else Verdict(InvalidTransition, InvalidArgument)
    else if !(plan.generation > s.boundaryPlan) && s.boundaryPlan != 0 then Verdict(StaleTransition, StaleGeneration)
    else Verdict(Accepted, Ok)
  }

  /** The plan's boundary, or none on release, becomes the current intent; its effect starts over. */
  function Installed(s: State, kind: TransitionKind, plan: Plan): State {
    // The decision and the boundary are two records.
    s.(
      sequence := s.sequence + 2, boundary := if kind.Release? then None else Some(plan.boundary),
      boundaryPlan := plan.generation, effect := NotRequested, reverify := false)
  }

  /** Every request takes a number; a refusal is recorded too. */
  ghost function Transition(s0: State, r: TransitionRequest): Decision {
    var v := Validated(s0.(transitionCounter := s0.transitionCounter + 1), r.authorization, false);
    if v.code != Ok then Decision(v.state.Committed(), StaleTransition, v.code) else Decided(v.state, r)
  }

  /** The decision on an authorized request. */
  ghost function Decided(s: State, r: TransitionRequest): Decision {
    var found := FindPlan(s.plans, r.plan);
    if found.None? then Decision(s.Committed(), StaleTransition, NotFound)
    else
      var verdict := Judged(s, r, s.plans[found.value]);
      if !verdict.status.Accepted? then Decision(s.Committed(), verdict.status, verdict.code)
      else Decision(Installed(s, r.kind, s.plans[found.value]), Accepted, Ok)
  }

  // ---------------------------------------------------------------------
  // The apply protocol
  // ---------------------------------------------------------------------

  datatype SubmitRequest = SubmitRequest(plan: nat, planDigest: Plan, authorization: nat)

  /** The checks on an authorized submission against a retained plan. */
  ghost function SubmissionJudged(s: State, r: SubmitRequest, plan: Plan): Code {
    if plan != r.planDigest then Conflict
    else if s.boundary.None? then StaleGeneration
    else
      var sameDecision := s.boundaryPlan == plan.generation && s.boundary.value.generation == plan.boundary.generation;
      var reassertion := plan.boundary.Ids() == s.boundary.value.Ids();
      if !sameDecision && !reassertion then StaleGeneration
      else if !(s.effect.NotRequested? || s.effect.Failed? || s.effect.Ambiguous?) then AlreadyExists
      else Ok
  }

  function WithAttempt(s: State, plan: Plan): State {
    var attempt := Attempt(plan.generation, s.attemptCounter + 1, DigestOfBoundary(plan.boundary),
                           plan.boundary.generation, Submitted, 0, ZeroDigest);
    s.Committed().(attemptCounter := s.attemptCounter + 1, effect := Submitted,
                   attempts := KeepLast(s.attempts + [attempt], s.config.maxAttempts))
  }

  ghost function SubmitApply(s0: State, r: SubmitRequest): Step {
    var v := Validated(s0, r.authorization, true);
    var s := v.state;
    var found := FindPlan(s.plans, r.plan);
    if v.code != Ok then v
    else if found.None? then Step(s, NotFound)
    else
      var code := SubmissionJudged(s, r, s.plans[found.value]);
      if code != Ok then Step(s, code) else Step(WithAttempt(s, s.plans[found.value]), Ok)
  }

  /** The attempt of `plan` with the highest sequence. */
  function Newest(attempts: seq<Attempt>, plan: nat): (r: Option<nat>)
    ensures r.Some? ==> r.value < |attempts| && attempts[r.value].plan == plan
  {
    if attempts == [] then None
    else
      var n := |attempts| - 1;
      var r := Newest(attempts[..n], plan);
      if attempts[n].plan != plan then r
      else if r.None? || attempts[r.value].sequence < attempts[n].sequence then Some(n)
      else r
  }

  function RecomputedEffect(s: State): EffectState {
    if s.reverify then Ambiguous
    else if s.boundaryPlan == 0 && s.boundary.None? then NotRequested
    else
      var newest := Newest(s.attempts, s.boundaryPlan);
      if newest.None? then NotRequested else s.attempts[newest.value].effect
  }

  function Recomputed(s: State): State { s.(effect := RecomputedEffect(s)) }

  datatype Acknowledgement = Acknowledgement(
    plan: nat, sequence: nat, expectedEpoch: nat, expectedBoot: nat, applierSequence: nat, observed: Digest, accepted: bool)

  function Acknowledge(s: State, ack: Acknowledgement): Step {
    var found := FindAttempt(s.attempts, ack.plan, ack.sequence);
    if found.None? then Step(s, NotFound)
    else if ack.expectedEpoch != s.epoch then Step(s, StaleGeneration)
    else if ack.expectedBoot != s.boot then Step(s, Fenced)
    else
      var attempt := s.attempts[found.value];
      if IsTerminal(attempt.effect) then Step(s, AlreadyExists)
      else if !(ack.applierSequence > attempt.applierSequence) then Step(s, SequenceRegression)
      else if ack.observed != attempt.boundaryDigest then
        // The summary effect state is left alone here.
        Step(s.Committed().(attempts := s.attempts[found.value := attempt.(effect := Ambiguous)]), Conflict)
      else
        var after := attempt.(applierSequence := ack.applierSequence, observed := ack.observed,
                              effect := if ack.accepted then Acknowledged else Failed);
        Step(Recomputed(s.Committed().(attempts := s.attempts[found.value := after])), Ok)
  }

  datatype EffectObservation = Applied | Released | PartiallyApplied | NotApplied | Unclear

  datatype Verification = Verification(
    plan: nat, sequence: nat, expectedEpoch: nat, expectedBoot: nat, applierSequence: nat, observed: Digest,
    observation: EffectObservation)

  function ObservedEffect(observation: EffectObservation, matches: bool): EffectState {
    match observation
    case Applied => if matches then VerifiedApplied else Ambiguous
    case Released => if matches then VerifiedReleased else Ambiguous
    case NotApplied => Failed
    case PartiallyApplied => Ambiguous
    case Unclear => Ambiguous
  }

  /** A verified attempt of a plan with the same membership makes that plan the current decision. */
  ghost function Adopted(s: State, plan: nat): State {
    var found := FindPlan(s.plans, plan);
    if found.Some? && s.boundary.Some? && s.plans[found.value].boundary.Ids() == s.boundary.value.Ids()
    then s.(boundary := Some(s.plans[found.value].boundary), boundaryPlan := s.plans[found.value].generation)
    else s
  }

  /** The attempt as the report leaves it. */
  function Reported(a: Attempt, report: Verification): Attempt {
    a.(applierSequence := report.applierSequence, observed := report.observed,
       effect := ObservedEffect(report.observation, report.observed == a.boundaryDigest))
  }

  function CanVerify(s: State, a: Attempt, report: Verification): Code {
    if report.expectedEpoch != s.epoch then StaleGeneration
    else if report.expectedBoot != s.boot then Fenced
    else if IsVerified(a.effect) then AlreadyExists
    else if a.effect.FencedEffect? || a.effect.Superseded? then Fenced
    else if !(report.applierSequence > a.applierSequence) then SequenceRegression
    else Ok
  }

  /** What follows once the report is recorded in the attempt. */
  ghost function Settled(s: State, after: Attempt, report: Verification): Step {
    if after.observed != after.boundaryDigest && (report.observation.Applied? || report.observation.Released?)
    then Step(Recomputed(s), Conflict)
    else if IsVerified(after.effect) then Step(Recomputed(Adopted(s.(reverify := false), report.plan)), Ok)
    else Step(Recomputed(s), Ok)
  }

  ghost function VerifyEffect(s: State, report: Verification): Step {
    var found := FindAttempt(s.attempts, report.plan, report.sequence);
    if found.None? then Step(s, NotFound)
    else
      var attempt := s.attempts[found.value];
      var code := CanVerify(s, attempt, report);
      if code != Ok then Step(s, code)
      else
        var after := Reported(attempt, report);
        Settled(s.Committed().(attempts := s.attempts[found.value := after]), after, report)
  }
}
