/** Every run of one fresh incarnation: who may act, what must be verified first, and what can change the
    governed scope. */
module CoordinatorRuns {
  import opened Boundaries
  import opened Collections
  import opened CoordinatorState
  import opened Resources
  import opened Sorting

  datatype Event =
    | ClockAdvances(millis: nat)
    | TopologyApplied(topology: Positive)
    | PolicyApplied(policy: Positive)
    | Detected(observation: Observation)
    | AuthorizationAsked
    | Planned(authorization: nat, computed: Computed)
    | TransitionAsked(transition: TransitionRequest)
    | ApplySubmitted(submission: SubmitRequest)
    | ApplyAcknowledged(acknowledgement: Acknowledgement)
    | EffectVerified(report: Verification)

  ghost function Next(s: State, e: Event): State {
    match e
    case ClockAdvances(millis) => s.(now := s.now + millis)
    case TopologyApplied(topology) => ApplyTopology(s, topology).state
    case PolicyApplied(policy) => ApplyPolicy(s, policy).state
    case Detected(observation) => RecordDetection(s, observation).state
    case AuthorizationAsked => Authorize(s).state
    case Planned(authorization, computed) => MakePlan(s, authorization, computed).state
    case TransitionAsked(transition) => Transition(s, transition).state
    case ApplySubmitted(submission) => SubmitApply(s, submission).state
    case ApplyAcknowledged(acknowledgement) => Acknowledge(s, acknowledgement).state
    case EffectVerified(report) => VerifyEffect(s, report).state
  }

  // ---------------------------------------------------------------------
  // History
  // ---------------------------------------------------------------------

  /** A lease as issued: when it ends, and how many changes had been published. */
  datatype Issue = Issue(expires: nat, changes: nat)

  /** Every plan ever made, by generation; every lease ever issued, by id; the changes published. */
  datatype History = History(catalog: seq<Plan>, issued: seq<Issue>, changes: nat)

  predicate SameDefinitions(s: State, t: State) {
    s.topology == t.topology && s.policy == t.policy && s.revision == t.revision
  }

  function Observe(h: History, s: State, t: State): History {
    History(
      if t.planCounter != s.planCounter && t.plans != [] then h.catalog + [t.plans[|t.plans| - 1]] else h.catalog,
      if t.authorizationCounter != s.authorizationCounter then h.issued + [Issue(s.now + s.config.lease, h.changes)] else h.issued,
      if SameDefinitions(s, t) then h.changes else h.changes + 1)
  }

  datatype Reached = Reached(state: State, history: History)

  ghost function Run(start: State, events: seq<Event>): Reached {
    if events == [] then Reached(start, History([], [], 0))
    else
      var before := Run(start, events[..|events| - 1]);
      var after := Next(before.state, events[|events| - 1]);
      Reached(after, Observe(before.history, before.state, after))
  }

  ghost predicate IsStart(s: State) {
    s.config.Accepted() && s == Start(s.config, s.now, s.epoch, s.boot, s.topology, s.policy)
  }

  // ---------------------------------------------------------------------
  // Leases
  // ---------------------------------------------------------------------

  /** Unexpired, and no topology, policy or evidence change was published since it was issued. */
  ghost predicate Current(h: History, now: nat, id: nat) {
    1 <= id <= |h.issued| && h.issued[id - 1].changes == h.changes && now < h.issued[id - 1].expires
  }

  ghost predicate EntryOk(h: History, s: State, e: Authorization) {
    && 1 <= e.id <= |h.issued| && e.allowsApply
    && e.expires == h.issued[e.id - 1].expires && h.issued[e.id - 1].changes <= h.changes
    && e.authority.epoch == s.epoch && e.authority.boot == s.boot
    && e.authority.topology <= s.topology && e.authority.policy <= s.policy && e.authority.revision <= s.revision
    && (e.authority.revision == s.revision ==> e.authority.evidence == s.evidence)
    && (h.issued[e.id - 1].changes == h.changes
        <==> e.authority.topology == s.topology && e.authority.policy == s.policy && e.authority.revision == s.revision)
    && (e.fenced ==> !Current(h, s.now, e.id))
  }

  ghost predicate Listed(entries: seq<Authorization>, id: nat) {
    exists i :: 0 <= i < |entries| && entries[i].id == id
  }

  ghost predicate LeasesOk(h: History, s: State) {
    && |h.issued| == s.authorizationCounter
    && (forall i :: 0 <= i < |h.issued| ==> h.issued[i].changes <= h.changes)
    && (forall i :: 0 <= i < |s.authorizations| ==> EntryOk(h, s, s.authorizations[i]))
    && (forall id: nat :: 1 <= id <= |h.issued| && !Listed(s.authorizations, id) ==> h.issued[id - 1].expires <= s.now)
  }

  lemma FencingKeepsListed(entries: seq<Authorization>, k: nat, id: nat)
    requires k < |entries|
    ensures Listed(entries[k := entries[k].(fenced := true)], id) <==> Listed(entries, id)
  {
    var after := entries[k := entries[k].(fenced := true)];
    if Listed(entries, id) {
      var i :| 0 <= i < |entries| && entries[i].id == id;
      assert after[i].id == id;
    }
    if Listed(after, id) {
      var i :| 0 <= i < |after| && after[i].id == id;
      assert entries[i].id == id;
    }
  }

  /** An issued lease is accepted exactly while it is unexpired and nothing it depends on has changed. */
  lemma ValidatedExactly(h: History, s: State, id: nat, requireApply: bool)
    requires LeasesOk(h, s)
    ensures Validated(s, id, requireApply).code == Ok <==> Current(h, s.now, id)
  {
    var found := FindAuthorization(s.authorizations, id);
    if found.Some? {
      assert EntryOk(h, s, s.authorizations[found.value]);
      assert Listed(s.authorizations, id);
    } else if 1 <= id <= |h.issued| {
      assert !Listed(s.authorizations, id);
    }
  }

  /** Validation touches nothing but the fence of a lease that will never be current again. */
  lemma ValidatedKeeps(h: History, s: State, id: nat, requireApply: bool)
    requires LeasesOk(h, s)
    ensures var t := Validated(s, id, requireApply).state;
            LeasesOk(h, t) && t == s.(authorizations := t.authorizations)
  {
    ValidatedExactly(h, s, id, requireApply);
    var found := FindAuthorization(s.authorizations, id);
    var t := Validated(s, id, requireApply).state;
    if t.authorizations != s.authorizations {
      hide LeasesOk;
      FencedKeeps(h, s, found.value);
    }
  }

  lemma FencedKeeps(h: History, s: State, k: nat)
    requires LeasesOk(h, s) && k < |s.authorizations| && !Current(h, s.now, s.authorizations[k].id)
    ensures LeasesOk(h, s.(authorizations := s.authorizations[k := s.authorizations[k].(fenced := true)]))
  {
    var t := s.(authorizations := s.authorizations[k := s.authorizations[k].(fenced := true)]);
    forall i | 0 <= i < |t.authorizations| ensures EntryOk(h, t, t.authorizations[i]) {
      assert EntryOk(h, s, s.authorizations[i]);
    }
    forall other: nat | 1 <= other <= |h.issued| && !Listed(t.authorizations, other)
      ensures h.issued[other - 1].expires <= t.now
    {
      FencingKeepsListed(s.authorizations, k, other);
    }
  }

  lemma {:induction false} PrunedListed(entries: seq<Authorization>, now: nat, id: nat)
    requires forall i :: 0 <= i < |entries| && entries[i].id == id ==> entries[i].expires > now
    requires Listed(entries, id)
    ensures Listed(Pruned(entries, now), id)
    decreases |entries|
  {
    if entries != [] && entries[0].expires <= now {
      var i :| 0 <= i < |entries| && entries[i].id == id;
      assert entries[1..][i - 1].id == id;
      PrunedListed(entries[1..], now, id);
    }
  }

  lemma {:induction false} PrunedSubset(entries: seq<Authorization>, now: nat)
    ensures forall i :: 0 <= i < |Pruned(entries, now)| ==> Pruned(entries, now)[i] in entries
    decreases |entries|
  {
    if entries != [] && entries[0].expires <= now { PrunedSubset(entries[1..], now); }
  }

  lemma AuthorizeKeeps(h: History, s: State)
    requires LeasesOk(h, s)
    ensures LeasesOk(Observe(h, s, Authorize(s).state), Authorize(s).state)
  {
    var t := Authorize(s).state;
    var h' := Observe(h, s, t);
    var kept := Pruned(s.authorizations, s.now);
    PrunedSubset(s.authorizations, s.now);
    assert h.issued <= h'.issued;
    if t.authorizationCounter != s.authorizationCounter { assert t.authorizations[|kept|].id == |h'.issued|; }
    forall i | 0 <= i < |t.authorizations| ensures EntryOk(h', t, t.authorizations[i]) {
      if i < |kept| {
        assert kept[i] in s.authorizations;
        var j :| 0 <= j < |s.authorizations| && s.authorizations[j] == kept[i];
        assert EntryOk(h, s, s.authorizations[j]);
      }
    }
    forall id: nat | 1 <= id <= |h'.issued| && !Listed(t.authorizations, id) ensures h'.issued[id - 1].expires <= t.now {
      if id <= |h.issued| { UnlistedExpired(h, s, id, kept, t.authorizations); }
    }
  }

  lemma ListedPrefix(kept: seq<Authorization>, after: seq<Authorization>, id: nat)
    requires kept <= after && Listed(kept, id)
    ensures Listed(after, id)
  {
    var i :| 0 <= i < |kept| && kept[i].id == id;
    assert after[i].id == id;
  }

  lemma UnlistedExpired(h: History, s: State, id: nat, kept: seq<Authorization>, after: seq<Authorization>)
    requires LeasesOk(h, s) && kept == Pruned(s.authorizations, s.now) && kept <= after
    requires 1 <= id <= |h.issued| && !Listed(after, id)
    ensures h.issued[id - 1].expires <= s.now
  {
    if Listed(kept, id) { ListedPrefix(kept, after, id); }
    if Listed(s.authorizations, id) && h.issued[id - 1].expires > s.now {
      forall i | 0 <= i < |s.authorizations| && s.authorizations[i].id == id ensures s.authorizations[i].expires > s.now {
        assert EntryOk(h, s, s.authorizations[i]);
      }
      PrunedListed(s.authorizations, s.now, id);
    }
  }

  /** Steps that leave the table alone and only move definitions and the clock forward. */
  lemma DefinitionsKeep(h: History, s: State, t: State)
    requires LeasesOk(h, s)
    requires t.authorizations == s.authorizations && t.authorizationCounter == s.authorizationCounter
    requires t.epoch == s.epoch && t.boot == s.boot && t.now >= s.now
    requires s.topology <= t.topology && s.policy <= t.policy && s.revision <= t.revision
    requires t.revision == s.revision ==> t.evidence == s.evidence
    ensures LeasesOk(Observe(h, s, t), t)
  {
    var h' := Observe(h, s, t);
    forall i | 0 <= i < |t.authorizations| ensures EntryOk(h', t, t.authorizations[i]) {
      assert EntryOk(h, s, s.authorizations[i]);
    }
  }

  // ---------------------------------------------------------------------
  // Plans, attempts and the current boundary
  // ---------------------------------------------------------------------

  ghost predicate CatalogOk(catalog: seq<Plan>) {
    forall i :: 0 <= i < |catalog| ==> catalog[i].generation == i + 1 && catalog[i].boundary.Sorted()
  }

  ghost predicate InCatalog(catalog: seq<Plan>, plan: Plan) {
    1 <= plan.generation <= |catalog| && catalog[plan.generation - 1] == plan
  }

  ghost predicate AttemptOk(catalog: seq<Plan>, a: Attempt) {
    && 1 <= a.plan <= |catalog|
    && a.boundaryDigest == DigestOfBoundary(catalog[a.plan - 1].boundary)
    && (IsVerified(a.effect) ==> a.observed == a.boundaryDigest)
  }

  /** An attempt for the plan in force stands verified. */
  ghost predicate VerifiedFor(attempts: seq<Attempt>, plan: nat) {
    exists i :: 0 <= i < |attempts| && attempts[i].plan == plan && IsVerified(attempts[i].effect)
  }

  ghost predicate ScopeOk(catalog: seq<Plan>, s: State) {
    s.boundary.Some? ==>
      1 <= s.boundaryPlan <= |catalog| && s.boundary.value == catalog[s.boundaryPlan - 1].boundary
  }

  ghost predicate IntentOk(catalog: seq<Plan>, s: State) {
    && CatalogOk(catalog) && |catalog| == s.planCounter && s.config.Accepted()
    && (forall i :: 0 <= i < |s.plans| ==> InCatalog(catalog, s.plans[i]))
    && (forall i :: 0 <= i < |s.attempts| ==> AttemptOk(catalog, s.attempts[i]))
    && ScopeOk(catalog, s)
    && (IsVerified(s.effect) ==> VerifiedFor(s.attempts, s.boundaryPlan))
    && !s.reverify
  }

  lemma CatalogGrows(catalog: seq<Plan>, plan: Plan, s: State)
    requires IntentOk(catalog, s) && plan.generation == |catalog| + 1 && plan.boundary.Sorted()
    ensures CatalogOk(catalog + [plan]) && ScopeOk(catalog + [plan], s)
    ensures forall i :: 0 <= i < |s.plans| ==> InCatalog(catalog + [plan], s.plans[i])
    ensures forall i :: 0 <= i < |s.attempts| ==> AttemptOk(catalog + [plan], s.attempts[i])
    ensures InCatalog(catalog + [plan], plan)
  {
    forall i | 0 <= i < |s.plans| ensures InCatalog(catalog + [plan], s.plans[i]) { assert InCatalog(catalog, s.plans[i]); }
    forall i | 0 <= i < |s.attempts| ensures AttemptOk(catalog + [plan], s.attempts[i]) { assert AttemptOk(catalog, s.attempts[i]); }
  }

  lemma BlankSorted()
    ensures BLANK.Sorted()
  {
  }

  lemma MadeSorted(generation: nat, members: seq<Member>)
    requires Creatable(generation, members)
    ensures Boundary(generation, SortBy(MemberLess, members)).Sorted()
  {
    SortedSameMembers(members);
  }

  lemma PlanKeeps(h: History, s: State, authorization: nat, computed: Computed)
    requires LeasesOk(h, s) && IntentOk(h.catalog, s)
    ensures var t := MakePlan(s, authorization, computed).state; IntentOk(Observe(h, s, t).catalog, t)
  {
    hide LeasesOk, Validated, PlanFrom, IntentOk;
    ValidatedKeeps(h, s, authorization, false);
    var v := Validated(s, authorization, false).state;
    var t := MakePlan(s, authorization, computed).state;
    IntentSees(h.catalog, s, v);
    if t.planCounter != s.planCounter {
      var plan := PlanMade(v, computed);
      PlanKept(h.catalog, v, plan, t);
      assert plan == t.plans[|t.plans| - 1];
    } else if Validated(s, authorization, false).code == Ok {
      PlanNotMade(v, computed);
    }
  }

  /** The lease table plays no part in the intent. */
  lemma IntentSees(catalog: seq<Plan>, s: State, v: State)
    requires IntentOk(catalog, s) && v == s.(authorizations := v.authorizations)
    ensures IntentOk(catalog, v) && v.config.maxPlans > 0
  {
  }

  lemma PlanNotMade(v: State, computed: Computed)
    requires PlanFrom(v, computed).state.planCounter == v.planCounter
    ensures PlanFrom(v, computed).state == v
  {
  }

  lemma PlanMade(v: State, computed: Computed) returns (plan: Plan)
    requires PlanFrom(v, computed).state.planCounter != v.planCounter && v.config.maxPlans > 0
    ensures plan.generation == v.planCounter + 1 && plan.boundary.Sorted()
    ensures PlanFrom(v, computed).state ==
      v.Committed().(planCounter := v.planCounter + 1, plans := KeepLast(v.plans + [plan], v.config.maxPlans))
    ensures var after := PlanFrom(v, computed).state.plans; after != [] && after[|after| - 1] == plan
  {
    BlankSorted();
    if computed.Cut? && Creatable(v.planCounter + 1, computed.members) { MadeSorted(v.planCounter + 1, computed.members); }
    hide SortBy, Creatable;
    var after := PlanFrom(v, computed).state.plans;
    plan := after[|after| - 1];
    assert plan == (v.plans + [plan])[|v.plans|];
  }

  lemma PlanKept(catalog: seq<Plan>, v: State, plan: Plan, t: State)
    requires IntentOk(catalog, v) && plan.generation == v.planCounter + 1 && plan.boundary.Sorted()
    requires t == v.Committed().(planCounter := v.planCounter + 1, plans := KeepLast(v.plans + [plan], v.config.maxPlans))
    ensures IntentOk(catalog + [plan], t)
  {
    hide CatalogOk, InCatalog, AttemptOk, VerifiedFor, Boundary.Sorted;
    CatalogGrows(catalog, plan, v);
  }

  lemma TransitionKeeps(h: History, s: State, r: TransitionRequest)
    requires LeasesOk(h, s) && IntentOk(h.catalog, s)
    ensures var t := Transition(s, r).state; IntentOk(Observe(h, s, t).catalog, t)
  {
    hide LeasesOk, Validated, AttemptOk, VerifiedFor, CatalogOk, Judged;
    var counted := s.(transitionCounter := s.transitionCounter + 1);
    LeasesFrame(h, s, counted);
    ValidatedKeeps(h, counted, r.authorization, false);
    var d := Transition(s, r);
    if d.status.Accepted? {
      var plan := s.plans[FindPlan(s.plans, r.plan).value];
      assert InCatalog(h.catalog, plan);
    }
  }

  lemma LeasesFrame(h: History, s: State, t: State)
    requires LeasesOk(h, s)
    requires t.authorizations == s.authorizations && t.authorizationCounter == s.authorizationCounter
    requires t.epoch == s.epoch && t.boot == s.boot && t.now == s.now && SameDefinitions(s, t) && t.evidence == s.evidence
    ensures LeasesOk(h, t)
  {
    forall i | 0 <= i < |t.authorizations| ensures EntryOk(h, t, t.authorizations[i]) {
      assert EntryOk(h, s, s.authorizations[i]);
    }
  }

  lemma SubmitKeeps(h: History, s: State, r: SubmitRequest)
    requires LeasesOk(h, s) && IntentOk(h.catalog, s)
    ensures var t := SubmitApply(s, r).state; IntentOk(Observe(h, s, t).catalog, t)
  {
    hide LeasesOk, Validated, VerifiedFor, CatalogOk;
    ValidatedKeeps(h, s, r.authorization, true);
    var t := SubmitApply(s, r).state;
    if t.attemptCounter != s.attemptCounter {
      var plan := s.plans[FindPlan(s.plans, r.plan).value];
      assert InCatalog(h.catalog, plan);
      var attempt := Attempt(plan.generation, s.attemptCounter + 1, DigestOfBoundary(plan.boundary),
                             plan.boundary.generation, Submitted, 0, ZeroDigest);
      assert AttemptOk(h.catalog, attempt);
      hide DigestOfBoundary, AttemptOk;
      forall i | 0 <= i < |t.attempts| ensures AttemptOk(h.catalog, t.attempts[i]) {
        assert t.attempts[i] == (s.attempts + [attempt])[|s.attempts| + 1 - |t.attempts| + i];
      }
    }
  }

  lemma RecomputedOk(catalog: seq<Plan>, s: State)
    requires IntentOk(catalog, s.(effect := NotRequested))
    ensures IntentOk(catalog, Recomputed(s))
  {
    hide CatalogOk, InCatalog, AttemptOk;
    var newest := Newest(s.attempts, s.boundaryPlan);
    if IsVerified(RecomputedEffect(s)) {
      assert s.attempts[newest.value].plan == s.boundaryPlan;
    }
  }

  /** Updating one attempt consistently keeps every other fact. */
  lemma AttemptUpdated(catalog: seq<Plan>, s: State, k: nat, after: Attempt)
    requires IntentOk(catalog, s) && k < |s.attempts| && AttemptOk(catalog, after)
    ensures IntentOk(catalog, s.Committed().(attempts := s.attempts[k := after], effect := NotRequested))
  {
    hide CatalogOk, InCatalog, AttemptOk, VerifiedFor;
  }

  lemma AcknowledgeKeeps(catalog: seq<Plan>, s: State, ack: Acknowledgement)
    requires IntentOk(catalog, s)
    ensures IntentOk(catalog, Acknowledge(s, ack).state)
  {
    var found := FindAttempt(s.attempts, ack.plan, ack.sequence);
    var step := Acknowledge(s, ack);
    if found.Some? && step.state != s {
      var k := found.value;
      var attempt := s.attempts[k];
      assert AttemptOk(catalog, attempt);
      var after := step.state.attempts[k];
      assert AttemptOk(catalog, after);
      hide AttemptOk;
      if step.code.Conflict? {
        VerifiedElsewhere(s, k, after);
        forall i | 0 <= i < |s.attempts| ensures AttemptOk(catalog, step.state.attempts[i]) {
          assert step.state.attempts == s.attempts[k := after];
        }
      } else {
        AttemptUpdated(catalog, s, k, after);
        RecomputedOk(catalog, s.Committed().(attempts := s.attempts[k := after]));
      }
    }
  }

  /** An attempt that was not verified can change without touching the verified one. */
  lemma VerifiedElsewhere(s: State, k: nat, after: Attempt)
    requires k < |s.attempts| && !IsVerified(s.attempts[k].effect)
    ensures VerifiedFor(s.attempts, s.boundaryPlan) ==> VerifiedFor(s.attempts[k := after], s.boundaryPlan)
  {
    if VerifiedFor(s.attempts, s.boundaryPlan) {
      var i :| 0 <= i < |s.attempts| && s.attempts[i].plan == s.boundaryPlan && IsVerified(s.attempts[i].effect);
      assert s.attempts[k := after][i] == s.attempts[i];
    }
  }

  lemma AdoptedOk(catalog: seq<Plan>, s: State, plan: nat)
    requires IntentOk(catalog, s.(effect := NotRequested))
    ensures IntentOk(catalog, Adopted(s, plan).(effect := NotRequested))
  {
    hide CatalogOk, AttemptOk;
    var found := FindPlan(s.plans, plan);
    if found.Some? { assert InCatalog(catalog, s.plans[found.value]); }
  }

  lemma VerifyKeeps(catalog: seq<Plan>, s: State, report: Verification)
    requires IntentOk(catalog, s)
    ensures IntentOk(catalog, VerifyEffect(s, report).state)
  {
    var found := FindAttempt(s.attempts, report.plan, report.sequence);
    var step := VerifyEffect(s, report);
    if step.code.Ok? || step.code.Conflict? {
      var k := found.value;
      assert AttemptOk(catalog, s.attempts[k]);
      var after := Reported(s.attempts[k], report);
      assert AttemptOk(catalog, after);
      hide AttemptOk, IntentOk, Recomputed, Adopted;
      AttemptUpdated(catalog, s, k, after);
      var s1 := s.Committed().(attempts := s.attempts[k := after]);
      NotReverify(catalog, s);
      AdoptedOk(catalog, s1, report.plan);
      RecomputedOk(catalog, s1);
      RecomputedOk(catalog, Adopted(s1, report.plan));
      assert s1.(reverify := false) == s1;
    }
  }

  lemma NotReverify(catalog: seq<Plan>, s: State)
    requires IntentOk(catalog, s)
    ensures !s.reverify
  {
  }

  // ---------------------------------------------------------------------
  // One step, then every run
  // ---------------------------------------------------------------------

  ghost predicate Inv(h: History, s: State) {
    LeasesOk(h, s) && IntentOk(h.catalog, s)
  }

  /** A step that leaves definitions, clock and lease counter alone, and the table fit, keeps the leases. */
  lemma LeasesCarried(h: History, s: State, t: State)
    requires LeasesOk(h, s.(authorizations := t.authorizations))
    requires t.authorizationCounter == s.authorizationCounter && t.epoch == s.epoch && t.boot == s.boot
    requires t.now == s.now && SameDefinitions(s, t) && t.evidence == s.evidence
    ensures LeasesOk(Observe(h, s, t), t)
  {
    var v := s.(authorizations := t.authorizations);
    forall i | 0 <= i < |t.authorizations| ensures EntryOk(Observe(h, s, t), t, t.authorizations[i]) {
      assert EntryOk(h, v, v.authorizations[i]);
    }
  }

  /** Which lease the event presents, if it presents one. */
  function Presented(e: Event): Option<(nat, bool)> {
    match e
    case Planned(authorization, _) => Some((authorization, false))
    case TransitionAsked(r) => Some((r.authorization, false))
    case ApplySubmitted(r) => Some((r.authorization, true))
    case _ => None
  }

  predicate MovesDefinitions(e: Event) {
    e.ClockAdvances? || e.TopologyApplied? || e.PolicyApplied? || e.Detected?
  }

  /** The governed scope: no boundary, or a set of resources. */
  ghost function Scope(s: State): Option<set<ResourceId>> {
    if s.boundary.None? then None else Some(s.boundary.value.Ids())
  }

  // What each operation may write, as an update of the state it starts from.

  lemma ValidatedFrame(s: State, id: nat, apply: bool)
    ensures var t := Validated(s, id, apply).state; t == s.(authorizations := t.authorizations)
  {
  }

  lemma PlanWrites(s: State, id: nat, computed: Computed)
    ensures var t := MakePlan(s, id, computed).state;
            t == s.(authorizations := Validated(s, id, false).state.authorizations, sequence := t.sequence,
                    planCounter := t.planCounter, plans := t.plans)
  {
    ValidatedFrame(s, id, false);
    hide Validated, Creatable, SortBy, KeepLast, Downgraded;
  }

  lemma CountedSame(s: State, id: nat)
    ensures var t := Validated(s.(transitionCounter := s.transitionCounter + 1), id, false);
            t.state == s.(transitionCounter := s.transitionCounter + 1, authorizations := Validated(s, id, false).state.authorizations)
            && t.code == Validated(s, id, false).code
  {
  }

  lemma TransitionWrites(s: State, r: TransitionRequest)
    ensures var d := Transition(s, r);
            d.state == s.(authorizations := Validated(s, r.authorization, false).state.authorizations,
                          sequence := d.state.sequence, transitionCounter := s.transitionCounter + 1,
                          boundary := d.state.boundary, boundaryPlan := d.state.boundaryPlan,
                          effect := d.state.effect, reverify := d.state.reverify)
    ensures var d := Transition(s, r);
            !d.status.Accepted? ==> d.state.boundary == s.boundary && d.state.boundaryPlan == s.boundaryPlan
                                    && d.state.effect == s.effect && d.state.reverify == s.reverify
    ensures var d := Transition(s, r);
            d.status.Accepted? ==>
              var found := FindPlan(s.plans, r.plan);
              && found.Some? && s.plans[found.value] == r.planDigest && Validated(s, r.authorization, false).code == Ok
              && (s.boundary.Some? ==> IsVerified(s.effect)) && KindAllows(r.kind, s.boundary, r.planDigest)
              && d.state.boundary == (if r.kind.Release? then None else Some(r.planDigest.boundary))
              && d.state.boundaryPlan == r.planDigest.generation && d.state.effect.NotRequested? && !d.state.reverify
  {
    CountedSame(s, r.authorization);
    hide Validated, KindAllows;
  }

  lemma SubmitWrites(s: State, r: SubmitRequest)
    ensures var t := SubmitApply(s, r).state;
            t == s.(authorizations := Validated(s, r.authorization, true).state.authorizations, sequence := t.sequence,
                    attemptCounter := t.attemptCounter, attempts := t.attempts, effect := t.effect)
  {
    ValidatedFrame(s, r.authorization, true);
    hide Validated, KeepLast, Boundary.Ids;
  }

  lemma AcknowledgeWrites(s: State, ack: Acknowledgement)
    ensures var t := Acknowledge(s, ack).state;
            t == s.(sequence := t.sequence, attempts := t.attempts, effect := t.effect)
  {
    hide RecomputedEffect;
  }

  lemma VerifyWrites(s: State, report: Verification)
    ensures var t := VerifyEffect(s, report).state;
            && t == s.(sequence := t.sequence, attempts := t.attempts, effect := t.effect, reverify := t.reverify,
                       boundary := t.boundary, boundaryPlan := t.boundaryPlan)
            && Scope(t) == Scope(s)
  {
    hide RecomputedEffect, Reported, CanVerify, Adopted, Scope;
    var found := FindAttempt(s.attempts, report.plan, report.sequence);
    if found.Some? {
      var k := found.value;
      var after := Reported(s.attempts[k], report);
      var s1 := s.Committed().(attempts := s.attempts[k := after]);
      AdoptedWrites(s1.(reverify := false), report.plan);
      SameScope(s1, s);
      SameScope(s1.(reverify := false), s1);
      SameScope(Recomputed(s1), s1);
      SameScope(Recomputed(Adopted(s1.(reverify := false), report.plan)), Adopted(s1.(reverify := false), report.plan));
    }
  }

  lemma SameScope(s: State, t: State)
    requires s.boundary == t.boundary
    ensures Scope(s) == Scope(t)
  {
  }

  lemma AdoptedWrites(s: State, plan: nat)
    ensures var t := Adopted(s, plan);
            t == s.(boundary := t.boundary, boundaryPlan := t.boundaryPlan) && Scope(t) == Scope(s)
  {
    hide Boundary.Ids;
  }

  /** Only three kinds of event touch definitions, only one issues leases, and a presented lease is all
      that validation may change in the table. */
  lemma StepFrame(s: State, e: Event)
    requires !e.AuthorizationAsked? && !MovesDefinitions(e)
    ensures var t := Next(s, e);
            && t.authorizationCounter == s.authorizationCounter && t.epoch == s.epoch && t.boot == s.boot
            && t.now == s.now && SameDefinitions(s, t) && t.evidence == s.evidence && t.config == s.config
            && t.authorizations == (match Presented(e)
                 case None => s.authorizations
                 case Some((id, apply)) => Validated(s, id, apply).state.authorizations)
  {
    hide MakePlan, Transition, SubmitApply, Acknowledge, VerifyEffect, Validated;
    match e
    case Planned(authorization, computed) => PlanWrites(s, authorization, computed);
    case TransitionAsked(r) => TransitionWrites(s, r);
    case ApplySubmitted(r) => SubmitWrites(s, r);
    case ApplyAcknowledged(ack) => AcknowledgeWrites(s, ack);
    case EffectVerified(report) => VerifyWrites(s, report);
  }

  lemma LeasesStep(h: History, s: State, e: Event)
    requires LeasesOk(h, s)
    ensures LeasesOk(Observe(h, s, Next(s, e)), Next(s, e))
  {
    if e.AuthorizationAsked? {
      AuthorizeKeeps(h, s);
    } else if MovesDefinitions(e) {
      hide LeasesOk;
      DefinitionsKeep(h, s, Next(s, e));
    } else {
      StepFrame(s, e);
      hide LeasesOk, Next, Validated;
      match Presented(e)
      case None => LeasesCarried(h, s, Next(s, e));
      case Some((id, apply)) =>
        ValidatedKeeps(h, s, id, apply);
        LeasesCarried(h, s, Next(s, e));
    }
  }

  /** Steps that leave plans, attempts, boundary and effect alone. */
  lemma IntentFrame(h: History, s: State, t: State)
    requires IntentOk(h.catalog, s) && t.planCounter == s.planCounter && t.plans == s.plans && t.attempts == s.attempts
    requires t.boundary == s.boundary && t.boundaryPlan == s.boundaryPlan && t.effect == s.effect && t.reverify == s.reverify
    requires t.config == s.config
    ensures IntentOk(Observe(h, s, t).catalog, t)
  {
    hide CatalogOk, InCatalog, AttemptOk, VerifiedFor;
  }

  lemma IntentStep(h: History, s: State, e: Event)
    requires Inv(h, s)
    ensures IntentOk(Observe(h, s, Next(s, e)).catalog, Next(s, e))
  {
    hide IntentOk, LeasesOk, MakePlan, Transition, SubmitApply, Acknowledge, VerifyEffect;
    match e
    case Planned(authorization, computed) => PlanKeeps(h, s, authorization, computed);
    case TransitionAsked(r) => TransitionKeeps(h, s, r);
    case ApplySubmitted(r) => SubmitKeeps(h, s, r);
    case ApplyAcknowledged(ack) => AcknowledgeWrites(s, ack); AcknowledgeKeeps(h.catalog, s, ack);
    case EffectVerified(report) => VerifyWrites(s, report); VerifyKeeps(h.catalog, s, report);
    case _ => IntentFrame(h, s, Next(s, e));
  }

  lemma {:induction false} RunKeeps(start: State, events: seq<Event>)
    requires IsStart(start)
    ensures var r := Run(start, events); Inv(r.history, r.state)
  {
    if events == [] {
    } else {
      hide LeasesOk, IntentOk, Next, Observe;
      RunKeeps(start, events[..|events| - 1]);
      var before := Run(start, events[..|events| - 1]);
      LeasesStep(before.history, before.state, events[|events| - 1]);
      IntentStep(before.history, before.state, events[|events| - 1]);
    }
  }

  // ---------------------------------------------------------------------
  // What holds in every run
  // ---------------------------------------------------------------------

  /** A boundary is only replaced after the enforcement plane reported exactly that boundary: when a
      transition is accepted while B is current, a retained attempt observed B's digest. */
  lemma VerifiedBeforeReplaced(start: State, events: seq<Event>, r: TransitionRequest)
    requires IsStart(start)
    ensures var s := Run(start, events).state;
            Transition(s, r).status.Accepted? && s.boundary.Some? ==>
              exists i :: 0 <= i < |s.attempts| && IsVerified(s.attempts[i].effect)
                          && s.attempts[i].plan == s.boundaryPlan
                          && s.attempts[i].observed == DigestOfBoundary(s.boundary.value)
  {
    hide Run, LeasesOk, Validated, Transition, KindAllows;
    RunKeeps(start, events);
    var h, s := Run(start, events).history, Run(start, events).state;
    if Transition(s, r).status.Accepted? && s.boundary.Some? {
      TransitionWrites(s, r);
      assert VerifiedFor(s.attempts, s.boundaryPlan);
      var i :| 0 <= i < |s.attempts| && s.attempts[i].plan == s.boundaryPlan && IsVerified(s.attempts[i].effect);
      assert AttemptOk(h.catalog, s.attempts[i]);
    }
  }

  /** Only an accepted transition changes the governed scope. Expansion never loses a member, contraction
      strictly shrinks, release clears. */
  lemma ScopeChangesOnlyByTransition(s: State, e: Event)
    ensures Scope(Next(s, e)) != Scope(s) ==> e.TransitionAsked? && Transition(s, e.transition).status.Accepted?
    ensures e.TransitionAsked? && Transition(s, e.transition).status.Accepted? ==>
      match e.transition.kind
      case Expand => Scope(Next(s, e)).Some? && (Scope(s).Some? ==> Scope(s).value <= Scope(Next(s, e)).value)
      case Contract => Scope(s).Some? && Scope(Next(s, e)).Some? && Scope(Next(s, e)).value < Scope(s).value
      case Release => Scope(Next(s, e)).None?
  {
    hide MakePlan, Transition, SubmitApply, Acknowledge, VerifyEffect, Validated, Boundary.Ids;
    match e
    case Planned(authorization, computed) => PlanWrites(s, authorization, computed);
    case TransitionAsked(r) => TransitionWrites(s, r);
    case ApplySubmitted(r) => SubmitWrites(s, r);
    case ApplyAcknowledged(ack) => AcknowledgeWrites(s, ack);
    case EffectVerified(report) => VerifyWrites(s, report);
    case _ =>
  }

  /** In every run a presented lease is accepted exactly when it is unexpired and no topology, policy or
      evidence change was published since it was issued. */
  lemma LeaseAcceptedExactly(start: State, events: seq<Event>, id: nat, requireApply: bool)
    requires IsStart(start)
    ensures var r := Run(start, events);
            Validated(r.state, id, requireApply).code == Ok <==> Current(r.history, r.state.now, id)
  {
    hide Run, IntentOk, Validated, LeasesOk;
    RunKeeps(start, events);
    ValidatedExactly(Run(start, events).history, Run(start, events).state, id, requireApply);
  }

  lemma ClockForward(s: State, e: Event)
    ensures Next(s, e).now >= s.now
  {
    if !e.AuthorizationAsked? && !MovesDefinitions(e) {
      StepFrame(s, e);
      hide Next;
    }
  }

  lemma {:induction false} HistoryForward(start: State, events: seq<Event>, later: seq<Event>)
    ensures var r, t := Run(start, events), Run(start, events + later);
            r.history.issued <= t.history.issued && r.history.changes <= t.history.changes && r.state.now <= t.state.now
    decreases |later|
  {
    hide Next;
    if later == [] {
      assert events + later == events;
    } else {
      var n := |later| - 1;
      HistoryForward(start, events, later[..n]);
      assert (events + later)[..|events + later| - 1] == events + later[..n];
      ClockForward(Run(start, events + later[..n]).state, later[n]);
    }
  }

  /** Staleness is permanent: a lease refused once is refused in every later state. */
  lemma StaleForever(start: State, events: seq<Event>, later: seq<Event>, id: nat, requireApply: bool)
    requires IsStart(start)
    requires 1 <= id <= |Run(start, events).history.issued|
    requires Validated(Run(start, events).state, id, requireApply).code != Ok
    ensures Validated(Run(start, events + later).state, id, requireApply).code != Ok
  {
    hide Run, Validated, IntentOk;
    LeaseAcceptedExactly(start, events, id, requireApply);
    LeaseAcceptedExactly(start, events + later, id, requireApply);
    HistoryForward(start, events, later);
    RunKeeps(start, events);
  }
}
