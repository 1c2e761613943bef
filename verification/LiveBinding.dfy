/** Running one closed lab scenario: admission, deadline checks, and validation
    of the result (lab/stage3_live_binding.py, lab/stage3_backend.py,
    lab/stage3_deg.py). Times are in seconds. */
module LiveBinding {
  import opened Options
  import opened RecoveryStates

  datatype Delivery = ProvenDelivered | ProvenNotDelivered | PossiblyDelivered

  datatype TransportOutcome = ResponseReceived | ResponseDropped | Timeout | ConnectionClosed | NotSent | ProcessRestart

  datatype Classification = DefinitelyApplied | DefinitelyNotApplied | Ambiguous

  datatype FinalRequirement = ExactARequired | ReconciliationRequired

  datatype LiveStatus = Ready | Blocked | OfflineOnly

  datatype Policy = ExactA | DefinitelyNotAppliedA | ReconciliationStop

  datatype Scenario = Scenario(
    id: string,
    orchestrationSends: int, forwardSends: int, rollbackSends: int,
    delivery: Option<Delivery>,
    readBackRequired: bool,
    expectedState: RecoveryState,
    finalRequirement: FinalRequirement,
    status: LiveStatus)

  predicate ValidScenario(s: Scenario) {
    0 <= s.orchestrationSends <= 2 && 0 <= s.forwardSends <= 2 && 0 <= s.rollbackSends <= 2
  }

  datatype BackendResult = BackendResult(
    id: string,
    orchestrationSends: int, forwardSends: int, rollbackSends: int,
    outcome: TransportOutcome,
    live: Option<string>, a: Option<string>, b: Option<string>,
    finalLive: string, finalA: string,
    state: RecoveryState,
    retrySuppressed: bool,
    ownerEvidenceUsed: bool,
    pendingAuthenticated: bool)

  datatype Report = Report(
    id: string, outcome: TransportOutcome, readBack: Option<Classification>, state: RecoveryState, retrySuppressed: bool,
    policy: Policy, orchestrationSends: int, forwardSends: int, rollbackSends: int)

  // ------------------------------------------------------------------- validation

  const DIGEST: nat := 64

  function Classify(live: string, a: string, b: string): Option<Classification> {
    if |live| != DIGEST || |a| != DIGEST || |b| != DIGEST || a == b then None
    else if live == b then Some(DefinitelyApplied)
    else if live == a then Some(DefinitelyNotApplied)
    else Some(Ambiguous)
  }

  predicate OutcomeAllowed(delivery: Option<Delivery>, outcome: TransportOutcome) {
    match delivery
    case None => true
    case Some(ProvenDelivered) => outcome.ResponseDropped?
    case Some(ProvenNotDelivered) => outcome.NotSent? || outcome.ConnectionClosed?
    case Some(PossiblyDelivered) => outcome.ResponseDropped? || outcome.Timeout? || outcome.ConnectionClosed?
  }

  datatype ReadBack = NoEvidence | NotRequired | Seen(what: Classification)

  function ReadBackOf(s: Scenario, r: BackendResult): ReadBack {
    if !s.readBackRequired then NotRequired
    else if r.live.None? || r.a.None? || r.b.None? then NoEvidence
    else
      match Classify(r.live.value, r.a.value, r.b.value)
      case None => NoEvidence
      case Some(c) => Seen(c)
  }

  /** The policy the result is accepted under, if any. */
  function PolicyOf(s: Scenario, r: BackendResult, readBack: ReadBack): Option<Policy> {
    var exact := r.finalLive == r.finalA;
    if r.state.Reconciliation? then
      if r.ownerEvidenceUsed || !s.finalRequirement.ReconciliationRequired? || !r.pendingAuthenticated then None
      else Some(ReconciliationStop)
    else if s.finalRequirement.ReconciliationRequired? then None
    else if !exact then None
    else if readBack == Seen(DefinitelyNotApplied) then Some(DefinitelyNotAppliedA)
    else Some(ExactA)
  }

  function Validate(s: Scenario, r: BackendResult): Option<Report> {
    if r.id != s.id then None
    else if (r.orchestrationSends, r.forwardSends, r.rollbackSends) != (s.orchestrationSends, s.forwardSends, s.rollbackSends) then None
    else if !r.retrySuppressed || !OutcomeAllowed(s.delivery, r.outcome) then None
    else
      var readBack := ReadBackOf(s, r);
      if readBack.NoEvidence? || |r.finalLive| != DIGEST || |r.finalA| != DIGEST then None
      else
        match PolicyOf(s, r, readBack)
        case None => None
        case Some(policy) =>
          Some(Report(
                 s.id, r.outcome, if readBack.Seen? then Some(readBack.what) else None, r.state, r.retrySuppressed,
                 policy, r.orchestrationSends, r.forwardSends, r.rollbackSends))
  }

  // ------------------------------------------------------------------- admission

  datatype Receipt = Receipt(id: string, issuedAt: int, expiresAt: int, passed: bool, dryRunSent: bool)

  const OPERATION_BOUND: int := 60
  const OVERHEAD: int := 30

  function RequiredTime(s: Scenario): int {
    OPERATION_BOUND * (s.orchestrationSends + s.forwardSends + s.rollbackSends + 4) + OVERHEAD
  }

  /** A receipt whose gates did not pass cannot be built. */
  predicate ValidReceipt(g: Receipt) {
    g.passed && !g.dryRunSent && g.issuedAt < g.expiresAt
  }

  predicate Admitted(s: Scenario, g: Receipt, now: int) {
    && !s.status.Blocked? && ValidReceipt(g) && g.id == s.id
    && g.issuedAt <= now + 30 && now < g.expiresAt
    && g.expiresAt - now >= RequiredTime(s)
  }

  /** The port's answer, and when the deadline is checked before and after it. */
  datatype Port = Port(result: BackendResult, before: int, after: int)

  datatype Run = Refused | TooLate | Rejected | Reported(report: Report)

  function Execute(s: Scenario, g: Receipt, now: int, port: Port): Run {
    if !Admitted(s, g, now) then Refused
    else if port.before >= g.expiresAt || port.after >= g.expiresAt then TooLate
    else if port.result.id != s.id then Rejected
    else
      match Validate(s, port.result)
      case None => Rejected
      case Some(report) => Reported(report)
  }

  // ----------------------------------------------------------------- main results

  /** Final fingerprints that are digests and agree. */
  predicate EndsAtA(r: BackendResult) {
    |r.finalLive| == DIGEST && r.finalLive == r.finalA
  }

  /** For every backend: a report has the planned sends and proves that nothing
      was retried; it stops for reconciliation exactly when the result is in
      reconciliation, and otherwise the system is exactly back at A; it says
      "definitely not applied" exactly when a completed run read A back. */
  lemma ReportMeans(s: Scenario, g: Receipt, now: int, port: Port)
    requires Execute(s, g, now, port).Reported?
    ensures var r, p := port.result, Execute(s, g, now, port).report;
      && p.id == s.id && p.retrySuppressed && p.state == r.state && p.outcome == r.outcome && OutcomeAllowed(s.delivery, p.outcome)
      && p.orchestrationSends == s.orchestrationSends && p.forwardSends == s.forwardSends && p.rollbackSends == s.rollbackSends
      && (p.policy.ReconciliationStop? <==> r.state.Reconciliation?)
      && (p.policy.ReconciliationStop? <==> s.finalRequirement.ReconciliationRequired?)
      && (p.policy.ReconciliationStop? ==> r.pendingAuthenticated && !r.ownerEvidenceUsed)
      && (!p.policy.ReconciliationStop? ==> EndsAtA(r))
      && (p.policy.DefinitelyNotAppliedA? <==> !r.state.Reconciliation? && p.readBack == Some(DefinitelyNotApplied))
      && (p.readBack == Some(DefinitelyNotApplied) <==> s.readBackRequired && r.live == r.a && r.live != r.b)
      && (p.readBack == Some(DefinitelyApplied) <==> s.readBackRequired && r.live == r.b && r.live != r.a)
      && (p.readBack.Some? <==> s.readBackRequired)
  {
    var r := port.result;
    var report := Validate(s, r).value;
    assert PolicyOf(s, r, ReadBackOf(s, r)) == Some(report.policy);
  }

  /** The gate's receipt leaves sixty seconds for each declared send and four
      more operations, and thirty besides. */
  predicate TimeGranted(s: Scenario, g: Receipt, now: int) {
    && s.status != Blocked && g.id == s.id && g.passed && !g.dryRunSent
    && g.issuedAt < g.expiresAt && g.issuedAt - 30 <= now < g.expiresAt
    && now + 60 * (s.orchestrationSends + s.forwardSends + s.rollbackSends) + 270 <= g.expiresAt
  }

  /** Which outcomes a delivery model admits. */
  predicate Delivers(delivery: Option<Delivery>, outcome: TransportOutcome) {
    || delivery == None
    || (delivery == Some(ProvenDelivered) && outcome == ResponseDropped)
    || (delivery == Some(ProvenNotDelivered) && outcome in {NotSent, ConnectionClosed})
    || (delivery == Some(PossiblyDelivered) && outcome in {ResponseDropped, Timeout, ConnectionClosed})
  }

  predicate Digested(x: Option<string>) {
    x.Some? && |x.value| == 64
  }

  /** A result that agrees with its plan and carries the evidence the plan needs. */
  predicate Conclusive(s: Scenario, r: BackendResult) {
    && r.id == s.id && r.retrySuppressed && Delivers(s.delivery, r.outcome)
    && r.orchestrationSends == s.orchestrationSends && r.forwardSends == s.forwardSends && r.rollbackSends == s.rollbackSends
    && (s.readBackRequired ==> Digested(r.live) && Digested(r.a) && Digested(r.b) && r.a != r.b)
    && |r.finalLive| == 64 && |r.finalA| == 64
    && (r.state == Reconciliation <==> s.finalRequirement == ReconciliationRequired)
    && if r.state == Reconciliation then r.pendingAuthenticated && !r.ownerEvidenceUsed else r.finalLive == r.finalA
  }

  /** A result is accepted exactly when it is conclusive. */
  lemma ValidatesExactly(s: Scenario, r: BackendResult)
    ensures Validate(s, r).Some? <==> Conclusive(s, r)
  {
    assert OutcomeAllowed(s.delivery, r.outcome) <==> Delivers(s.delivery, r.outcome);
    EvidenceMeans(s, r);
  }

  /** When each answer is given: a report exactly for a conclusive result inside
      the time granted. */
  lemma AnsweredExactly(s: Scenario, g: Receipt, now: int, port: Port)
    ensures var run := Execute(s, g, now, port); var inTime := port.before < g.expiresAt && port.after < g.expiresAt;
      && (run.Refused? <==> !TimeGranted(s, g, now))
      && (run.TooLate? <==> TimeGranted(s, g, now) && !inTime)
      && (run.Reported? <==> TimeGranted(s, g, now) && inTime && Conclusive(s, port.result))
  {
    ValidatesExactly(s, port.result);
  }

  lemma EvidenceMeans(s: Scenario, r: BackendResult)
    ensures ReadBackOf(s, r).NoEvidence? <==>
            s.readBackRequired && !(Digested(r.live) && Digested(r.a) && Digested(r.b) && r.a != r.b)
  {
  }

  /** A result in the state the plan expects can be accepted only when the plan
      asks for reconciliation exactly if it expects to end there. */
  lemma ExpectedStateAccepted(s: Scenario)
    ensures (exists r: BackendResult :: r.state == s.expectedState && Validate(s, r).Some?) <==>
            (s.expectedState.Reconciliation? <==> s.finalRequirement.ReconciliationRequired?)
  {
    forall r: BackendResult | r.state == s.expectedState && Validate(s, r).Some?
      ensures s.expectedState.Reconciliation? <==> s.finalRequirement.ReconciliationRequired?
    {
      assert PolicyOf(s, r, ReadBackOf(s, r)).Some?;
    }
    if s.expectedState.Reconciliation? <==> s.finalRequirement.ReconciliationRequired? {
      assert Validate(s, Conforming(s)).Some? by {
        ConformingAccepted(s);
      }
    }
  }

  function Conforming(s: Scenario): BackendResult {
    var x, y := seq(DIGEST, _ => 'a'), seq(DIGEST, _ => 'b');
    BackendResult(
      s.id, s.orchestrationSends, s.forwardSends, s.rollbackSends,
      if s.delivery == Some(ProvenNotDelivered) then NotSent else ResponseDropped,
      Some(x), Some(x), Some(y), x, x, s.expectedState, true, false, true)
  }

  lemma ConformingAccepted(s: Scenario)
    requires s.expectedState.Reconciliation? <==> s.finalRequirement.ReconciliationRequired?
    ensures Validate(s, Conforming(s)).Some?
  {
    var r := Conforming(s);
    assert r.a.value[0] != r.b.value[0];
    assert ReadBackOf(s, r) == if s.readBackRequired then Seen(DefinitelyNotApplied) else NotRequired;
    assert PolicyOf(s, r, ReadBackOf(s, r)).Some?;
  }

  /** The scenarios whose expected state and final requirement disagree. */
  const CONTRADICTORY: seq<Scenario> := [
    Scenario("e9-not-applied-reconciliation", 0, 0, 0, None, true, Failed, ReconciliationRequired, Ready),
    Scenario("g6-locator-persistence", 0, 0, 0, None, true, Reconciliation, ExactARequired, OfflineOnly),
    Scenario("g7-b-integrity", 0, 0, 0, None, true, Reconciliation, ExactARequired, OfflineOnly),
    Scenario("g8-a-integrity", 0, 0, 0, None, true, Reconciliation, ExactARequired, OfflineOnly),
    Scenario("g9-ephemeral-projection-non-persistence", 0, 0, 0, None, true, Reconciliation, ExactARequired, OfflineOnly),
    Scenario("g10-legacy-malformed-state", 0, 0, 0, None, true, Reconciliation, ExactARequired, OfflineOnly)]

  /** None of them can ever be reported in the state its plan expects. */
  lemma NeverAsExpected(i: nat, g: Receipt, now: int, port: Port)
    requires i < |CONTRADICTORY|
    ensures var s := CONTRADICTORY[i]; var run := Execute(s, g, now, port);
      ValidScenario(s) && (run.Reported? ==> run.report.state != s.expectedState)
  {
    var s := CONTRADICTORY[i];
    ExpectedStateAccepted(s);
    if Execute(s, g, now, port).Reported? {
      ReportMeans(s, g, now, port);
    }
  }

  /** Admission leaves time for every declared operation: a port that starts
      after admission and whose whole run takes less than the required time
      never trips a deadline check. */
  lemma FastPortNeverLate(s: Scenario, g: Receipt, now: int, port: Port)
    requires now <= port.before <= port.after
    requires port.after - now < RequiredTime(s)
    ensures !Execute(s, g, now, port).TooLate?
  {
  }

  function Sum(durations: seq<int>): int {
    if durations == [] then 0 else durations[0] + Sum(durations[1..])
  }

  lemma {:induction false} SumBounded(durations: seq<int>, bound: int)
    requires forall i :: 0 <= i < |durations| ==> durations[i] <= bound
    ensures Sum(durations) <= bound * |durations|
  {
    if durations != [] {
      SumBounded(durations[1..], bound);
    }
  }

  /** So a run made of the declared sends and four more operations, none longer
      than the transport's 60 seconds, with less than 30 seconds spent locally, is
      never late. */
  lemma BoundedOperationsNeverLate(s: Scenario, g: Receipt, now: int, port: Port, durations: seq<int>, local: int)
    requires ValidScenario(s) && now <= port.before <= port.after && local < OVERHEAD
    requires |durations| <= s.orchestrationSends + s.forwardSends + s.rollbackSends + 4
    requires forall i :: 0 <= i < |durations| ==> durations[i] <= OPERATION_BOUND
    requires port.after - now == Sum(durations) + local
    ensures !Execute(s, g, now, port).TooLate?
  {
    SumBounded(durations, OPERATION_BOUND);
    FastPortNeverLate(s, g, now, port);
  }

  /** The bound is tight: with the shortest admitted receipt a port that takes
      exactly the required time is refused. */
  lemma RequiredTimeIsTight(s: Scenario, issuedAt: int, now: int, port: Port)
    requires !s.status.Blocked? && ValidScenario(s) && issuedAt <= now
    requires port.after - now == RequiredTime(s)
    ensures Execute(s, Receipt(s.id, issuedAt, now + RequiredTime(s), true, false), now, port).TooLate?
  {
  }
}
