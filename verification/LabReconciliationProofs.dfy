/** What the three steps guarantee together. */
module LabReconciliationProofs {
  import opened Options
  import opened RecoveryStates
  import opened Text
  import opened LabReconciliation

  // ------------------------------------------------------------------ round trips

  /** Every valid pending record reads back from its file. */
  lemma PendingRoundTrip(p: Pending)
    requires ValidPending(p)
    ensures LoadPending(PendingFile(p)) == Some(p)
  {
    assert PendingFile(p).Keys == PENDING_FIELDS;
    assert ReadText(OptionalText(p.fingerprint)) == Some(p.fingerprint);
    assert ReadNumber(OptionalNumber(p.locator)) == Some(p.locator);
  }

  /** So does every valid evidence record, proof included. */
  lemma SignedRoundTrip(e: Evidence)
    requires ValidStatement(e.statement)
    ensures LoadSigned(SignedFile(e)) == Some(e)
  {
    assert SignedFile(e).Keys == SIGNED_FIELDS;
    assert ReadText(OptionalText(e.statement.fingerprint)) == Some(e.statement.fingerprint);
    assert ReadNumber(OptionalNumber(e.statement.locator)) == Some(e.statement.locator);
  }

  /** What loads is valid, and carries its own record's MAC, or its own proof. */
  lemma LoadedPending(raw: Raw)
    requires LoadPending(raw).Some?
    ensures ValidPending(LoadPending(raw).value)
    ensures IntegrityMac in raw && raw[IntegrityMac] == MacOf(LoadPending(raw).value)
  {
    assert IntegrityMac in PENDING_FIELDS;
  }

  lemma LoadedSigned(raw: Raw)
    requires LoadSigned(raw).Some?
    ensures ValidStatement(LoadSigned(raw).value.statement)
    ensures ProofBytes in raw && raw[ProofBytes] == Encoded(LoadSigned(raw).value.proof)
  {
    assert ProofBytes in SIGNED_FIELDS;
  }

  // ------------------------------------------------------------ what can be signed

  lemma ConstantsSafe()
    ensures SafeToken(AUTHORITY) && SafeToken(ALGORITHM)
  {
  }

  /** Which outcomes an owner can sign for a pending record. */
  lemma SignableExactly(p: Pending, outcome: Outcome)
    requires ValidPending(p)
    ensures StatementOf(p, outcome).Some? <==>
      && Allowed(p.origin, outcome) && SafeToken(p.contractId) && SafeToken(p.operationId)
      && (outcome.ConfirmedApplied? ==> p.fingerprint.Some?)
      && (outcome.ConfirmedRollbackApplied? ==> p.locator.Some?)
  {
    ConstantsSafe();
  }

  // ---------------------------------------------------------------- the whole system

  /** The statement was made about a record that was emitted. */
  ghost predicate Traced(s: Statement, emitted: set<Pending>) {
    exists p, outcome :: p in emitted && ValidPending(p) && StatementOf(p, outcome) == Some(s)
  }

  ghost predicate GoodGiven(g: Given, signed: set<Statement>, pinned: nat) {
    && ValidStatement(g.evidence.statement) && Allowed(g.origin, g.evidence.statement.outcome)
    && (Verifies(pinned, g.evidence) ==> g.evidence.statement in signed)
  }

  ghost predicate Inv(st: State, pinned: nat) {
    && (forall p :: p in st.emitted ==> ValidPending(p))
    && (forall s :: s in st.signed ==> Traced(s, st.emitted))
    && (st.pendingFile.Some? ==> Unforged(st, PendingReplaced(st.pendingFile), pinned))
    && (st.signedFile.Some? ==> Unforged(st, SignedReplaced(st.signedFile), pinned))
    && (forall i :: 0 <= i < |st.given| ==> GoodGiven(st.given[i], st.signed, pinned))
  }

  lemma TracedGrows(s: Statement, emitted: set<Pending>, p: Pending)
    requires Traced(s, emitted)
    ensures Traced(s, emitted + {p})
  {
    var q, outcome :| q in emitted && ValidPending(q) && StatementOf(q, outcome) == Some(s);
    assert q in emitted + {p};
  }

  lemma EmitKeeps(st: State, id: string, issuedAt: int, fingerprint: Option<string>, locator: Option<int>, pinned: nat)
    requires Inv(st, pinned)
    ensures Inv(Emit(st, id, issuedAt, fingerprint, locator), pinned)
  {
    var st' := Emit(st, id, issuedAt, fingerprint, locator);
    if st' != st {
      var op := st.operations[id];
      var p := Pending(op.id, op.operationId, op.version, OriginOf(op).value, issuedAt, fingerprint, locator);
      forall s | s in st'.signed ensures Traced(s, st'.emitted) {
        TracedGrows(s, st.emitted, p);
      }
    }
  }

  lemma SignKeeps(st: State, outcome: Outcome, privateKey: nat, pinned: nat)
    requires Inv(st, pinned)
    ensures Inv(Sign(st, outcome, privateKey, pinned), pinned)
  {
    var st' := Sign(st, outcome, privateKey, pinned);
    if st' != st {
      LoadedPending(st.pendingFile.value);
      var p := LoadPending(st.pendingFile.value).value;
      var s := StatementOf(p, outcome).value;
      assert p in st.emitted;
      assert Traced(s, st'.emitted);
      forall i | 0 <= i < |st'.given| ensures GoodGiven(st'.given[i], st'.signed, pinned) {
        assert GoodGiven(st.given[i], st.signed, pinned);
      }
    }
  }

  lemma ResolveKeeps(st: State, pinned: nat)
    requires Inv(st, pinned)
    ensures Inv(Resolve(st), pinned)
  {
    var st' := Resolve(st);
    if st' != st {
      LoadedSigned(st.signedFile.value);
      var e := LoadSigned(st.signedFile.value).value;
      assert GoodGiven(st'.given[|st.given|], st.signed, pinned);
      assert forall i :: 0 <= i < |st.given| ==> st'.given[i] == st.given[i];
    }
  }

  lemma StepKeeps(st: State, step: Step, pinned: nat)
    requires Inv(st, pinned) && Unforged(st, step, pinned)
    ensures Inv(Next(st, step, pinned), pinned)
  {
    match step
    case Emits(id, issuedAt, fingerprint, locator) => EmitKeeps(st, id, issuedAt, fingerprint, locator, pinned);
    case Signs(outcome, privateKey) => SignKeeps(st, outcome, privateKey, pinned);
    case Resolves => ResolveKeeps(st, pinned);
    case _ =>
  }

  lemma {:induction false} RunKeeps(st: State, steps: seq<Step>, pinned: nat)
    requires Inv(st, pinned) && UnforgedRun(st, steps, pinned)
    ensures Inv(After(st, steps, pinned), pinned)
  {
    if steps != [] {
      var init := steps[..|steps| - 1];
      assert forall i :: 0 <= i < |init| ==> init[..i] == steps[..i];
      RunKeeps(st, init, pinned);
      StepKeeps(After(st, init, pinned), steps[|steps| - 1], pinned);
    }
  }

  function Start(operations: map<string, Operation>): State {
    State(operations, None, None, {}, {}, [])
  }

  /** Over any sequence of emitting, signing and resolving, with the store and
      the files changing in between, evidence handed to the store has an outcome
      that the origin in its last audit event allows, a fingerprint exactly when
      it confirms the operation, and a locator exactly when it confirms the
      operation or its rollback. */
  lemma GivenFitsOrigin(operations: map<string, Operation>, steps: seq<Step>, pinned: nat, i: nat)
    requires UnforgedRun(Start(operations), steps, pinned) && i < |After(Start(operations), steps, pinned).given|
    ensures var g := After(Start(operations), steps, pinned).given[i]; var s := g.evidence.statement;
      && Allowed(g.origin, s.outcome)
      && (s.fingerprint.Some? <==> s.outcome.ConfirmedApplied?)
      && (s.locator.Some? <==> s.outcome.ConfirmedApplied? || s.outcome.ConfirmedRollbackApplied?)
  {
    RunKeeps(Start(operations), steps, pinned);
    assert GoodGiven(After(Start(operations), steps, pinned).given[i], After(Start(operations), steps, pinned).signed, pinned);
  }

  /** The statement was made about an emitted record whose origin is `origin`. */
  ghost predicate TracedFrom(s: Statement, origin: RecoveryState, emitted: set<Pending>) {
    exists p :: p in emitted && p.origin == origin && StatementOf(p, s.outcome) == Some(s)
  }

  /** End to end: evidence the pinned key verifies states an outcome that the
      owner signed for a record emitted from the store, with that record's
      identity, version, fingerprint and locator, and it is handed over under the
      origin that record was emitted with. */
  lemma VerifiedIsEmitted(operations: map<string, Operation>, steps: seq<Step>, pinned: nat, i: nat)
    requires UnforgedRun(Start(operations), steps, pinned) && i < |After(Start(operations), steps, pinned).given|
    requires Verifies(pinned, After(Start(operations), steps, pinned).given[i].evidence)
    ensures var st := After(Start(operations), steps, pinned); var g := st.given[i];
      TracedFrom(g.evidence.statement, g.origin, st.emitted)
  {
    RunKeeps(Start(operations), steps, pinned);
    var st := After(Start(operations), steps, pinned);
    assert GoodGiven(st.given[i], st.signed, pinned);
    SameOrigin(st.given[i], st.emitted);
  }

  /** No outcome is allowed by two origins. */
  lemma SameOrigin(g: Given, emitted: set<Pending>)
    requires Allowed(g.origin, g.evidence.statement.outcome) && Traced(g.evidence.statement, emitted)
    ensures TracedFrom(g.evidence.statement, g.origin, emitted)
  {
    var s := g.evidence.statement;
    var p, outcome :| p in emitted && ValidPending(p) && StatementOf(p, outcome) == Some(s);
    assert s.outcome == outcome && Allowed(p.origin, outcome);
    assert p.origin == g.origin;
  }

  // ------------------------------------------------------- when the steps act

  /** A file loads as a record exactly when it is that valid record's file. */
  lemma PendingLoads(raw: Raw, p: Pending)
    ensures LoadPending(raw) == Some(p) <==> ValidPending(p) && raw == PendingFile(p)
  {
    if ValidPending(p) {
      PendingRoundTrip(p);
    }
    if LoadPending(raw) == Some(p) {
      assert PendingFile(p).Keys == PENDING_FIELDS == raw.Keys;
      assert OptionalText(p.fingerprint) == raw[TargetFingerprint] && OptionalNumber(p.locator) == raw[LifecycleLocator];
      assert forall f :: f in PENDING_FIELDS ==> PendingFile(p)[f] == raw[f];
    }
  }

  lemma SignedLoads(raw: Raw, e: Evidence)
    ensures LoadSigned(raw) == Some(e) <==> ValidStatement(e.statement) && raw == SignedFile(e)
  {
    if ValidStatement(e.statement) {
      SignedRoundTrip(e);
    }
    if LoadSigned(raw) == Some(e) {
      assert SignedFile(e).Keys == SIGNED_FIELDS == raw.Keys;
      assert OptionalText(e.statement.fingerprint) == raw[TargetFingerprint];
      assert OptionalNumber(e.statement.locator) == raw[LifecycleLocator];
      assert forall f :: f in SIGNED_FIELDS ==> SignedFile(e)[f] == raw[f];
    }
  }

  /** The store still holds the operation, unresolved, at this version, left from
      this origin, and with this locator if one is given. */
  predicate Current(
      operations: map<string, Operation>, id: string, operationId: string, version: int, locator: Option<int>,
      origin: RecoveryState)
  {
    id in operations && var op := operations[id];
    && op.state.Reconciliation? && op.operationId == operationId && op.version == version
    && op.audit != [] && op.audit[|op.audit| - 1] == Some(origin)
    && (locator.Some? ==> op.locator == locator)
  }

  predicate CanEmit(st: State, p: Pending) {
    && st.pendingFile == None && Current(st.operations, p.contractId, p.operationId, p.version, p.locator, p.origin)
    && p.contractId != "" && p.operationId != "" && p.version >= 0
    && (p.origin == Executing || p.origin == RollingBack)
    && (p.locator.Some? ==> 0 <= p.locator.value <= 2147483647)
    && (p.fingerprint.Some? ==> HexDigest(p.fingerprint.value) && p.locator.Some? && p.origin == Executing)
  }

  /** Every operation is stored under its own name. */
  predicate Keyed(operations: map<string, Operation>) {
    forall id :: id in operations ==> operations[id].id == id
  }

  /** A pending record is written exactly for an unresolved operation, once, with
      what the store says of it and what the caller adds. */
  lemma EmitsExactly(st: State, id: string, issuedAt: int, fingerprint: Option<string>, locator: Option<int>)
    requires Keyed(st.operations)
    ensures var st' := Emit(st, id, issuedAt, fingerprint, locator);
      if id in st.operations && HasOrigin(st.operations[id]) then
        var op := st.operations[id];
        var p := Pending(id, op.operationId, op.version, op.audit[|op.audit| - 1].value, issuedAt, fingerprint, locator);
        st' == if CanEmit(st, p) then st.(pendingFile := Some(PendingFile(p)), emitted := st.emitted + {p}) else st
      else st' == st
  {
  }

  predicate HasOrigin(op: Operation) {
    op.audit != [] && op.audit[|op.audit| - 1].Some?
  }

  predicate Fits(origin: RecoveryState, outcome: Outcome) {
    || (origin == Executing && (outcome == ConfirmedApplied || outcome == ConfirmedNotApplied))
    || (origin == RollingBack && (outcome == ConfirmedRollbackApplied || outcome == ConfirmedRollbackNotApplied))
  }

  /** What the owner states about a record. */
  function Stated(p: Pending, outcome: Outcome): Statement {
    Statement(
      "lab-t1-reconciliation-owner-v1", "ed25519-v1", p.contractId, p.operationId, p.version, outcome, p.issuedAt,
      if outcome == ConfirmedApplied then p.fingerprint else None,
      if outcome == ConfirmedApplied || outcome == ConfirmedRollbackApplied then p.locator else None)
  }

  predicate Signable(p: Pending, outcome: Outcome) {
    && Fits(p.origin, outcome) && SafeToken(p.contractId) && SafeToken(p.operationId)
    && (outcome == ConfirmedApplied ==> p.fingerprint.Some?)
    && (outcome == ConfirmedRollbackApplied ==> p.locator.Some?)
  }

  lemma StatedExactly(p: Pending, outcome: Outcome)
    requires ValidPending(p)
    ensures StatementOf(p, outcome) == if Signable(p, outcome) then Some(Stated(p, outcome)) else None
    ensures Signable(p, outcome) ==> ValidStatement(Stated(p, outcome))
  {
    SignableExactly(p, outcome);
  }

  ghost predicate CanSign(st: State, p: Pending, outcome: Outcome, privateKey: nat, pinned: nat) {
    && st.signedFile == None && st.pendingFile == Some(PendingFile(p)) && ValidPending(p)
    && Current(st.operations, p.contractId, p.operationId, p.version, p.locator, p.origin)
    && Signable(p, outcome) && privateKey == pinned
  }

  function Proven(p: Pending, outcome: Outcome, key: nat): Evidence {
    Evidence(Stated(p, outcome), Signature(key, Stated(p, outcome)))
  }

  /** The state once the evidence is written. */
  function Evidenced(st: State, e: Evidence): State {
    st.(signedFile := Some(SignedFile(e)), signed := st.signed + {e.statement})
  }

  lemma SignsWhen(st: State, p: Pending, outcome: Outcome, privateKey: nat, pinned: nat)
    requires CanSign(st, p, outcome, privateKey, pinned)
    ensures Sign(st, outcome, privateKey, pinned) == Evidenced(st, Proven(p, outcome, pinned))
  {
    PendingLoads(st.pendingFile.value, p);
    StatedExactly(p, outcome);
  }

  lemma SignsOnly(st: State, outcome: Outcome, privateKey: nat, pinned: nat) returns (p: Pending)
    requires Sign(st, outcome, privateKey, pinned) != st
    ensures CanSign(st, p, outcome, privateKey, pinned)
  {
    p := LoadPending(st.pendingFile.value).value;
    PendingLoads(st.pendingFile.value, p);
    StatedExactly(p, outcome);
  }

  /** Evidence is written exactly for an authentic pending record that still fits
      the store, an outcome it allows, and the pinned key, once. */
  lemma SignsExactly(st: State, outcome: Outcome, privateKey: nat, pinned: nat)
    ensures forall p :: CanSign(st, p, outcome, privateKey, pinned) ==>
      Sign(st, outcome, privateKey, pinned) == Evidenced(st, Proven(p, outcome, pinned))
    ensures (forall p :: !CanSign(st, p, outcome, privateKey, pinned)) ==> Sign(st, outcome, privateKey, pinned) == st
  {
    forall p | CanSign(st, p, outcome, privateKey, pinned)
      ensures Sign(st, outcome, privateKey, pinned) == Evidenced(st, Proven(p, outcome, pinned))
    {
      SignsWhen(st, p, outcome, privateKey, pinned);
    }
    if Sign(st, outcome, privateKey, pinned) != st {
      var p := SignsOnly(st, outcome, privateKey, pinned);
    }
  }

  /** Safe tokens, a version, a digest exactly for an operation confirmed, and a
      locator in range exactly for one confirmed or rolled back. */
  predicate WellStated(s: Statement) {
    && SafeToken(s.authorityId) && SafeToken(s.algorithm) && SafeToken(s.contractId) && SafeToken(s.operationId)
    && 0 <= s.version
    && (if s.outcome == ConfirmedApplied then s.fingerprint.Some? && HexDigest(s.fingerprint.value) else s.fingerprint == None)
    && if s.outcome == ConfirmedApplied || s.outcome == ConfirmedRollbackApplied
       then s.locator.Some? && 0 <= s.locator.value <= 2147483647
       else s.locator == None
  }

  lemma WellStatedExactly(s: Statement)
    ensures ValidStatement(s) <==> WellStated(s)
  {
  }

  predicate Foreign(s: Statement) {
    s.authorityId != "lab-t1-reconciliation-owner-v1" || s.algorithm != "ed25519-v1"
  }

  /** Evidence fails to verify exactly when another authority's or another
      algorithm's, or without the pinned key's signature on its statement. */
  lemma VerifiesExactly(pinned: nat, e: Evidence)
    ensures !Verifies(pinned, e) <==> Foreign(e.statement) || e.proof != Signature(pinned, e.statement)
  {
  }

  ghost predicate CanResolve(st: State, e: Evidence, origin: RecoveryState) {
    && st.signedFile == Some(SignedFile(e)) && WellStated(e.statement)
    && e.statement.contractId in st.operations
    && var op := st.operations[e.statement.contractId];
    && op.state.Reconciliation? && op.audit != [] && op.audit[|op.audit| - 1] == Some(origin)
    && Fits(origin, e.statement.outcome)
  }

  lemma ResolvesWhen(st: State, e: Evidence, origin: RecoveryState)
    requires CanResolve(st, e, origin)
    ensures Resolve(st) == st.(given := st.given + [Given(e, origin)])
  {
    WellStatedExactly(e.statement);
    SignedLoads(st.signedFile.value, e);
  }

  lemma ResolvesOnly(st: State) returns (e: Evidence, origin: RecoveryState)
    requires Resolve(st) != st
    ensures CanResolve(st, e, origin)
  {
    e := LoadSigned(st.signedFile.value).value;
    SignedLoads(st.signedFile.value, e);
    WellStatedExactly(e.statement);
    origin := OriginOf(st.operations[e.statement.contractId]).value;
  }

  /** Evidence is handed over exactly when it loads and its outcome fits the
      origin the unresolved operation was left from. */
  lemma ResolvesExactly(st: State)
    ensures forall e, origin :: CanResolve(st, e, origin) ==> Resolve(st) == st.(given := st.given + [Given(e, origin)])
    ensures (forall e, origin :: !CanResolve(st, e, origin)) ==> Resolve(st) == st
  {
    forall e, origin | CanResolve(st, e, origin) ensures Resolve(st) == st.(given := st.given + [Given(e, origin)]) {
      ResolvesWhen(st, e, origin);
    }
    if Resolve(st) != st {
      var e, origin := ResolvesOnly(st);
    }
  }

  /** Progress: from an unresolved operation and no files, emitting, signing with
      the pinned key and resolving hand over evidence that verifies, about that
      operation and with the owner's outcome. */
  lemma ThreeStepsResolve(st: State, p: Pending, outcome: Outcome, pinned: nat)
    requires Keyed(st.operations) && CanEmit(st, p) && st.signedFile == None && Signable(p, outcome)
    ensures var steps := [Emits(p.contractId, p.issuedAt, p.fingerprint, p.locator), Signs(outcome, pinned), Resolves];
      var end := After(st, steps, pinned);
      && end.given == st.given + [Given(Proven(p, outcome, pinned), p.origin)]
      && Verifies(pinned, Proven(p, outcome, pinned))
  {
    AfterThree(st, Emits(p.contractId, p.issuedAt, p.fingerprint, p.locator), Signs(outcome, pinned), Resolves, pinned);
    EmitsExactly(st, p.contractId, p.issuedAt, p.fingerprint, p.locator);
    SignThenResolve(Emit(st, p.contractId, p.issuedAt, p.fingerprint, p.locator), p, outcome, pinned);
  }

  lemma NowResolvable(st: State, p: Pending, outcome: Outcome, pinned: nat)
    requires CanSign(st, p, outcome, pinned, pinned)
    ensures CanResolve(Evidenced(st, Proven(p, outcome, pinned)), Proven(p, outcome, pinned), p.origin)
  {
    StatedExactly(p, outcome);
    WellStatedExactly(Stated(p, outcome));
  }

  lemma SignThenResolve(st: State, p: Pending, outcome: Outcome, pinned: nat)
    requires CanSign(st, p, outcome, pinned, pinned)
    ensures Resolve(Sign(st, outcome, pinned, pinned)).given == st.given + [Given(Proven(p, outcome, pinned), p.origin)]
  {
    var e := Proven(p, outcome, pinned);
    SignsWhen(st, p, outcome, pinned, pinned);
    NowResolvable(st, p, outcome, pinned);
    ResolvesWhen(Evidenced(st, e), e, p.origin);
  }

  lemma AfterOne(st: State, steps: seq<Step>, step: Step, pinned: nat)
    ensures After(st, steps + [step], pinned) == Next(After(st, steps, pinned), step, pinned)
  {
    assert (steps + [step])[..|steps|] == steps;
  }

  lemma AfterThree(st: State, a: Step, b: Step, c: Step, pinned: nat)
    ensures After(st, [a, b, c], pinned) == Next(Next(Next(st, a, pinned), b, pinned), c, pinned)
  {
    AfterOne(st, [], a, pinned);
    AfterOne(st, [a], b, pinned);
    AfterOne(st, [a, b], c, pinned);
    assert [] + [a] == [a] && [a] + [b] == [a, b] && [a, b] + [c] == [a, b, c];
  }

  /** The runs cover everything others can do to the store and the files. */
  lemma OthersMayChangeAll(st: State, operations: map<string, Operation>, a: Option<Raw>, b: Option<Raw>, pinned: nat)
    ensures After(st, [StoreChanges(operations), PendingReplaced(a), SignedReplaced(b)], pinned) ==
            State(operations, a, b, st.emitted, st.signed, st.given)
  {
    AfterThree(st, StoreChanges(operations), PendingReplaced(a), SignedReplaced(b), pinned);
  }
}
