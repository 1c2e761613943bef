/** Resolving an operation whose result is unknown: a pending record is emitted,
    its owner signs an outcome, and the signed evidence is handed to the store
    (lab/reconciliation_authority.py, lab/reconciliation_owner.py). */
module LabReconciliation {
  import opened Options
  import opened RecoveryStates
  import opened Text

  const AUTHORITY: string := "lab-t1-reconciliation-owner-v1"
  const ALGORITHM: string := "ed25519-v1"
  const LOCATOR_MAX: int := 2147483647

  datatype Outcome = ConfirmedApplied | ConfirmedNotApplied | ConfirmedRollbackApplied | ConfirmedRollbackNotApplied

  predicate Locator(n: int) {
    0 <= n <= LOCATOR_MAX
  }

  // --------------------------------------------------------------------- records

  datatype Pending = Pending(
    contractId: string, operationId: string, version: int, origin: RecoveryState, issuedAt: int,
    fingerprint: Option<string>, locator: Option<int>)

  predicate ValidPending(p: Pending) {
    && p.contractId != "" && p.operationId != "" && p.version >= 0
    && (p.origin.Executing? || p.origin.RollingBack?)
    && (p.fingerprint.Some? ==> HexDigest(p.fingerprint.value) && p.locator.Some? && !p.origin.RollingBack?)
    && (p.locator.Some? ==> Locator(p.locator.value))
  }

  /** What an evidence record states: everything that its proof signs. */
  datatype Statement = Statement(
    authorityId: string, algorithm: string, contractId: string, operationId: string, version: int,
    outcome: Outcome, issuedAt: int, fingerprint: Option<string>, locator: Option<int>)

  /** Ideal signatures. */
  datatype Proof = Placeholder | Garbage(n: nat) | Signature(key: nat, statement: Statement)

  datatype Evidence = Evidence(statement: Statement, proof: Proof)

  predicate ValidStatement(s: Statement) {
    && SafeToken(s.authorityId) && SafeToken(s.algorithm) && SafeToken(s.contractId) && SafeToken(s.operationId)
    && s.version >= 0
    && (s.fingerprint.Some? <==> s.outcome.ConfirmedApplied?)
    && (s.fingerprint.Some? ==> HexDigest(s.fingerprint.value))
    && (s.locator.Some? <==> s.outcome.ConfirmedApplied? || s.outcome.ConfirmedRollbackApplied?)
    && (s.locator.Some? ==> Locator(s.locator.value))
  }

  predicate Allowed(origin: RecoveryState, outcome: Outcome) {
    match origin
    case Executing => outcome.ConfirmedApplied? || outcome.ConfirmedNotApplied?
    case RollingBack => outcome.ConfirmedRollbackApplied? || outcome.ConfirmedRollbackNotApplied?
    case _ => false
  }

  function StatementOf(p: Pending, outcome: Outcome): Option<Statement> {
    if !Allowed(p.origin, outcome) then None
    else
      var applied := outcome.ConfirmedApplied?;
      var s := Statement(
        AUTHORITY, ALGORITHM, p.contractId, p.operationId, p.version, outcome, p.issuedAt,
        if applied then p.fingerprint else None,
        if applied || outcome.ConfirmedRollbackApplied? then p.locator else None);
      if ValidStatement(s) then Some(s) else None
  }

  predicate Verifies(pinned: nat, e: Evidence) {
    e.statement.algorithm == ALGORITHM && e.statement.authorityId == AUTHORITY && e.proof == Signature(pinned, e.statement)
  }

  // ----------------------------------------------------------------------- files

  datatype Field =
    | SchemaVersion | AuthorityId | Algorithm | ContractId | OperationId | StateVersion | Origin | Result | IssuedAt
    | TargetFingerprint | LifecycleLocator | IntegrityMac | ProofBytes | Unexpected(name: string)

  /** A JSON value; times, enumeration names, MACs and encoded proofs stand for
      their texts. A MAC under the integrity key determines its record. */
  datatype Value =
    | Text(s: string) | Number(n: int) | Null | Time(at: int, utc: bool) | StateName(state: RecoveryState)
    | OutcomeName(outcome: Outcome) | MacOf(pending: Pending) | Encoded(proof: Proof)

  type Raw = map<Field, Value>

  const PENDING_FIELDS: set<Field> := {
    SchemaVersion, AuthorityId, Algorithm, ContractId, OperationId, StateVersion, Origin, IssuedAt, TargetFingerprint,
    LifecycleLocator, IntegrityMac}

  const SIGNED_FIELDS: set<Field> := {
    SchemaVersion, AuthorityId, Algorithm, ContractId, OperationId, StateVersion, Result, IssuedAt, TargetFingerprint,
    LifecycleLocator, ProofBytes}

  function OptionalText(s: Option<string>): Value {
    match s
    case None => Null
    case Some(text) => Text(text)
  }

  function OptionalNumber(n: Option<int>): Value {
    match n
    case None => Null
    case Some(i) => Number(i)
  }

  /** `None` when the value is neither null nor a text. */
  function ReadText(v: Value): Option<Option<string>> {
    match v
    case Null => Some(None)
    case Text(s) => Some(Some(s))
    case _ => None
  }

  function ReadNumber(v: Value): Option<Option<int>> {
    match v
    case Null => Some(None)
    case Number(n) => Some(Some(n))
    case _ => None
  }

  function PendingFile(p: Pending): Raw {
    map[SchemaVersion := Number(2), AuthorityId := Text(AUTHORITY), Algorithm := Text(ALGORITHM),
        ContractId := Text(p.contractId), OperationId := Text(p.operationId), StateVersion := Number(p.version),
        Origin := StateName(p.origin), IssuedAt := Time(p.issuedAt, true),
        TargetFingerprint := OptionalText(p.fingerprint), LifecycleLocator := OptionalNumber(p.locator),
        IntegrityMac := MacOf(p)]
  }

  function LoadPending(raw: Raw): Option<Pending> {
    if raw.Keys != PENDING_FIELDS then None
    else if raw[SchemaVersion] != Number(2) || raw[AuthorityId] != Text(AUTHORITY) || raw[Algorithm] != Text(ALGORITHM) then None
    else
      match (raw[ContractId], raw[OperationId], raw[StateVersion], raw[Origin], raw[IssuedAt],
             ReadText(raw[TargetFingerprint]), ReadNumber(raw[LifecycleLocator]))
      case (Text(c), Text(o), Number(v), StateName(origin), Time(at, true), Some(fingerprint), Some(locator)) =>
        var p := Pending(c, o, v, origin, at, fingerprint, locator);
        if ValidPending(p) && raw[IntegrityMac] == MacOf(p) then Some(p) else None
      case _ => None
  }

  function SignedFile(e: Evidence): Raw {
    var s := e.statement;
    map[SchemaVersion := Number(1), AuthorityId := Text(s.authorityId), Algorithm := Text(s.algorithm),
        ContractId := Text(s.contractId), OperationId := Text(s.operationId), StateVersion := Number(s.version),
        Result := OutcomeName(s.outcome), IssuedAt := Time(s.issuedAt, true),
        TargetFingerprint := OptionalText(s.fingerprint), LifecycleLocator := OptionalNumber(s.locator),
        ProofBytes := Encoded(e.proof)]
  }

  function LoadSigned(raw: Raw): Option<Evidence> {
    if raw.Keys != SIGNED_FIELDS || raw[SchemaVersion] != Number(1) then None
    else
      match (raw[AuthorityId], raw[Algorithm], raw[ContractId], raw[OperationId], raw[StateVersion], raw[Result])
      case (Text(authority), Text(algorithm), Text(c), Text(o), Number(v), OutcomeName(outcome)) =>
        (match (raw[IssuedAt], ReadText(raw[TargetFingerprint]), ReadNumber(raw[LifecycleLocator]), raw[ProofBytes])
         case (Time(at, true), Some(fingerprint), Some(locator), Encoded(proof)) =>
           var s := Statement(authority, algorithm, c, o, v, outcome, at, fingerprint, locator);
           if ValidStatement(s) then Some(Evidence(s, proof)) else None
         case _ => None)
      case _ => None
  }

  // ------------------------------------------------------------------- the system

  /** An operation as the store holds it; the last audit event names the state
      it left, when it is well formed. */
  datatype Operation = Operation(
    id: string, operationId: string, state: RecoveryState, version: int, locator: Option<int>,
    audit: seq<Option<RecoveryState>>)

  function OriginOf(op: Operation): Option<RecoveryState> {
    if op.audit == [] then None else op.audit[|op.audit| - 1]
  }

  /** Evidence as it reaches the store, with the origin its last audit event
      named at that moment. */
  datatype Given = Given(evidence: Evidence, origin: RecoveryState)

  datatype State = State(
    operations: map<string, Operation>,
    pendingFile: Option<Raw>, signedFile: Option<Raw>,
    emitted: set<Pending>, signed: set<Statement>, given: seq<Given>)

  predicate Matches(p: Pending, operations: map<string, Operation>) {
    p.contractId in operations &&
    var op := operations[p.contractId];
    && op.state.Reconciliation? && op.operationId == p.operationId && op.version == p.version
    && (p.locator.Some? ==> p.locator == op.locator)
    && OriginOf(op) == Some(p.origin)
  }

  function Emit(st: State, id: string, issuedAt: int, fingerprint: Option<string>, locator: Option<int>): State {
    if id !in st.operations || OriginOf(st.operations[id]).None? then st
    else
      var op := st.operations[id];
      var p := Pending(op.id, op.operationId, op.version, OriginOf(op).value, issuedAt, fingerprint, locator);
      if !op.state.Reconciliation? || !ValidPending(p) || !Matches(p, st.operations) || st.pendingFile.Some? then st
      else st.(pendingFile := Some(PendingFile(p)), emitted := st.emitted + {p})
  }

  function Sign(st: State, outcome: Outcome, privateKey: nat, pinned: nat): State {
    if st.pendingFile.None? then st
    else
      match LoadPending(st.pendingFile.value)
      case None => st
      case Some(p) =>
        if !Matches(p, st.operations) then st
        else
          match StatementOf(p, outcome)
          case None => st
          case Some(s) =>
            var e := Evidence(s, Signature(privateKey, s));
            if !Verifies(pinned, e) || st.signedFile.Some? then st
            else st.(signedFile := Some(SignedFile(e)), signed := st.signed + {s})
  }

  /** Hands the evidence to the store, unless the contract or its history cannot
      be loaded or does not fit. */
  function Resolve(st: State): State {
    if st.signedFile.None? then st
    else
      match LoadSigned(st.signedFile.value)
      case None => st
      case Some(e) =>
        if e.statement.contractId !in st.operations then st
        else
          var op := st.operations[e.statement.contractId];
          match OriginOf(op)
          case None => st
          case Some(origin) =>
            if !Allowed(origin, e.statement.outcome) || !op.state.Reconciliation? then st
            else st.(given := st.given + [Given(e, origin)])
  }

  datatype Step =
    | Emits(id: string, issuedAt: int, fingerprint: Option<string>, locator: Option<int>)
    | Signs(outcome: Outcome, privateKey: nat)
    | Resolves
    | StoreChanges(operations: map<string, Operation>)
    | PendingReplaced(file: Option<Raw>)
    | SignedReplaced(file: Option<Raw>)

  function Next(st: State, step: Step, pinned: nat): State {
    match step
    case Emits(id, issuedAt, fingerprint, locator) => Emit(st, id, issuedAt, fingerprint, locator)
    case Signs(outcome, privateKey) => Sign(st, outcome, privateKey, pinned)
    case Resolves => Resolve(st)
    case StoreChanges(operations) => st.(operations := operations)
    case PendingReplaced(file) => st.(pendingFile := file)
    case SignedReplaced(file) => st.(signedFile := file)
  }

  function After(st: State, steps: seq<Step>, pinned: nat): State {
    if steps == [] then st else Next(After(st, steps[..|steps| - 1], pinned), steps[|steps| - 1], pinned)
  }

  /** A replaced file holds no MAC and no owner signature that was not made. */
  ghost predicate Unforged(st: State, step: Step, pinned: nat) {
    match step
    case PendingReplaced(Some(raw)) => IntegrityMac in raw && raw[IntegrityMac].MacOf? ==> raw[IntegrityMac].pending in st.emitted
    case SignedReplaced(Some(raw)) =>
      ProofBytes in raw && raw[ProofBytes].Encoded? && raw[ProofBytes].proof.Signature? && raw[ProofBytes].proof.key == pinned ==>
        raw[ProofBytes].proof.statement in st.signed
    case _ => true
  }

  ghost predicate UnforgedRun(st: State, steps: seq<Step>, pinned: nat) {
    forall i :: 0 <= i < |steps| ==> Unforged(After(st, steps[..i], pinned), steps[i], pinned)
  }

  // ------------------------------------------------------------ the program's form

  class Lab {
    var operations: map<string, Operation>
    var pendingFile: Option<Raw>
    var signedFile: Option<Raw>
    ghost var emitted: set<Pending>
    ghost var signed: set<Statement>
    var given: seq<Given>

    ghost function Now(): State
      reads this
    {
      State(operations, pendingFile, signedFile, emitted, signed, given)
    }

    method EmitPendingEvidence(id: string, issuedAt: int, fingerprint: Option<string>, locator: Option<int>)
      modifies this
      ensures Now() == Emit(old(Now()), id, issuedAt, fingerprint, locator)
    {
      if id !in operations || OriginOf(operations[id]).None? {
        return;
      }
      var op := operations[id];
      var p := Pending(op.id, op.operationId, op.version, OriginOf(op).value, issuedAt, fingerprint, locator);
      if !op.state.Reconciliation? || !ValidPending(p) || !Matches(p, operations) || pendingFile.Some? {
        return;
      }
      pendingFile := Some(PendingFile(p));
      emitted := emitted + {p};
    }

    method SignExistingPending(outcome: Outcome, privateKey: nat, pinned: nat)
      modifies this
      ensures Now() == Sign(old(Now()), outcome, privateKey, pinned)
    {
      if pendingFile.None? {
        return;
      }
      var loaded := LoadPending(pendingFile.value);
      if loaded.None? || !Matches(loaded.value, operations) {
        return;
      }
      var s := StatementOf(loaded.value, outcome);
      if s.None? {
        return;
      }
      var e := Evidence(s.value, Signature(privateKey, s.value));
      if !Verifies(pinned, e) || signedFile.Some? {
        return;
      }
      signedFile := Some(SignedFile(e));
      signed := signed + {s.value};
    }

    method ResolveSignedEvidence()
      modifies this
      ensures Now() == Resolve(old(Now()))
    {
      if signedFile.None? {
        return;
      }
      var loaded := LoadSigned(signedFile.value);
      if loaded.None? || loaded.value.statement.contractId !in operations {
        return;
      }
      var e := loaded.value;
      var op := operations[e.statement.contractId];
      var origin := OriginOf(op);
      if origin.None? || !Allowed(origin.value, e.statement.outcome) || !op.state.Reconciliation? {
        return;
      }
      given := given + [Given(e, origin.value)];
    }
  }
}
