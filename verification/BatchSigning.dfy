/** The batch signing ceremony (signing/write_batch1_signing.py,
    signing/shape_a_batch_owner_approval.py and the manifest it signs,
    src/pfsense_mcp/tier1/shape_a_batch_manifest.py). */
module BatchSigning {
  import opened Options
  import opened Ordering

  // ------------------------------------------------------------------ artifacts

  datatype Preview = Preview(
    capability: string,
    fields: seq<(string, string)>,
    intentDigest: string,
    planDigest: string,
    stepId: string,
    posture: string,
    assurance: string)

  datatype ManifestEntry = ManifestEntry(capability: string, intentDigest: string, fields: seq<(string, string)>)

  datatype Manifest = Manifest(
    batchId: string,
    entries: seq<ManifestEntry>,
    planDigest: string,
    stepId: string,
    posture: string,
    assurance: string)

  datatype Entry = Entry(capability: string, intentDigest: string, authorizationId: string)

  /** What the owner's approval signs. An ideal digest identifies its manifest,
      so the manifest stands for its own digest. */
  datatype ApprovalPayload = ApprovalPayload(
    batchId: string,
    manifestDigest: Manifest,
    planDigest: string,
    stepId: string,
    posture: string,
    assurance: string,
    entries: seq<Entry>,
    issuedAt: int,
    expiresAt: int)

  datatype Binding = Binding(stepId: string, intentDigest: string)

  datatype AuthorizationPayload = AuthorizationPayload(
    authorizationId: string,
    planDigest: string,
    executions: seq<Binding>,
    authorityId: string,
    issuedAt: int,
    expiresAt: int)

  /** The two kinds of signed message never coincide (domain separation). */
  datatype Message = ApprovalMessage(approval: ApprovalPayload) | AuthorizationMessage(authorization: AuthorizationPayload)

  /** An ideal signature: it determines the key and the message. */
  datatype Proof = Proof(key: nat, message: Message)

  /** The approval's signed bytes do not cover `authorityId`. */
  datatype Approval = Approval(payload: ApprovalPayload, authorityId: string, proof: Proof)

  datatype Authorization = Authorization(payload: AuthorizationPayload, proof: Proof)

  /** Authority file and private key file, as configured. */
  datatype Signer = Signer(authorityId: string, publicKey: nat, privateKey: nat)

  const TARGET_POSTURE: string := "write_protected"
  const TARGET_ASSURANCE: string := "hardware_witness"
  const STEP_ID: string := "capability_posture.milestone_9_activation"
  const MAX_BATCH_SIZE: nat := 200
  const BATCH_VALIDITY: int := 1800

  predicate Verifies(authorities: map<string, nat>, authorityId: string, message: Message, proof: Proof) {
    authorityId in authorities && proof == Proof(authorities[authorityId], message)
  }

  // ---------------------------------------------------------------- environment

  /** The two write-once directories. */
  datatype Store = Store(inbox: map<string, Authorization>, approvals: map<string, Approval>)

  datatype PreviewFile = Absent | Unreadable | Loaded(preview: Preview)

  datatype Plan = Plan(digest: string, safe: bool)

  /** Everything the environment decides while the tool deals with one
      capability: the preview file in its directory, the security plan derived for
      it, the key and authority files read for it, the time, and a signed
      authorization that someone else drops before the tool checks for one, or
      between the check and its own write. The plan is derived for each item from
      the store; when the tool works from an exported snapshot instead, all items
      get the same one. */
  datatype Look = Look(
    preview: PreviewFile,
    plan: Plan,
    signer: Signer,
    now: int,
    appears: Option<Authorization>,
    races: Option<Authorization>)

  /** One run's environment: what each capability looks like before the prompt
      and, independently, after the "yes"; the answer; the random identifiers. */
  datatype World = World(
    registered: set<string>,
    first: string -> Look,
    second: string -> Look,
    yes: bool,
    batchId: string,
    ids: string -> string,
    now: int,
    signer: Signer,
    discoveryWorks: bool)

  function Arrive(st: Store, c: string, a: Option<Authorization>): Store {
    if a.Some? && c !in st.inbox then st.(inbox := st.inbox[c := a.value]) else st
  }

  // ------------------------------------------------------------ before the prompt

  datatype Gathered = Previews(previews: seq<Preview>, store: Store) | Stopped(store: Store)

  function Gather(capabilities: seq<string>, looks: string -> Look, st: Store): Gathered
    decreases capabilities
  {
    if capabilities == [] then Previews([], st)
    else
      var c := capabilities[0];
      var look := looks(c);
      if look.preview.Absent? then Stopped(st)
      else
        var st' := Arrive(st, c, look.appears);
        if c in st'.inbox || look.preview.Unreadable? then Stopped(st')
        else
          match Gather(capabilities[1..], looks, st')
          case Stopped(st'') => Stopped(st'')
          case Previews(rest, st'') => Previews([look.preview.preview] + rest, st'')
  }

  predicate Distinct(xs: seq<string>) {
    forall i, j :: 0 <= i < j < |xs| ==> xs[i] != xs[j]
  }

  function Symbol(p: Preview): string {
    p.capability
  }

  predicate Homogeneous(a: Preview, b: Preview) {
    a.planDigest == b.planDigest && a.stepId == b.stepId && a.posture == b.posture && a.assurance == b.assurance
  }

  function EntryOf(p: Preview): ManifestEntry {
    ManifestEntry(p.capability, p.intentDigest, p.fields)
  }

  function BuildManifest(previews: seq<Preview>, batchId: string): Option<Manifest> {
    if previews == [] || |previews| > MAX_BATCH_SIZE || batchId == "" then None
    else if !(forall i, j :: 0 <= i < j < |previews| ==> previews[i].capability != previews[j].capability) then None
    else if !(forall i :: 0 <= i < |previews| ==> Homogeneous(previews[i], previews[0])) then None
    else
      var ordered := Sort(previews, Symbol);
      Some(Manifest(
             batchId,
             seq(|ordered|, i requires 0 <= i < |ordered| => EntryOf(ordered[i])),
             previews[0].planDigest, previews[0].stepId, previews[0].posture, previews[0].assurance))
  }

  // -------------------------------------------------------------- the approval

  function ApprovalEntries(m: Manifest, ids: string -> string): (es: seq<Entry>)
    ensures |es| == |m.entries|
    ensures forall i :: 0 <= i < |es| ==>
      es[i] == Entry(m.entries[i].capability, m.entries[i].intentDigest, ids(m.entries[i].capability))
  {
    seq(|m.entries|, i requires 0 <= i < |m.entries| =>
      Entry(m.entries[i].capability, m.entries[i].intentDigest, ids(m.entries[i].capability)))
  }

  /** The checks every payload passes when it is constructed. */
  predicate ValidPayload(p: ApprovalPayload) {
    && p.entries != []
    && (forall i, j :: 0 <= i < j < |p.entries| ==> p.entries[i].capability != p.entries[j].capability)
    && (forall i, j :: 0 <= i < j < |p.entries| ==> p.entries[i].authorizationId != p.entries[j].authorizationId)
    && (forall i, j :: 0 <= i < j < |p.entries| ==> AtMost(p.entries[i].capability, p.entries[j].capability))
    && p.issuedAt < p.expiresAt
  }

  function BuildPayload(m: Manifest, ids: string -> string, now: int): Option<ApprovalPayload> {
    var p := ApprovalPayload(
      m.batchId, m, m.planDigest, m.stepId, m.posture, m.assurance, ApprovalEntries(m, ids), now, now + BATCH_VALIDITY);
    if ValidPayload(p) then Some(p) else None
  }

  function SignApproval(p: ApprovalPayload, signer: Signer): Approval {
    Approval(p, signer.authorityId, Proof(signer.privateKey, ApprovalMessage(p)))
  }

  // --------------------------------------------------------- one authorization

  /** Refuses unless the preview is for this capability, has the supported
      target, and the plan derived now is safe and the one the preview names;
      and unless the new signature verifies against the authority file. */
  function SignPreview(c: string, p: Preview, plan: Plan, signer: Signer, id: string, now: int): Option<Authorization> {
    if p.capability != c || p.posture != TARGET_POSTURE || p.assurance != TARGET_ASSURANCE || p.stepId != STEP_ID then None
    else if !plan.safe || plan.digest != p.planDigest then None
    else
      var payload := AuthorizationPayload(
        id, plan.digest, [Binding(STEP_ID, p.intentDigest)], signer.authorityId, now, now + BATCH_VALIDITY);
      var proof := Proof(signer.privateKey, AuthorizationMessage(payload));
      if Verifies(map[signer.authorityId := signer.publicKey], signer.authorityId, AuthorizationMessage(payload), proof)
      then Some(Authorization(payload, proof))
      else None
  }

  datatype One = Skipped(store: Store) | Wrote(store: Store) | Threw(store: Store)

  function OneAuthorization(c: string, look: Look, st: Store, expected: string, id: string): One {
    if look.preview.Absent? then Skipped(st)
    else
      var st1 := Arrive(st, c, look.appears);
      if c in st1.inbox then Skipped(st1)
      else if look.preview.Unreadable? then Threw(st1)
      else
        var p := look.preview.preview;
        if p.intentDigest != expected then Threw(st1)
        else
          match SignPreview(c, p, look.plan, look.signer, id, look.now)
          case None => Threw(st1)
          case Some(a) =>
            var st2 := Arrive(st1, c, look.races);
            if c in st2.inbox then Threw(st2) else Wrote(st2.(inbox := st2.inbox[c := a]))
  }

  datatype Signed = Completed(store: Store, written: seq<string>) | Aborted(store: Store, written: seq<string>)

  function SignAll(entries: seq<ManifestEntry>, w: World, st: Store): Signed
    decreases entries
  {
    if entries == [] then Completed(st, [])
    else
      var c := entries[0].capability;
      match OneAuthorization(c, w.second(c), st, entries[0].intentDigest, w.ids(c))
      case Threw(st') => Aborted(st', [])
      case Skipped(st') => SignAll(entries[1..], w, st')
      case Wrote(st') =>
        match SignAll(entries[1..], w, st')
        case Completed(st'', written) => Completed(st'', [c] + written)
        case Aborted(st'', written) => Aborted(st'', [c] + written)
  }

  // ------------------------------------------------------------------- a whole run

  datatype Verdict = Finished | Declined | Raised

  /** How a run ends: `approval` is the owner approval it signed, if any, and
      `written` the capabilities whose authorization it wrote. */
  datatype Effect = Effect(verdict: Verdict, store: Store, approval: Option<Approval>, written: seq<string>)

  function BatchRun(capabilities: seq<string>, w: World, st: Store): Effect {
    if capabilities == [] || !Distinct(capabilities) || !(forall i :: 0 <= i < |capabilities| ==> capabilities[i] in w.registered)
    then Effect(Raised, st, None, [])
    else
      match Gather(capabilities, w.first, st)
      case Stopped(st') => Effect(Raised, st', None, [])
      case Previews(previews, st') =>
        match BuildManifest(previews, w.batchId)
        case None => Effect(Raised, st', None, [])
        case Some(m) =>
          if !w.yes then Effect(Declined, st', None, [])
          else
            match BuildPayload(m, w.ids, w.now)
            case None => Effect(Raised, st', None, [])
            case Some(payload) => AfterYes(m, payload, w, st')
  }

  function AfterYes(m: Manifest, payload: ApprovalPayload, w: World, st: Store): Effect {
    var approval := SignApproval(payload, w.signer);
    if m.batchId in st.approvals then Effect(Raised, st, Some(approval), [])
    else
      var st' := st.(approvals := st.approvals[m.batchId := approval]);
      if !w.discoveryWorks then Effect(Raised, st', Some(approval), [])
      else
        match SignAll(m.entries, w, st')
        case Completed(st'', written) => Effect(Finished, st'', Some(approval), written)
        case Aborted(st'', written) => Effect(Raised, st'', Some(approval), written)
  }
}
