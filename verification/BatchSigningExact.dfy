/** Exactly when a signing run approves, writes and finishes, on its inputs. */
module BatchSigningExact {
  import opened Options
  import opened Ordering
  import opened BatchSigning
  import opened BatchSigningProofs

  // ------------------------------------------------------------------- one item

  /** What signing needs: nothing is signed for `c` yet, and the preview found is
      for `c`, carries the approved digest, has the target posture, assurance and
      step, names the plan in force, and that plan is safe; the keys match. */
  predicate Signable(c: string, digest: string, look: Look, inbox: map<string, Authorization>) {
    && c !in inbox && look.appears.None? && look.races.None?
    && look.preview.Loaded?
    && look.preview.preview.capability == c && look.preview.preview.intentDigest == digest
    && look.preview.preview.posture == TARGET_POSTURE && look.preview.preview.assurance == TARGET_ASSURANCE
    && look.preview.preview.stepId == STEP_ID
    && look.plan.safe && look.plan.digest == look.preview.preview.planDigest
    && look.signer.privateKey == look.signer.publicKey
  }

  /** There is nothing to sign, or it is signed already. */
  predicate Skippable(c: string, look: Look, inbox: map<string, Authorization>) {
    look.preview.Absent? || c in inbox || look.appears.Some?
  }

  /** The authorization for an approved digest, under the plan and at the time
      found, valid for 30 minutes. */
  predicate AuthorizationFor(a: Authorization, digest: string, id: string, look: Look) {
    && a.payload.authorizationId == id
    && a.payload.planDigest == look.plan.digest
    && a.payload.executions == [Binding(STEP_ID, digest)]
    && a.payload.authorityId == look.signer.authorityId
    && a.payload.issuedAt == look.now && a.payload.expiresAt == look.now + 1800
    && a.proof == Proof(look.signer.privateKey, AuthorizationMessage(a.payload))
  }

  lemma OneExactly(c: string, look: Look, st: Store, digest: string, id: string)
    ensures var r := OneAuthorization(c, look, st, digest, id);
      && (r.Wrote? <==> Signable(c, digest, look, st.inbox))
      && (r.Skipped? <==> Skippable(c, look, st.inbox))
      && (r.Wrote? ==> c in r.store.inbox && r.store.inbox == st.inbox[c := r.store.inbox[c]] &&
                       AuthorizationFor(r.store.inbox[c], digest, id, look))
  {
  }

  // ------------------------------------------------------------- the signing loop

  predicate Passes(e: ManifestEntry, w: World, inbox: map<string, Authorization>) {
    var look := w.second(e.capability);
    Signable(e.capability, e.intentDigest, look, inbox) || Skippable(e.capability, look, inbox)
  }

  /** The loop signs an item exactly when it is signable and no item before it
      raises, and finishes exactly when none raises. */
  lemma {:induction false} SignAllExactly(entries: seq<ManifestEntry>, w: World, st: Store, i: nat)
    requires CapabilitiesDistinct(entries)
    ensures SignAll(entries, w, st).Completed? <==> forall j :: 0 <= j < |entries| ==> Passes(entries[j], w, st.inbox)
    ensures i < |entries| ==>
      (entries[i].capability in SignAll(entries, w, st).written <==>
        && Signable(entries[i].capability, entries[i].intentDigest, w.second(entries[i].capability), st.inbox)
        && forall j :: 0 <= j < i ==> Passes(entries[j], w, st.inbox))
    decreases entries
  {
    if entries != [] {
      var c, rest := entries[0].capability, entries[1..];
      var one := OneAuthorization(c, w.second(c), st, entries[0].intentDigest, w.ids(c));
      OneExactly(c, w.second(c), st, entries[0].intentDigest, w.ids(c));
      OneWrites(c, w.second(c), st, entries[0].intentDigest, w.ids(c));
      assert forall j :: 0 <= j < |rest| ==> rest[j] == entries[j + 1];
      if one.Threw? {
        assert !Passes(entries[0], w, st.inbox);
      } else {
        assert Passes(entries[0], w, st.inbox);
        SignAllExactly(rest, w, one.store, if i > 0 then i - 1 else 0);
        forall j | 0 <= j < |rest| ensures Passes(rest[j], w, one.store.inbox) <==> Passes(entries[j + 1], w, st.inbox) {
          assert rest[j].capability != c;
          assert rest[j].capability in one.store.inbox <==> rest[j].capability in st.inbox;
        }
        NotWrittenAgain(rest, w, one.store, c);
        LoopShifts(entries, w, st, one.store, i);
      }
    }
  }

  lemma {:induction false} NotWrittenAgain(entries: seq<ManifestEntry>, w: World, st: Store, c: string)
    requires forall j :: 0 <= j < |entries| ==> entries[j].capability != c
    ensures c !in SignAll(entries, w, st).written
    decreases entries
  {
    if entries != [] {
      var d := entries[0].capability;
      var one := OneAuthorization(d, w.second(d), st, entries[0].intentDigest, w.ids(d));
      if !one.Threw? {
        assert forall j :: 0 <= j < |entries[1..]| ==> entries[1..][j] == entries[j + 1];
        NotWrittenAgain(entries[1..], w, one.store, c);
      }
    }
  }

  /** What holds for the rest of the loop holds for it as part of the whole. */
  lemma LoopShifts(entries: seq<ManifestEntry>, w: World, st: Store, st': Store, i: nat)
    requires entries != [] && Passes(entries[0], w, st.inbox)
    requires forall j :: 0 <= j < |entries| - 1 ==>
      (Passes(entries[1..][j], w, st'.inbox) <==> Passes(entries[j + 1], w, st.inbox))
    ensures (forall j :: 0 <= j < |entries| ==> Passes(entries[j], w, st.inbox)) <==>
            forall j :: 0 <= j < |entries| - 1 ==> Passes(entries[1..][j], w, st'.inbox)
    ensures 0 < i < |entries| ==>
      ((forall j :: 0 <= j < i ==> Passes(entries[j], w, st.inbox)) <==>
        forall j :: 0 <= j < i - 1 ==> Passes(entries[1..][j], w, st'.inbox))
  {
    if forall j :: 0 <= j < |entries| - 1 ==> Passes(entries[1..][j], w, st'.inbox) {
      forall j | 0 <= j < |entries| ensures Passes(entries[j], w, st.inbox) {
        assert j > 0 ==> Passes(entries[1..][j - 1], w, st'.inbox);
      }
    }
    if 0 < i < |entries| && forall j :: 0 <= j < i - 1 ==> Passes(entries[1..][j], w, st'.inbox) {
      forall j | 0 <= j < i ensures Passes(entries[j], w, st.inbox) {
        assert j > 0 ==> Passes(entries[1..][j - 1], w, st'.inbox);
      }
    }
  }

  // ---------------------------------------------------------- before the prompt

  /** A preview is there, can be read, and nothing is signed for it. */
  predicate Collectable(c: string, look: Look, st: Store) {
    look.preview.Loaded? && c !in st.inbox && look.appears.None?
  }

  lemma {:induction false} GatherExactly(capabilities: seq<string>, looks: string -> Look, st: Store)
    ensures var g := Gather(capabilities, looks, st);
      && (g.Previews? <==> forall i :: 0 <= i < |capabilities| ==> Collectable(capabilities[i], looks(capabilities[i]), st))
      && (g.Previews? ==> g.store == st)
    decreases capabilities
  {
    if capabilities != [] {
      var c, rest := capabilities[0], capabilities[1..];
      assert forall i :: 0 <= i < |rest| ==> rest[i] == capabilities[i + 1];
      if Collectable(c, looks(c), st) {
        GatherExactly(rest, looks, st);
        if forall i :: 0 <= i < |rest| ==> Collectable(rest[i], looks(rest[i]), st) {
          forall i | 0 <= i < |capabilities| ensures Collectable(capabilities[i], looks(capabilities[i]), st) {
            assert i > 0 ==> Collectable(rest[i - 1], looks(rest[i - 1]), st);
          }
        }
      }
    }
  }

  function Shown(capabilities: seq<string>, w: World, i: nat): Preview
    requires i < |capabilities| && w.first(capabilities[i]).preview.Loaded?
  {
    w.first(capabilities[i]).preview.preview
  }

  /** What a batch needs before the owner is asked: explicit, distinct and
      registered capabilities, at most 200 of them, each with a preview that can be
      read and is not signed; previews for different capabilities, against one plan
      and target. */
  ghost predicate Reviewable(capabilities: seq<string>, w: World, st: Store) {
    && capabilities != [] && |capabilities| <= 200 && w.batchId != ""
    && (forall i, j :: 0 <= i < j < |capabilities| ==> capabilities[i] != capabilities[j])
    && (forall i :: 0 <= i < |capabilities| ==> capabilities[i] in w.registered)
    && (forall i :: 0 <= i < |capabilities| ==> Collectable(capabilities[i], w.first(capabilities[i]), st))
    && (forall i, j :: 0 <= i < j < |capabilities| ==>
          Shown(capabilities, w, i).capability != Shown(capabilities, w, j).capability)
    && (forall i :: 0 <= i < |capabilities| ==> SameTarget(Shown(capabilities, w, i), Shown(capabilities, w, 0)))
  }

  predicate SameTarget(a: Preview, b: Preview) {
    a.planDigest == b.planDigest && a.stepId == b.stepId && a.posture == b.posture && a.assurance == b.assurance
  }

  /** The random identifiers are different. */
  ghost predicate DifferentIds(capabilities: seq<string>, w: World)
    requires forall i :: 0 <= i < |capabilities| ==> w.first(capabilities[i]).preview.Loaded?
  {
    forall i, j :: 0 <= i < |capabilities| && 0 <= j < |capabilities| ==>
      DifferentId(w, Shown(capabilities, w, i).capability, Shown(capabilities, w, j).capability)
  }

  predicate DifferentId(w: World, c: string, d: string) {
    w.ids(c) == w.ids(d) ==> c == d
  }

  lemma ManifestExactly(previews: seq<Preview>, batchId: string)
    ensures BuildManifest(previews, batchId).Some? <==>
      && previews != [] && |previews| <= 200 && batchId != ""
      && (forall i, j :: 0 <= i < j < |previews| ==> previews[i].capability != previews[j].capability)
      && (forall i :: 0 <= i < |previews| ==> SameTarget(previews[i], previews[0]))
  {
    if forall i :: 0 <= i < |previews| ==> SameTarget(previews[i], previews[0]) {
      assert forall i :: 0 <= i < |previews| ==> Homogeneous(previews[i], previews[0]);
    }
    if previews != [] && forall i :: 0 <= i < |previews| ==> Homogeneous(previews[i], previews[0]) {
      assert forall i :: 0 <= i < |previews| ==> SameTarget(previews[i], previews[0]);
    }
  }

  lemma ReviewExactly(capabilities: seq<string>, w: World, st: Store)
    ensures Reviewable(capabilities, w, st) <==>
      && capabilities != [] && Distinct(capabilities)
      && (forall i :: 0 <= i < |capabilities| ==> capabilities[i] in w.registered)
      && Gather(capabilities, w.first, st).Previews?
      && BuildManifest(Gather(capabilities, w.first, st).previews, w.batchId).Some?
  {
    GatherExactly(capabilities, w.first, st);
    var g := Gather(capabilities, w.first, st);
    if g.Previews? {
      GatheredPreviews(capabilities, w.first, st);
      assert forall i :: 0 <= i < |capabilities| ==> Collectable(capabilities[i], w.first(capabilities[i]), st);
      assert forall i :: 0 <= i < |capabilities| ==> g.previews[i] == Shown(capabilities, w, i);
      ManifestExactly(g.previews, w.batchId);
    }
  }

  /** The payload of a manifest can be built exactly when its identifiers differ. */
  lemma PayloadExactly(m: Manifest, ids: string -> string, now: int)
    requires m.entries != [] && CapabilitiesDistinct(m.entries)
    requires forall i, j :: 0 <= i < j < |m.entries| ==> Less(m.entries[i].capability, m.entries[j].capability)
    ensures BuildPayload(m, ids, now).Some? <==>
      forall i, j :: 0 <= i < j < |m.entries| ==> ids(m.entries[i].capability) != ids(m.entries[j].capability)
  {
    var es := ApprovalEntries(m, ids);
    forall i, j | 0 <= i < j < |es| ensures AtMost(es[i].capability, es[j].capability) && es[i].capability != es[j].capability {
      NotBefore(m.entries[i].capability, m.entries[j].capability);
    }
    if forall i, j :: 0 <= i < j < |m.entries| ==> ids(m.entries[i].capability) != ids(m.entries[j].capability) {
      assert forall i, j :: 0 <= i < j < |es| ==> es[i].authorizationId != es[j].authorizationId;
    }
    if BuildPayload(m, ids, now).Some? {
      forall i, j | 0 <= i < j < |m.entries| ensures ids(m.entries[i].capability) != ids(m.entries[j].capability) {
        assert es[i].authorizationId != es[j].authorizationId;
      }
    }
  }

  // ------------------------------------------------------------------ a whole run

  /** The manifest of a reviewable batch, and where each preview is in it. */
  lemma ManifestOf(capabilities: seq<string>, w: World, st: Store) returns (m: Manifest)
    requires Reviewable(capabilities, w, st)
    ensures Gather(capabilities, w.first, st).Previews? && Gather(capabilities, w.first, st).store == st
    ensures BuildManifest(Gather(capabilities, w.first, st).previews, w.batchId) == Some(m)
    ensures m.batchId == w.batchId && m.entries != [] && CapabilitiesDistinct(m.entries)
    ensures forall i, j :: 0 <= i < j < |m.entries| ==> Less(m.entries[i].capability, m.entries[j].capability)
    ensures forall i :: 0 <= i < |m.entries| ==> IsShown(m.entries[i], capabilities, w)
    ensures forall k :: 0 <= k < |capabilities| ==> EntryOf(Shown(capabilities, w, k)) in m.entries
  {
    ReviewExactly(capabilities, w, st);
    GatherExactly(capabilities, w.first, st);
    GatheredPreviews(capabilities, w.first, st);
    var previews := Gather(capabilities, w.first, st).previews;
    m := BuildManifest(previews, w.batchId).value;
    ManifestOrdered(previews, w.batchId);
    ManifestLists(previews, w.batchId);
    forall i | 0 <= i < |m.entries| ensures IsShown(m.entries[i], capabilities, w) {
      assert FromPreview(m.entries[i], previews);
      var p :| p in previews && EntryOf(p) == m.entries[i];
      var k :| 0 <= k < |previews| && previews[k] == p;
      assert ShownAs(m.entries[i], capabilities, w, k);
    }
    forall k | 0 <= k < |capabilities| ensures EntryOf(Shown(capabilities, w, k)) in m.entries {
      assert previews[k] in previews;
    }
  }

  predicate ShownAs(e: ManifestEntry, capabilities: seq<string>, w: World, k: nat) {
    k < |capabilities| && w.first(capabilities[k]).preview.Loaded? && e == EntryOf(Shown(capabilities, w, k))
  }

  ghost predicate IsShown(e: ManifestEntry, capabilities: seq<string>, w: World) {
    exists k :: ShownAs(e, capabilities, w, k)
  }

  lemma IdsCorrespond(capabilities: seq<string>, w: World, st: Store, m: Manifest)
    requires Reviewable(capabilities, w, st) && CapabilitiesDistinct(m.entries)
    requires forall i :: 0 <= i < |m.entries| ==> IsShown(m.entries[i], capabilities, w)
    requires forall k :: 0 <= k < |capabilities| ==> EntryOf(Shown(capabilities, w, k)) in m.entries
    ensures DifferentIds(capabilities, w) <==>
      forall i, j :: 0 <= i < j < |m.entries| ==> w.ids(m.entries[i].capability) != w.ids(m.entries[j].capability)
  {
    if DifferentIds(capabilities, w) {
      forall i, j | 0 <= i < j < |m.entries| ensures w.ids(m.entries[i].capability) != w.ids(m.entries[j].capability) {
        assert IsShown(m.entries[i], capabilities, w) && IsShown(m.entries[j], capabilities, w);
        var k :| ShownAs(m.entries[i], capabilities, w, k);
        var l :| ShownAs(m.entries[j], capabilities, w, l);
        assert DifferentId(w, Shown(capabilities, w, k).capability, Shown(capabilities, w, l).capability);
      }
    }
    if forall i, j :: 0 <= i < j < |m.entries| ==> w.ids(m.entries[i].capability) != w.ids(m.entries[j].capability) {
      forall k, l | 0 <= k < |capabilities| && 0 <= l < |capabilities|
        ensures DifferentId(w, Shown(capabilities, w, k).capability, Shown(capabilities, w, l).capability)
      {
        var i :| 0 <= i < |m.entries| && m.entries[i] == EntryOf(Shown(capabilities, w, k));
        var j :| 0 <= j < |m.entries| && m.entries[j] == EntryOf(Shown(capabilities, w, l));
        assert w.ids(m.entries[i].capability) == w.ids(m.entries[j].capability) ==> i == j;
      }
    }
  }

  /** A run signs an approval exactly when the batch can be reviewed, the owner
      says yes, and the identifiers drawn are different; it is declined exactly when
      the owner does not. */
  lemma ApprovedExactly(capabilities: seq<string>, w: World, st: Store)
    ensures BatchRun(capabilities, w, st).approval.Some? <==>
            w.yes && Reviewable(capabilities, w, st) && DifferentIds(capabilities, w)
    ensures BatchRun(capabilities, w, st).verdict.Declined? <==> !w.yes && Reviewable(capabilities, w, st)
  {
    ReviewExactly(capabilities, w, st);
    if Reviewable(capabilities, w, st) {
      var m := ManifestOf(capabilities, w, st);
      PayloadExactly(m, w.ids, w.now);
      IdsCorrespond(capabilities, w, st, m);
    }
  }

  /** What the approval states besides its entries. */
  lemma ApprovalStates(capabilities: seq<string>, w: World, st: Store)
    requires BatchRun(capabilities, w, st).approval.Some?
    ensures Reviewable(capabilities, w, st)
    ensures var a := BatchRun(capabilities, w, st).approval.value; var shown := Shown(capabilities, w, 0);
      && a.payload.batchId == w.batchId && a.payload.manifestDigest.batchId == w.batchId
      && |a.payload.entries| == |capabilities| && |a.payload.manifestDigest.entries| == |capabilities|
      && a.payload.planDigest == shown.planDigest && a.payload.stepId == shown.stepId
      && a.payload.posture == shown.posture && a.payload.assurance == shown.assurance
      && a.payload.issuedAt == w.now && a.payload.expiresAt == w.now + 1800
      && a.authorityId == w.signer.authorityId && a.proof == Proof(w.signer.privateKey, ApprovalMessage(a.payload))
  {
    ApprovedExactly(capabilities, w, st);
    var m := ManifestOf(capabilities, w, st);
    GatheredPreviews(capabilities, w.first, st);
    ManifestOrdered(Gather(capabilities, w.first, st).previews, w.batchId);
  }

  /** The item of the k-th capability. */
  predicate ItemSignable(capabilities: seq<string>, w: World, st: Store, k: nat)
    requires k < |capabilities| && w.first(capabilities[k]).preview.Loaded?
  {
    var p := Shown(capabilities, w, k);
    Signable(p.capability, p.intentDigest, w.second(p.capability), st.inbox)
  }

  predicate ItemPasses(capabilities: seq<string>, w: World, st: Store, k: nat)
    requires k < |capabilities| && w.first(capabilities[k]).preview.Loaded?
  {
    ItemSignable(capabilities, w, st, k) ||
    var c := Shown(capabilities, w, k).capability;
    Skippable(c, w.second(c), st.inbox)
  }

  /** After the "yes" a run finishes exactly when its approval can be written, the
      plan's evidence can be read, and no item raises. It writes an item exactly
      when, as far as that, the item is signable and no capability before it in
      order raises; and then it writes just the authorization for what was shown. */
  lemma WrittenExactly(capabilities: seq<string>, w: World, st: Store, k: nat)
    requires BatchRun(capabilities, w, st).approval.Some? && k < |capabilities|
    ensures Reviewable(capabilities, w, st)
    ensures var e := BatchRun(capabilities, w, st); var p := Shown(capabilities, w, k);
      && (p.capability in e.written <==>
            && w.batchId !in st.approvals && w.discoveryWorks && ItemSignable(capabilities, w, st, k)
            && forall l :: 0 <= l < |capabilities| && Less(Shown(capabilities, w, l).capability, p.capability) ==>
                 ItemPasses(capabilities, w, st, l))
  {
    ApprovedExactly(capabilities, w, st);
    var m := ManifestOf(capabilities, w, st);
    var p := Shown(capabilities, w, k);
    var i :| 0 <= i < |m.entries| && m.entries[i] == EntryOf(p);
    var signed := st.(approvals := st.approvals[m.batchId := BatchRun(capabilities, w, st).approval.value]);
    RunSigns(capabilities, w, st, m);
    SignAllExactly(m.entries, w, signed, i);
    EarlierItems(capabilities, w, st, m, i, k);
  }

  lemma FinishedExactly(capabilities: seq<string>, w: World, st: Store)
    requires BatchRun(capabilities, w, st).approval.Some?
    ensures Reviewable(capabilities, w, st)
    ensures BatchRun(capabilities, w, st).verdict.Finished? <==>
      && w.batchId !in st.approvals && w.discoveryWorks
      && forall k :: 0 <= k < |capabilities| ==> ItemPasses(capabilities, w, st, k)
  {
    ApprovedExactly(capabilities, w, st);
    var m := ManifestOf(capabilities, w, st);
    var signed := st.(approvals := st.approvals[m.batchId := BatchRun(capabilities, w, st).approval.value]);
    RunSigns(capabilities, w, st, m);
    SignAllExactly(m.entries, w, signed, 0);
    forall k | 0 <= k < |capabilities|
      ensures Passes(EntryOf(Shown(capabilities, w, k)), w, st.inbox) <==> ItemPasses(capabilities, w, st, k)
    {
    }
    if forall k :: 0 <= k < |capabilities| ==> ItemPasses(capabilities, w, st, k) {
      forall j | 0 <= j < |m.entries| ensures Passes(m.entries[j], w, st.inbox) {
        assert IsShown(m.entries[j], capabilities, w);
        var l :| ShownAs(m.entries[j], capabilities, w, l);
      }
    }
  }

  /** After the "yes" the run writes its approval and starts the loop. */
  lemma RunSigns(capabilities: seq<string>, w: World, st: Store, m: Manifest)
    requires BatchRun(capabilities, w, st).approval.Some?
    requires Gather(capabilities, w.first, st).Previews? && Gather(capabilities, w.first, st).store == st
    requires BuildManifest(Gather(capabilities, w.first, st).previews, w.batchId) == Some(m)
    ensures var e := BatchRun(capabilities, w, st);
      var s := SignAll(m.entries, w, st.(approvals := st.approvals[m.batchId := e.approval.value]));
      if m.batchId in st.approvals || !w.discoveryWorks then e.verdict.Raised? && e.written == []
      else e.written == s.written && (e.verdict.Finished? <==> s.Completed?) && e.store == s.store
  {
  }

  lemma EarlierItems(capabilities: seq<string>, w: World, st: Store, m: Manifest, i: nat, k: nat)
    requires Reviewable(capabilities, w, st) && k < |capabilities| && i < |m.entries|
    requires m.entries[i] == EntryOf(Shown(capabilities, w, k))
    requires forall i, j :: 0 <= i < j < |m.entries| ==> Less(m.entries[i].capability, m.entries[j].capability)
    requires forall i :: 0 <= i < |m.entries| ==> IsShown(m.entries[i], capabilities, w)
    requires forall k :: 0 <= k < |capabilities| ==> EntryOf(Shown(capabilities, w, k)) in m.entries
    ensures (forall j :: 0 <= j < i ==> Passes(m.entries[j], w, st.inbox)) <==>
            forall l :: 0 <= l < |capabilities| && Less(Shown(capabilities, w, l).capability, Shown(capabilities, w, k).capability) ==>
              ItemPasses(capabilities, w, st, l)
  {
    var c := Shown(capabilities, w, k).capability;
    if forall j :: 0 <= j < i ==> Passes(m.entries[j], w, st.inbox) {
      forall l | 0 <= l < |capabilities| && Less(Shown(capabilities, w, l).capability, c) ensures ItemPasses(capabilities, w, st, l) {
        var j :| 0 <= j < |m.entries| && m.entries[j] == EntryOf(Shown(capabilities, w, l));
        BeforeInOrder(m.entries, i, j);
        assert Passes(m.entries[j], w, st.inbox);
      }
    }
    if forall l :: 0 <= l < |capabilities| && Less(Shown(capabilities, w, l).capability, c) ==> ItemPasses(capabilities, w, st, l) {
      forall j | 0 <= j < i ensures Passes(m.entries[j], w, st.inbox) {
        assert IsShown(m.entries[j], capabilities, w);
        var l :| ShownAs(m.entries[j], capabilities, w, l);
        assert Less(m.entries[j].capability, m.entries[i].capability);
      }
    }
  }

  lemma BeforeInOrder(entries: seq<ManifestEntry>, i: nat, j: nat)
    requires i < |entries| && j < |entries|
    requires forall i, j :: 0 <= i < j < |entries| ==> Less(entries[i].capability, entries[j].capability)
    requires Less(entries[j].capability, entries[i].capability)
    ensures j < i
  {
    LessIrreflexive(entries[i].capability);
    if i < j {
      NotBefore(entries[j].capability, entries[i].capability);
    }
  }

  /** Every authorization a run writes: the preview it was signed from is for that
      capability and has the target posture, assurance and step, its plan is safe
      and the one the preview names, and it is valid for 30 minutes from then. */
  lemma SignedAsRequired(capabilities: seq<string>, w: World, st: Store, c: string)
    requires c in BatchRun(capabilities, w, st).written
    ensures var e := BatchRun(capabilities, w, st); var look := w.second(c);
      && look.preview.Loaded? && look.preview.preview.capability == c
      && look.preview.preview.posture == "write_protected" && look.preview.preview.assurance == "hardware_witness"
      && look.preview.preview.stepId == "capability_posture.milestone_9_activation"
      && look.plan.safe && look.plan.digest == look.preview.preview.planDigest
      && c in e.store.inbox
      && AuthorizationFor(e.store.inbox[c], look.preview.preview.intentDigest, w.ids(c), look)
  {
    var g := Gather(capabilities, w.first, st);
    ManifestOrdered(g.previews, w.batchId);
    var m := BuildManifest(g.previews, w.batchId).value;
    var e := BatchRun(capabilities, w, st);
    SignedContent(m.entries, w, g.store.(approvals := g.store.approvals[m.batchId := e.approval.value]), c);
  }

  lemma {:induction false} SignedContent(entries: seq<ManifestEntry>, w: World, st: Store, c: string)
    requires CapabilitiesDistinct(entries) && c in SignAll(entries, w, st).written
    ensures var s := SignAll(entries, w, st); var look := w.second(c);
      && c in s.store.inbox && look.preview.Loaded?
      && Signable(c, look.preview.preview.intentDigest, look, st.inbox)
      && AuthorizationFor(s.store.inbox[c], look.preview.preview.intentDigest, w.ids(c), look)
    decreases entries
  {
    var d, rest := entries[0].capability, entries[1..];
    var one := OneAuthorization(d, w.second(d), st, entries[0].intentDigest, w.ids(d));
    OneExactly(d, w.second(d), st, entries[0].intentDigest, w.ids(d));
    OneWrites(d, w.second(d), st, entries[0].intentDigest, w.ids(d));
    assert forall j :: 0 <= j < |rest| ==> rest[j] == entries[j + 1];
    SignAllWrites(rest, w, one.store);
    NotWrittenAgain(rest, w, one.store, d);
    if c != d {
      SignedContent(rest, w, one.store, c);
    }
  }
}
