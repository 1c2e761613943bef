/** What a signing run, and any sequence of runs, guarantees. */
module BatchSigningProofs {
  import opened Options
  import opened Ordering
  import opened BatchSigning

  // -------------------------------------------------------------- the manifest

  lemma SortMembers<T(!new)>(xs: seq<T>, key: T -> string)
    ensures forall x :: x in Sort(xs, key) <==> x in xs
    ensures |Sort(xs, key)| == |xs|
  {
    forall x ensures x in Sort(xs, key) <==> x in xs {
      SameMembers(Sort(xs, key), xs, x);
    }
    assert |multiset(Sort(xs, key))| == |Sort(xs, key)| && |multiset(xs)| == |xs|;
  }

  /** The manifest names each capability once, in strictly increasing order. */
  lemma ManifestOrdered(previews: seq<Preview>, batchId: string)
    requires BuildManifest(previews, batchId).Some?
    ensures var m := BuildManifest(previews, batchId).value;
      && m.batchId == batchId && |m.entries| == |previews|
      && (forall i, j :: 0 <= i < j < |m.entries| ==> Less(m.entries[i].capability, m.entries[j].capability))
      && CapabilitiesDistinct(m.entries)
  {
    SortMembers(previews, Symbol);
    SortDistinct(previews, Symbol);
    var ordered := Sort(previews, Symbol);
    var m := BuildManifest(previews, batchId).value;
    forall i, j | 0 <= i < j < |m.entries|
      ensures Less(m.entries[i].capability, m.entries[j].capability) && m.entries[i].capability != m.entries[j].capability
    {
      assert Less(Symbol(ordered[i]), Symbol(ordered[j])) && Symbol(ordered[i]) != Symbol(ordered[j]);
    }
  }

  /** `e` is the entry of one of the previews. */
  ghost predicate FromPreview(e: ManifestEntry, previews: seq<Preview>) {
    exists p :: p in previews && EntryOf(p) == e
  }

  /** The manifest lists exactly the reviewed previews, all against one plan. */
  lemma ManifestLists(previews: seq<Preview>, batchId: string)
    requires BuildManifest(previews, batchId).Some?
    ensures var m := BuildManifest(previews, batchId).value;
      && (forall i :: 0 <= i < |m.entries| ==> FromPreview(m.entries[i], previews))
      && (forall p :: p in previews ==> EntryOf(p) in m.entries && p.planDigest == m.planDigest)
  {
    var ordered := Sort(previews, Symbol);
    var m := BuildManifest(previews, batchId).value;
    SortMembers(previews, Symbol);
    forall i | 0 <= i < |m.entries| ensures FromPreview(m.entries[i], previews) {
      assert ordered[i] in previews && EntryOf(ordered[i]) == m.entries[i];
    }
    forall p | p in previews ensures EntryOf(p) in m.entries && p.planDigest == m.planDigest {
      var i :| 0 <= i < |ordered| && ordered[i] == p;
      assert m.entries[i] == EntryOf(p);
      var k :| 0 <= k < |previews| && previews[k] == p;
      assert Homogeneous(previews[k], previews[0]);
    }
  }

  /** The order in which the capabilities are named makes no difference. */
  lemma ManifestOrderFree(xs: seq<Preview>, ys: seq<Preview>, batchId: string)
    requires multiset(xs) == multiset(ys) && BuildManifest(xs, batchId).Some?
    ensures BuildManifest(ys, batchId) == BuildManifest(xs, batchId)
  {
    assert |multiset(xs)| == |xs| && |multiset(ys)| == |ys|;
    forall p ensures p in xs <==> p in ys {
      SameMembers(xs, ys, p);
    }
    assert KeyIdentifies(xs, Symbol);
    SortPermuted(xs, ys, Symbol);
    SortDistinctBack(xs, ys);
    forall i | 0 <= i < |ys| ensures Homogeneous(ys[i], ys[0]) && Homogeneous(ys[0], xs[0]) {
      assert ys[i] in xs && ys[0] in xs;
    }
  }

  /** A permutation of distinct keys has distinct keys. */
  lemma SortDistinctBack(xs: seq<Preview>, ys: seq<Preview>)
    requires multiset(xs) == multiset(ys) && DistinctKeys(xs, Symbol)
    ensures DistinctKeys(ys, Symbol)
  {
    forall i, j | 0 <= i < j < |ys| ensures Symbol(ys[i]) != Symbol(ys[j]) {
      if Symbol(ys[i]) == Symbol(ys[j]) {
        SameMembers(xs, ys, ys[i]);
        SameMembers(xs, ys, ys[j]);
        assert ys[i] == ys[j];
        assert ys == ys[..i] + [ys[i]] + ys[i + 1..j] + [ys[j]] + ys[j + 1..];
        assert multiset(ys)[ys[i]] >= 2;
        OnceInDistinct(xs, ys[i]);
      }
    }
  }

  lemma {:induction false} OnceInDistinct(xs: seq<Preview>, p: Preview)
    requires DistinctKeys(xs, Symbol)
    ensures multiset(xs)[p] <= 1
  {
    if xs != [] {
      assert xs == [xs[0]] + xs[1..];
      OnceInDistinct(xs[1..], p);
      if xs[0] == p {
        assert forall k :: 0 <= k < |xs[1..]| ==> Symbol(xs[1..][k]) != Symbol(p);
      }
    }
  }

  // ------------------------------------------------------------- growing stores

  ghost predicate Kept<V(!new)>(before: map<string, V>, after: map<string, V>) {
    forall k :: k in before ==> k in after && after[k] == before[k]
  }

  ghost predicate StoreKept(before: Store, after: Store) {
    Kept(before.inbox, after.inbox) && Kept(before.approvals, after.approvals)
  }

  lemma {:induction false} GatherWritesNothing(capabilities: seq<string>, looks: string -> Look, st: Store)
    ensures var st' := Gather(capabilities, looks, st).store;
      && Kept(st.inbox, st'.inbox) && st'.approvals == st.approvals
      && (forall c :: c in st'.inbox && c !in st.inbox ==> looks(c).appears == Some(st'.inbox[c]))
    decreases capabilities
  {
    if capabilities != [] {
      var c := capabilities[0];
      var st' := Arrive(st, c, looks(c).appears);
      GatherWritesNothing(capabilities[1..], looks, st');
    }
  }

  lemma {:induction false} GatheredPreviews(capabilities: seq<string>, looks: string -> Look, st: Store)
    requires Gather(capabilities, looks, st).Previews?
    ensures var ps := Gather(capabilities, looks, st).previews;
      |ps| == |capabilities| && forall i :: 0 <= i < |ps| ==> looks(capabilities[i]).preview == Loaded(ps[i])
    decreases capabilities
  {
    if capabilities != [] {
      var st' := Arrive(st, capabilities[0], looks(capabilities[0]).appears);
      GatheredPreviews(capabilities[1..], looks, st');
    }
  }

  // ---------------------------------------------------------------- signing them

  /** `a` is the authorization of an approved entry: its identifier, and exactly
      its execution digest. */
  ghost predicate Carries(a: Authorization, intentDigest: string, id: string, look: Look) {
    && a.payload.planDigest == look.plan.digest
    && a.payload.authorizationId == id
    && a.payload.executions == [Binding(STEP_ID, intentDigest)]
    && a.payload.authorityId == look.signer.authorityId
    && a.proof == Proof(look.signer.publicKey, AuthorizationMessage(a.payload))
  }

  lemma OneWrites(c: string, look: Look, st: Store, expected: string, id: string)
    ensures var r := OneAuthorization(c, look, st, expected, id);
      && Kept(st.inbox, r.store.inbox) && r.store.approvals == st.approvals
      && (forall d :: d in r.store.inbox && d != c ==> d in st.inbox)
      && (r.Wrote? ==> c in r.store.inbox && c !in st.inbox && Carries(r.store.inbox[c], expected, id, look))
      && (!r.Wrote? && c in r.store.inbox && c !in st.inbox ==>
            Some(r.store.inbox[c]) == look.appears || Some(r.store.inbox[c]) == look.races)
  {
  }

  ghost predicate CapabilitiesDistinct(entries: seq<ManifestEntry>) {
    forall i, j :: 0 <= i < j < |entries| ==> entries[i].capability != entries[j].capability
  }

  /** `a` carries what some entry for `c` was approved with. */
  ghost predicate CarriesEntry(a: Authorization, c: string, entries: seq<ManifestEntry>, w: World) {
    exists i :: 0 <= i < |entries| && entries[i].capability == c && Carries(a, entries[i].intentDigest, w.ids(c), w.second(c))
  }

  lemma {:induction false} SignAllWrites(entries: seq<ManifestEntry>, w: World, st: Store)
    requires CapabilitiesDistinct(entries)
    ensures var r := SignAll(entries, w, st);
      && Kept(st.inbox, r.store.inbox) && r.store.approvals == st.approvals
      && (forall c :: c in r.written ==> c in r.store.inbox && c !in st.inbox && CarriesEntry(r.store.inbox[c], c, entries, w))
      && (forall c :: c in r.store.inbox && c !in st.inbox ==>
            c in r.written || Some(r.store.inbox[c]) == w.second(c).appears || Some(r.store.inbox[c]) == w.second(c).races)
    decreases entries
  {
    if entries != [] {
      var c := entries[0].capability;
      var one := OneAuthorization(c, w.second(c), st, entries[0].intentDigest, w.ids(c));
      OneWrites(c, w.second(c), st, entries[0].intentDigest, w.ids(c));
      if !one.Threw? {
        SignAllWrites(entries[1..], w, one.store);
        var rest := SignAll(entries[1..], w, one.store);
        forall d | d in rest.written ensures CarriesEntry(rest.store.inbox[d], d, entries, w) {
          var i :| 0 <= i < |entries[1..]| && entries[1..][i].capability == d &&
                   Carries(rest.store.inbox[d], entries[1..][i].intentDigest, w.ids(d), w.second(d));
          assert entries[i + 1] == entries[1..][i];
        }
      }
    }
  }

  // --------------------------------------------------------------- one whole run

  /** A run refused before or at the prompt writes nothing: whatever is new in
      the store was put there by someone else. */
  lemma RefusedRunWritesNothing(capabilities: seq<string>, w: World, st: Store)
    requires var e := BatchRun(capabilities, w, st); e.verdict.Declined? || e.approval.None?
    ensures var e := BatchRun(capabilities, w, st);
      && e.approval.None? && e.written == [] && e.store.approvals == st.approvals && Kept(st.inbox, e.store.inbox)
      && (forall c :: c in e.store.inbox && c !in st.inbox ==> w.first(c).appears == Some(e.store.inbox[c]))
  {
    GatherWritesNothing(capabilities, w.first, st);
  }

  /** The approval's entry for a capability. */
  ghost predicate Commits(p: ApprovalPayload, c: string, intentDigest: string, id: string) {
    exists i :: 0 <= i < |p.entries| && p.entries[i] == Entry(c, intentDigest, id)
  }

  ghost predicate CommittedTo(a: Authorization, p: ApprovalPayload, c: string) {
    && |a.payload.executions| == 1
    && a.payload.executions[0].stepId == STEP_ID
    && Commits(p, c, a.payload.executions[0].intentDigest, a.payload.authorizationId)
  }

  /** Whatever the environment did after the "yes": the approval was written
      first, and every authorization written carries exactly the identifier and
      the execution digest that approval commits to for its capability. */
  lemma WrittenAsApproved(capabilities: seq<string>, w: World, st: Store)
    ensures var e := BatchRun(capabilities, w, st);
      e.written != [] ==>
        && e.approval.Some? && ValidPayload(e.approval.value.payload)
        && e.approval.value.proof == Proof(w.signer.privateKey, ApprovalMessage(e.approval.value.payload))
        && w.batchId in e.store.approvals && e.store.approvals[w.batchId] == e.approval.value && w.batchId !in st.approvals
        && (forall c :: c in e.written ==>
              c in e.store.inbox && c !in st.inbox && CommittedTo(e.store.inbox[c], e.approval.value.payload, c))
  {
    var e := BatchRun(capabilities, w, st);
    if e.written != [] {
      GatherWritesNothing(capabilities, w.first, st);
      var g := Gather(capabilities, w.first, st);
      ManifestOrdered(g.previews, w.batchId);
      var m := BuildManifest(g.previews, w.batchId).value;
      var payload := BuildPayload(m, w.ids, w.now).value;
      var st' := g.store.(approvals := g.store.approvals[m.batchId := SignApproval(payload, w.signer)]);
      SignAllWrites(m.entries, w, st');
      forall c | c in e.written ensures CommittedTo(e.store.inbox[c], payload, c) {
        var i :| 0 <= i < |m.entries| && m.entries[i].capability == c &&
                 Carries(e.store.inbox[c], m.entries[i].intentDigest, w.ids(c), w.second(c));
        assert payload.entries[i] == Entry(c, m.entries[i].intentDigest, w.ids(c));
      }
    }
  }

  /** Every entry was reviewed under some requested capability, and every
      requested capability has its entry. */
  ghost predicate AllReviewed(capabilities: seq<string>, w: World, entries: seq<Entry>) {
    && |entries| == |capabilities|
    && (forall i :: 0 <= i < |entries| ==> exists k :: 0 <= k < |capabilities| && Reviewed(w, capabilities[k], entries[i]))
    && (forall k :: 0 <= k < |capabilities| ==> exists i :: 0 <= i < |entries| && Reviewed(w, capabilities[k], entries[i]))
  }

  /** What the approval commits to is what the owner was shown and answered
      "yes" to: the digests of the previews read before the prompt. */
  lemma ApprovedAsReviewed(capabilities: seq<string>, w: World, st: Store)
    requires BatchRun(capabilities, w, st).approval.Some?
    ensures w.yes && AllReviewed(capabilities, w, BatchRun(capabilities, w, st).approval.value.payload.entries)
  {
    ApprovalTraced(capabilities, w, st);
    GatheredPreviews(capabilities, w.first, st);
    EntriesReviewed(capabilities, w, Gather(capabilities, w.first, st).previews, BatchRun(capabilities, w, st).approval.value.payload.entries);
  }

  lemma ApprovalTraced(capabilities: seq<string>, w: World, st: Store)
    requires BatchRun(capabilities, w, st).approval.Some?
    ensures var g := Gather(capabilities, w.first, st);
      && w.yes && g.Previews? && BuildManifest(g.previews, w.batchId).Some?
      && BatchRun(capabilities, w, st).approval.value.payload.entries ==
         ApprovalEntries(BuildManifest(g.previews, w.batchId).value, w.ids)
      && BatchRun(capabilities, w, st).approval.value.payload.planDigest == g.previews[0].planDigest
  {
    var g := Gather(capabilities, w.first, st);
    if g.Previews? {
      var m := BuildManifest(g.previews, w.batchId);
      if m.Some? {
        var p := BuildPayload(m.value, w.ids, w.now);
        if p.Some? {
          assert AfterYes(m.value, p.value, w, g.store).approval == Some(SignApproval(p.value, w.signer));
        }
      }
    }
  }

  lemma EntriesReviewed(capabilities: seq<string>, w: World, previews: seq<Preview>, entries: seq<Entry>)
    requires |previews| == |capabilities|
    requires forall k :: 0 <= k < |previews| ==> w.first(capabilities[k]).preview == Loaded(previews[k])
    requires BuildManifest(previews, w.batchId).Some?
    requires entries == ApprovalEntries(BuildManifest(previews, w.batchId).value, w.ids)
    ensures AllReviewed(capabilities, w, entries)
  {
    ManifestOrdered(previews, w.batchId);
    ManifestLists(previews, w.batchId);
    var m := BuildManifest(previews, w.batchId).value;
    forall i | 0 <= i < |entries| ensures exists k :: 0 <= k < |capabilities| && Reviewed(w, capabilities[k], entries[i]) {
      assert FromPreview(m.entries[i], previews);
      var q :| q in previews && EntryOf(q) == m.entries[i];
      var k :| 0 <= k < |previews| && previews[k] == q;
      assert Reviewed(w, capabilities[k], entries[i]);
    }
    forall k | 0 <= k < |capabilities| ensures exists i :: 0 <= i < |entries| && Reviewed(w, capabilities[k], entries[i]) {
      EntryForEach(capabilities, w, previews, entries, m, k);
    }
  }

  lemma EntryForEach(capabilities: seq<string>, w: World, previews: seq<Preview>, entries: seq<Entry>, m: Manifest, k: nat)
    requires |previews| == |capabilities| && k < |previews|
    requires w.first(capabilities[k]).preview == Loaded(previews[k])
    requires EntryOf(previews[k]) in m.entries && entries == ApprovalEntries(m, w.ids)
    ensures exists i :: 0 <= i < |entries| && Reviewed(w, capabilities[k], entries[i])
  {
    var i :| 0 <= i < |m.entries| && m.entries[i] == EntryOf(previews[k]);
    assert Reviewed(w, capabilities[k], entries[i]);
  }

  /** The preview found in `c`'s directory before the prompt is the one behind
      the entry. */
  ghost predicate Reviewed(w: World, c: string, e: Entry) {
    var f := w.first(c).preview;
    f.Loaded? && f.preview.capability == e.capability && f.preview.intentDigest == e.intentDigest
  }

  lemma RunKeepsStore(capabilities: seq<string>, w: World, st: Store)
    ensures StoreKept(st, BatchRun(capabilities, w, st).store)
  {
    GatherWritesNothing(capabilities, w.first, st);
    var g := Gather(capabilities, w.first, st);
    if g.Previews? && BuildManifest(g.previews, w.batchId).Some? {
      ManifestOrdered(g.previews, w.batchId);
      var m := BuildManifest(g.previews, w.batchId).value;
      if BuildPayload(m, w.ids, w.now).Some? && m.batchId !in g.store.approvals {
        var payload := BuildPayload(m, w.ids, w.now).value;
        SignAllWrites(m.entries, w, g.store.(approvals := g.store.approvals[m.batchId := SignApproval(payload, w.signer)]));
      }
    }
  }

  // ----------------------------------------------------------- sequences of runs

  datatype Job = Job(capabilities: seq<string>, world: World)

  function RunAll(jobs: seq<Job>, st: Store): (es: seq<Effect>)
    ensures |es| == |jobs|
    decreases jobs
  {
    if jobs == [] then []
    else
      var e := BatchRun(jobs[0].capabilities, jobs[0].world, st);
      [e] + RunAll(jobs[1..], e.store)
  }

  /** The store in which the n-th run starts. */
  function StoreBefore(jobs: seq<Job>, st: Store, n: nat): Store
    requires n <= |jobs|
  {
    if n == 0 then st else RunAll(jobs, st)[n - 1].store
  }

  lemma {:induction false} EachRun(jobs: seq<Job>, st: Store, n: nat)
    requires n < |jobs|
    ensures RunAll(jobs, st)[n] == BatchRun(jobs[n].capabilities, jobs[n].world, StoreBefore(jobs, st, n))
    decreases n
  {
    if n > 0 {
      var first := BatchRun(jobs[0].capabilities, jobs[0].world, st);
      assert RunAll(jobs, st) == [first] + RunAll(jobs[1..], first.store);
      EachRun(jobs[1..], first.store, n - 1);
      assert StoreBefore(jobs, st, n) == StoreBefore(jobs[1..], first.store, n - 1);
    }
  }

  /** No signed file is ever overwritten, over any sequence of runs. */
  lemma {:induction false} NeverOverwritten(jobs: seq<Job>, st: Store, m: nat, n: nat)
    requires m <= n <= |jobs|
    ensures StoreKept(StoreBefore(jobs, st, m), StoreBefore(jobs, st, n))
    decreases n
  {
    if m < n {
      NeverOverwritten(jobs, st, m, n - 1);
      EachRun(jobs, st, n - 1);
      RunKeepsStore(jobs[n - 1].capabilities, jobs[n - 1].world, StoreBefore(jobs, st, n - 1));
    }
  }

  // ------------------------------------------------------------------ membership

  /** The check a verifier applies to an approval, an authorization and a
      capability. */
  predicate Member(a: Authorization, ap: Approval, c: string, authorities: map<string, nat>) {
    && Verifies(authorities, ap.authorityId, ApprovalMessage(ap.payload), ap.proof)
    && Verifies(authorities, a.payload.authorityId, AuthorizationMessage(a.payload), a.proof)
    && exists i :: 0 <= i < |ap.payload.entries| && ap.payload.entries[i].capability == c
         && (forall j :: 0 <= j < |ap.payload.entries| && j != i ==> ap.payload.entries[j].capability != c)
         && ap.payload.entries[i].authorizationId == a.payload.authorizationId
         && ap.payload.planDigest == a.payload.planDigest
         && exists k :: 0 <= k < |a.payload.executions| && a.payload.executions[k].intentDigest == ap.payload.entries[i].intentDigest
  }

  /** Random identifiers never repeat, in one run or across runs. */
  ghost predicate FreshIds(jobs: seq<Job>) {
    forall i, j, c, d :: 0 <= i < |jobs| && 0 <= j < |jobs| && jobs[i].world.ids(c) == jobs[j].world.ids(d) ==> i == j && c == d
  }

  /** Unforgeability: the proof is one that some run's signer produced. */
  ghost predicate Issued(ap: Approval, es: seq<Effect>) {
    exists i :: 0 <= i < |es| && es[i].approval.Some? && es[i].approval.value.proof == ap.proof
  }

  lemma ApprovalOfRun(capabilities: seq<string>, w: World, st: Store)
    requires BatchRun(capabilities, w, st).approval.Some?
    ensures var ap := BatchRun(capabilities, w, st).approval.value;
      && ap == SignApproval(ap.payload, w.signer) && ValidPayload(ap.payload)
      && (forall i :: 0 <= i < |ap.payload.entries| ==> ap.payload.entries[i].authorizationId == w.ids(ap.payload.entries[i].capability))
  {
  }

  /** Over all approvals ever signed, an authorization written by a batch run
      passes the check only with its own run's approval and its own capability. */
  lemma MembershipExclusive(jobs: seq<Job>, st: Store, n: nat, c: string, ap: Approval, d: string, authorities: map<string, nat>)
    requires FreshIds(jobs) && n < |jobs| && c in RunAll(jobs, st)[n].written
    requires Issued(ap, RunAll(jobs, st))
    requires c in RunAll(jobs, st)[n].store.inbox && Member(RunAll(jobs, st)[n].store.inbox[c], ap, d, authorities)
    ensures d == c
    ensures RunAll(jobs, st)[n].approval.Some? && ap.payload == RunAll(jobs, st)[n].approval.value.payload
  {
    var es := RunAll(jobs, st);
    EachRun(jobs, st, n);
    var before := StoreBefore(jobs, st, n);
    WrittenAsApproved(jobs[n].capabilities, jobs[n].world, before);
    ApprovalOfRun(jobs[n].capabilities, jobs[n].world, before);
    var i :| 0 <= i < |es| && es[i].approval.Some? && es[i].approval.value.proof == ap.proof;
    EachRun(jobs, st, i);
    ApprovalOfRun(jobs[i].capabilities, jobs[i].world, StoreBefore(jobs, st, i));
    assert ap.payload == es[i].approval.value.payload;
  }

  predicate Pinned(authorities: map<string, nat>, authorityId: string, key: nat) {
    authorityId in authorities && authorities[authorityId] == key
  }

  /** And it does pass with them exactly when both signing keys are pinned and the
      plan in force when the item was signed is the one its batch was reviewed
      under. */
  lemma OwnMembership(capabilities: seq<string>, w: World, st: Store, c: string, authorities: map<string, nat>)
    requires c in BatchRun(capabilities, w, st).written
    ensures var e := BatchRun(capabilities, w, st); var item := w.second(c);
      && e.approval.Some? && c in e.store.inbox && capabilities != [] && w.first(capabilities[0]).preview.Loaded?
      && (Member(e.store.inbox[c], e.approval.value, c, authorities) <==>
            && Pinned(authorities, w.signer.authorityId, w.signer.privateKey)
            && Pinned(authorities, item.signer.authorityId, item.signer.publicKey)
            && item.plan.digest == w.first(capabilities[0]).preview.preview.planDigest)
  {
    var e := BatchRun(capabilities, w, st);
    WrittenAsApproved(capabilities, w, st);
    WrittenSigned(capabilities, w, st, c);
    ApprovalTraced(capabilities, w, st);
    GatheredPreviews(capabilities, w.first, st);
    OwnEntry(e.store.inbox[c], e.approval.value, c, authorities);
  }

  lemma OwnEntry(a: Authorization, ap: Approval, c: string, authorities: map<string, nat>)
    requires ValidPayload(ap.payload) && CommittedTo(a, ap.payload, c)
    ensures Member(a, ap, c, authorities) <==>
      && Verifies(authorities, ap.authorityId, ApprovalMessage(ap.payload), ap.proof)
      && Verifies(authorities, a.payload.authorityId, AuthorizationMessage(a.payload), a.proof)
      && ap.payload.planDigest == a.payload.planDigest
  {
    var p := ap.payload;
    var i :| 0 <= i < |p.entries| && p.entries[i] == Entry(c, a.payload.executions[0].intentDigest, a.payload.authorizationId);
    forall j | 0 <= j < |p.entries| && j != i ensures p.entries[j].capability != c {
    }
  }

  lemma WrittenSigned(capabilities: seq<string>, w: World, st: Store, c: string)
    requires c in BatchRun(capabilities, w, st).written
    ensures var e := BatchRun(capabilities, w, st); var item := w.second(c);
      && c in e.store.inbox && e.approval.Some? && e.approval.value == SignApproval(e.approval.value.payload, w.signer)
      && e.store.inbox[c].payload.authorityId == item.signer.authorityId
      && e.store.inbox[c].payload.planDigest == item.plan.digest
      && e.store.inbox[c].proof == Proof(item.signer.publicKey, AuthorizationMessage(e.store.inbox[c].payload))
  {
    var e := BatchRun(capabilities, w, st);
    var g := Gather(capabilities, w.first, st);
    ManifestOrdered(g.previews, w.batchId);
    var m := BuildManifest(g.previews, w.batchId).value;
    var payload := BuildPayload(m, w.ids, w.now).value;
    SignAllWrites(m.entries, w, g.store.(approvals := g.store.approvals[m.batchId := SignApproval(payload, w.signer)]));
  }

  /** A run in which the preview is rewritten after the "yes" for another plan,
      with the execution digest unchanged. */
  function PlanMoves(p: Preview, plan: string, signer: Signer, batchId: string, id: string, now: int): World {
    var before := Look(Loaded(p), Plan(p.planDigest, true), signer, now, None, None);
    var after := Look(Loaded(p.(planDigest := plan)), Plan(plan, true), signer, now, None, None);
    World({p.capability}, (c: string) => before, (c: string) => after, true, batchId, (c: string) => id, now, signer, true)
  }

  lemma SortOne(p: Preview)
    ensures Sort([p], Symbol) == [p]
  {
    assert [p][..0] == [];
  }

  lemma OnePreview(p: Preview, batchId: string)
    requires batchId != ""
    ensures BuildManifest([p], batchId) ==
            Some(Manifest(batchId, [EntryOf(p)], p.planDigest, p.stepId, p.posture, p.assurance))
  {
    SortOne(p);
    var ordered := Sort([p], Symbol);
    assert seq(|ordered|, i requires 0 <= i < |ordered| => EntryOf(ordered[i])) == [EntryOf(p)];
  }

  lemma SignsOne(p: Preview, plan: string, signer: Signer, batchId: string, id: string, now: int, st: Store)
    requires p.posture == TARGET_POSTURE && p.assurance == TARGET_ASSURANCE && p.stepId == STEP_ID
    requires signer.privateKey == signer.publicKey && p.capability !in st.inbox
    ensures var s := SignAll([EntryOf(p)], PlanMoves(p, plan, signer, batchId, id, now), st);
      s.Completed? && s.written == [p.capability]
  {
    var w, c := PlanMoves(p, plan, signer, batchId, id, now), p.capability;
    var one := OneAuthorization(c, w.second(c), st, p.intentDigest, w.ids(c));
    assert one.Wrote?;
    assert [EntryOf(p)][1..] == [];
    assert SignAll([], w, one.store) == Completed(one.store, []);
  }

  /** It finishes, and what it writes fails its own membership check. */
  lemma WrittenButNoMember(p: Preview, plan: string, signer: Signer, batchId: string, id: string, now: int)
    requires p.posture == TARGET_POSTURE && p.assurance == TARGET_ASSURANCE && p.stepId == STEP_ID
    requires signer.privateKey == signer.publicKey && batchId != "" && plan != p.planDigest
    ensures var e := BatchRun([p.capability], PlanMoves(p, plan, signer, batchId, id, now), Store(map[], map[]));
      && e.verdict.Finished? && e.written == [p.capability] && e.approval.Some? && p.capability in e.store.inbox
      && !Member(e.store.inbox[p.capability], e.approval.value, p.capability, map[signer.authorityId := signer.publicKey])
  {
    var w, st, c := PlanMoves(p, plan, signer, batchId, id, now), Store(map[], map[]), p.capability;
    assert [c][1..] == [];
    assert Gather([c], w.first, st) == Previews([p], st);
    OnePreview(p, batchId);
    var m := BuildManifest([p], batchId).value;
    var payload := BuildPayload(m, w.ids, now);
    assert payload.Some?;
    SignsOne(p, plan, signer, batchId, id, now, st.(approvals := map[batchId := SignApproval(payload.value, signer)]));
    var e := BatchRun([c], w, st);
    assert e == AfterYes(m, payload.value, w, st);
    assert c in e.written;
    OwnMembership([c], w, st, c, map[signer.authorityId := signer.publicKey]);
  }
}
