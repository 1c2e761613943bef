/** The signing tool as the program runs it: directories it writes into, a loop
    that collects the previews, and a loop that signs. */
module BatchSigningTool {
  import opened Options
  import opened BatchSigning

  class Tool {
    var inbox: map<string, Authorization>
    var approvals: map<string, Approval>

    constructor (st: Store)
      ensures Stored() == st
    {
      inbox, approvals := st.inbox, st.approvals;
    }

    function Stored(): Store
      reads this
    {
      Store(inbox, approvals)
    }

    /** Someone else drops a signed authorization. */
    method Arrives(c: string, a: Option<Authorization>)
      modifies this`inbox
      ensures Stored() == Arrive(old(Stored()), c, a)
    {
      if a.Some? && c !in inbox {
        inbox := inbox[c := a.value];
      }
    }

    /** The previews of the whole batch, or none when any is missing, unreadable
        or already signed. */
    method CollectPreviews(capabilities: seq<string>, looks: string -> Look) returns (previews: Option<seq<Preview>>)
      modifies this`inbox
      ensures Gather(capabilities, looks, old(Stored())) ==
              if previews.Some? then Previews(previews.value, Stored()) else Stopped(Stored())
    {
      var found := [];
      var i := 0;
      assert capabilities[0..] == capabilities;
      while i < |capabilities|
        invariant 0 <= i <= |capabilities|
        invariant approvals == old(approvals)
        invariant Gather(capabilities, looks, old(Stored())) == Prefixed(found, Gather(capabilities[i..], looks, Stored()))
      {
        var c := capabilities[i];
        assert capabilities[i..][0] == c && capabilities[i..][1..] == capabilities[i + 1..];
        var look := looks(c);
        if look.preview.Absent? {
          return None;
        }
        Arrives(c, look.appears);
        if c in inbox || look.preview.Unreadable? {
          return None;
        }
        PrefixedTwice(found, [look.preview.preview], Gather(capabilities[i + 1..], looks, Stored()));
        found := found + [look.preview.preview];
        i := i + 1;
      }
      assert capabilities[i..] == [];
      assert found + [] == found;
      return Some(found);
    }

    /** `ok` is false when the step raised. */
    method OneAuthorization(c: string, look: Look, expected: string, id: string)
      returns (ok: bool, wrote: bool)
      modifies this`inbox
      ensures var r := BatchSigning.OneAuthorization(c, look, old(Stored()), expected, id);
        Stored() == r.store && ok == !r.Threw? && wrote == r.Wrote?
    {
      if look.preview.Absent? {
        return true, false;
      }
      Arrives(c, look.appears);
      if c in inbox {
        return true, false;
      }
      if look.preview.Unreadable? || look.preview.preview.intentDigest != expected {
        return false, false;
      }
      var signed := SignPreview(c, look.preview.preview, look.plan, look.signer, id, look.now);
      if signed.None? {
        return false, false;
      }
      Arrives(c, look.races);
      if c in inbox {
        return false, false;
      }
      inbox := inbox[c := signed.value];
      return true, true;
    }

    method SignEntries(entries: seq<ManifestEntry>, w: World) returns (ok: bool, written: seq<string>)
      modifies this`inbox
      ensures SignAll(entries, w, old(Stored())) == if ok then Completed(Stored(), written) else Aborted(Stored(), written)
    {
      written := [];
      var i := 0;
      assert entries[0..] == entries;
      while i < |entries|
        invariant 0 <= i <= |entries|
        invariant approvals == old(approvals)
        invariant SignAll(entries, w, old(Stored())) == After(written, SignAll(entries[i..], w, Stored()))
      {
        var c := entries[i].capability;
        assert entries[i..][0] == entries[i] && entries[i..][1..] == entries[i + 1..];
        var wrote;
        ok, wrote := OneAuthorization(c, w.second(c), entries[i].intentDigest, w.ids(c));
        if !ok {
          assert written + [] == written;
          return;
        }
        if wrote {
          AfterTwice(written, [c], SignAll(entries[i + 1..], w, Stored()));
          written := written + [c];
        }
        i := i + 1;
      }
      assert entries[i..] == [];
      assert written + [] == written;
      ok := true;
    }

    method SignAuthorizationBatch(capabilities: seq<string>, w: World)
      returns (verdict: Verdict, approval: Option<Approval>, written: seq<string>)
      modifies this
      ensures BatchRun(capabilities, w, old(Stored())) == Effect(verdict, Stored(), approval, written)
    {
      verdict, approval, written := Raised, None, [];
      if capabilities == [] || !Distinct(capabilities) ||
         !(forall i :: 0 <= i < |capabilities| ==> capabilities[i] in w.registered) {
        return;
      }
      var previews := CollectPreviews(capabilities, w.first);
      if previews.None? {
        return;
      }
      var manifest := BuildManifest(previews.value, w.batchId);
      if manifest.None? {
        return;
      }
      if !w.yes {
        verdict := Declined;
        return;
      }
      var payload := BuildPayload(manifest.value, w.ids, w.now);
      if payload.None? {
        return;
      }
      approval := Some(SignApproval(payload.value, w.signer));
      if manifest.value.batchId in approvals {
        return;
      }
      approvals := approvals[manifest.value.batchId := approval.value];
      if !w.discoveryWorks {
        return;
      }
      var ok;
      ok, written := SignEntries(manifest.value.entries, w);
      verdict := if ok then Finished else Raised;
    }
  }

  ghost function Prefixed(found: seq<Preview>, g: Gathered): Gathered {
    match g
    case Previews(previews, st) => Previews(found + previews, st)
    case Stopped(st) => Stopped(st)
  }

  lemma PrefixedTwice(a: seq<Preview>, b: seq<Preview>, g: Gathered)
    ensures Prefixed(a, Prefixed(b, g)) == Prefixed(a + b, g)
  {
    if g.Previews? {
      assert a + (b + g.previews) == a + b + g.previews;
    }
  }

  ghost function After(written: seq<string>, s: Signed): Signed {
    match s
    case Completed(st, rest) => Completed(st, written + rest)
    case Aborted(st, rest) => Aborted(st, written + rest)
  }

  lemma AfterTwice(a: seq<string>, b: seq<string>, s: Signed)
    ensures After(a, After(b, s)) == After(a + b, s)
  {
    assert a + (b + s.written) == a + b + s.written;
  }
}
