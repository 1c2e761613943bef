/** What a merge, and any sequence of merges, guarantees. */
module CatalogueProofs {
  import opened Options
  import opened Ordering
  import opened Catalogue

  lemma {:induction false} UnseenMembers(existing: seq<Entry>, discovered: seq<Entry>)
    requires Valid(existing)
    ensures Valid(Unseen(existing, discovered))
    ensures forall e :: e in Unseen(existing, discovered) <==> e in existing && Lookup(discovered, e.path).None?
  {
    if existing != [] {
      var init, last := existing[..|existing| - 1], existing[|existing| - 1];
      UnseenMembers(init, discovered);
      assert existing == init + [last];
      forall e | e in Unseen(init, discovered) ensures Path(e) != Path(last) {
        var n :| 0 <= n < |init| && init[n] == e;
        assert Path(existing[n]) != Path(existing[|existing| - 1]);
      }
    }
  }

  lemma LookupMember(entries: seq<Entry>, e: Entry)
    requires Valid(entries) && e in entries
    ensures Lookup(entries, e.path) == Some(e)
  {
    var found := Lookup(entries, e.path).value;
    var i :| 0 <= i < |entries| && entries[i] == e;
    var j :| 0 <= j < |entries| && entries[j] == found;
    assert forall k :: 0 <= k < |entries| && k != i ==> Path(entries[k]) != Path(entries[i]);
  }

  lemma LookupSorted(entries: seq<Entry>, path: string)
    requires Valid(entries)
    ensures Valid(Sort(entries, Path)) && StrictlySorted(Sort(entries, Path), Path)
    ensures Lookup(Sort(entries, Path), path) == Lookup(entries, path)
  {
    var s := Sort(entries, Path);
    SortDistinct(entries, Path);
    var a, b := Lookup(entries, path), Lookup(s, path);
    if a.Some? {
      SameMembers(s, entries, a.value);
      LookupMember(s, a.value);
    }
    if b.Some? {
      SameMembers(s, entries, b.value);
    }
  }

  lemma Unsorted(existing: seq<Entry>, discovered: seq<Entry>)
    requires Valid(existing) && Valid(discovered)
    ensures Valid(Refreshed(existing, discovered) + Unseen(existing, discovered))
  {
    var a, b := Refreshed(existing, discovered), Unseen(existing, discovered);
    UnseenMembers(existing, discovered);
    forall i, j | 0 <= i < j < |a + b| ensures Path((a + b)[i]) != Path((a + b)[j]) {
      if j < |a| {
        assert Path(discovered[i]) != Path(discovered[j]);
      } else if i < |a| {
        assert b[j - |a|] in b;
        assert discovered[i].path == Path(a[i]);
      } else {
        assert Path(b[i - |a|]) != Path(b[j - |a|]);
      }
    }
  }

  /** An entry with the facts just found, under the classification a human gave. */
  function FactsUnder(found: Entry, existing: Option<Entry>): Entry {
    Entry(found.path, found.facts, if existing.Some? then existing.value.intendedUse else found.intendedUse)
  }

  /** What the merged catalogue says about a path. */
  function Expected(existing: seq<Entry>, discovered: seq<Entry>, path: string): Option<Entry> {
    var found := Lookup(discovered, path);
    if found.Some? then Some(FactsUnder(found.value, Lookup(existing, path))) else Lookup(existing, path)
  }

  lemma UnsortedLookup(existing: seq<Entry>, discovered: seq<Entry>, path: string)
    requires Valid(existing) && Valid(discovered)
    ensures Lookup(Refreshed(existing, discovered) + Unseen(existing, discovered), path) == Expected(existing, discovered, path)
  {
    var a, b := Refreshed(existing, discovered), Unseen(existing, discovered);
    UnseenMembers(existing, discovered);
    Unsorted(existing, discovered);
    var found := Lookup(discovered, path);
    if found.Some? {
      var i :| 0 <= i < |discovered| && discovered[i] == found.value;
      assert (a + b)[i] == a[i];
      LookupMember(a + b, a[i]);
    } else if Lookup(existing, path).Some? {
      var e := Lookup(existing, path).value;
      assert e in b && e in a + b;
      LookupMember(a + b, e);
    } else {
      forall i | 0 <= i < |a + b| ensures (a + b)[i].path != path {
        if i >= |a| {
          assert b[i - |a|] in b;
          LookupMember(existing, b[i - |a|]);
        }
      }
    }
  }

  /** The result is strictly sorted by path, and holds for each path the
      discovered facts with the human's classification, or the entry as it was
      when the path was not discovered. */
  lemma MergeMeans(existing: seq<Entry>, discovered: seq<Entry>, path: string)
    requires Valid(existing) && Valid(discovered)
    ensures var entries := Merged(existing, discovered).entries;
      && Valid(entries) && StrictlySorted(entries, Path)
      && Lookup(entries, path) == Expected(existing, discovered, path)
  {
    Unsorted(existing, discovered);
    UnsortedLookup(existing, discovered, path);
    LookupSorted(Refreshed(existing, discovered) + Unseen(existing, discovered), path);
  }

  // ------------------------------------------------------------ sequences of merges

  /** The catalogue after merging each discovery in turn. */
  function MergeAll(existing: seq<Entry>, discoveries: seq<seq<Entry>>): seq<Entry> {
    if discoveries == [] then existing
    else Merged(MergeAll(existing, discoveries[..|discoveries| - 1]), discoveries[|discoveries| - 1]).entries
  }

  /** The facts from the last discovery of the path. */
  function LastFound(discoveries: seq<seq<Entry>>, path: string): Option<Entry> {
    if discoveries == [] then None
    else
      var found := Lookup(discoveries[|discoveries| - 1], path);
      if found.Some? then found else LastFound(discoveries[..|discoveries| - 1], path)
  }

  /** Discovery never classifies. */
  ghost predicate Discovered(entries: seq<Entry>) {
    Valid(entries) && forall e :: e in entries ==> e.intendedUse == Unclassified
  }

  ghost predicate AllDiscovered(discoveries: seq<seq<Entry>>) {
    forall i :: 0 <= i < |discoveries| ==> Discovered(discoveries[i])
  }

  lemma {:induction false} MergeAllValid(existing: seq<Entry>, discoveries: seq<seq<Entry>>)
    requires Valid(existing) && AllDiscovered(discoveries)
    ensures Valid(MergeAll(existing, discoveries))
  {
    if discoveries != [] {
      var init, last := discoveries[..|discoveries| - 1], discoveries[|discoveries| - 1];
      MergeAllValid(existing, init);
      MergeMeans(MergeAll(existing, init), last, "");
    }
  }

  lemma {:induction false} FoundUnclassified(discoveries: seq<seq<Entry>>, path: string)
    requires AllDiscovered(discoveries) && LastFound(discoveries, path).Some?
    ensures LastFound(discoveries, path).value.intendedUse == Unclassified
  {
    if Lookup(discoveries[|discoveries| - 1], path).None? {
      FoundUnclassified(discoveries[..|discoveries| - 1], path);
    }
  }

  /** After any sequence of merges a path has the facts of its last discovery and
      the classification it started with. */
  lemma {:induction false} MergeAllMeans(existing: seq<Entry>, discoveries: seq<seq<Entry>>, path: string)
    requires Valid(existing) && AllDiscovered(discoveries)
    ensures Lookup(MergeAll(existing, discoveries), path) ==
            var found := LastFound(discoveries, path);
            if found.Some? then Some(FactsUnder(found.value, Lookup(existing, path))) else Lookup(existing, path)
  {
    if discoveries != [] {
      var init, last := discoveries[..|discoveries| - 1], discoveries[|discoveries| - 1];
      var before := MergeAll(existing, init);
      MergeAllMeans(existing, init, path);
      MergeAllValid(existing, init);
      MergeMeans(before, last, path);
      assert Lookup(MergeAll(existing, discoveries), path) == Expected(before, last, path);
      if LastFound(init, path).Some? {
        FoundUnclassified(init, path);
      }
    }
  }

  /** Over any sequence of merges no entry is lost, no classification changes,
      and the paths are exactly the old ones and the discovered ones. */
  lemma NothingLost(existing: seq<Entry>, discoveries: seq<seq<Entry>>, path: string)
    requires Valid(existing) && AllDiscovered(discoveries)
    ensures var now := Lookup(MergeAll(existing, discoveries), path);
      && (now.Some? <==> Lookup(existing, path).Some? ||
                         exists i :: 0 <= i < |discoveries| && Lookup(discoveries[i], path).Some?)
      && (now.Some? ==> now.value.intendedUse ==
                        if Lookup(existing, path).Some? then Lookup(existing, path).value.intendedUse else Unclassified)
  {
    MergeAllMeans(existing, discoveries, path);
    FoundSomewhere(discoveries, path);
    if LastFound(discoveries, path).Some? {
      FoundUnclassified(discoveries, path);
    }
  }

  lemma {:induction false} FoundSomewhere(discoveries: seq<seq<Entry>>, path: string)
    ensures LastFound(discoveries, path).Some? <==> exists i :: 0 <= i < |discoveries| && Lookup(discoveries[i], path).Some?
  {
    if discoveries != [] {
      var init := discoveries[..|discoveries| - 1];
      FoundSomewhere(init, path);
      assert forall i :: 0 <= i < |init| ==> discoveries[i] == init[i];
    }
  }

  // ---------------------------------------------------------------------- repetition

  lemma {:induction false} NothingNew(existing: seq<Entry>, discovered: seq<Entry>)
    requires forall i :: 0 <= i < |discovered| ==>
      Lookup(existing, discovered[i].path).Some? &&
      Refresh(discovered[i], Lookup(existing, discovered[i].path)) == Lookup(existing, discovered[i].path).value
    ensures AddedPaths(existing, discovered) == [] && UpdatedPaths(existing, discovered) == []
  {
    if discovered != [] {
      NothingNew(existing, discovered[..|discovered| - 1]);
    }
  }

  lemma {:induction false} SameEntries(a: seq<Entry>, b: seq<Entry>)
    requires StrictlySorted(a, Path) && StrictlySorted(b, Path) && Valid(a) && Valid(b)
    requires forall path :: Lookup(a, path) == Lookup(b, path)
    ensures a == b
  {
    forall e ensures multiset(a)[e] == multiset(b)[e] {
      Once(a, e);
      Once(b, e);
      assert Lookup(a, e.path) == Lookup(b, e.path);
    }
    assert multiset(a) == multiset(b);
    SortedLoosely(a);
    SortedLoosely(b);
    forall x, y | x in a && y in a && Path(x) == Path(y) ensures x == y {
      LookupMember(a, x);
      LookupMember(a, y);
    }
    SortedUnique(a, b, Path);
  }

  lemma SortedLoosely(a: seq<Entry>)
    requires StrictlySorted(a, Path)
    ensures Sorted(a, Path)
  {
    forall i, j | 0 <= i < j < |a| ensures AtMost(Path(a[i]), Path(a[j])) {
      NotBefore(Path(a[i]), Path(a[j]));
    }
  }

  lemma {:induction false} Once(a: seq<Entry>, e: Entry)
    requires Valid(a)
    ensures multiset(a)[e] == if Lookup(a, e.path) == Some(e) then 1 else 0
  {
    if e in a {
      LookupMember(a, e);
    }
    Counted(a, e);
  }

  lemma {:induction false} Counted(a: seq<Entry>, e: Entry)
    requires Valid(a)
    ensures multiset(a)[e] == if e in a then 1 else 0
  {
    if a != [] {
      assert a == [a[0]] + a[1..];
      Counted(a[1..], e);
      forall n | 0 <= n < |a[1..]| ensures a[1..][n] != a[0] {
        assert Path(a[0]) != Path(a[n + 1]);
      }
    }
  }

  /** Merging the same discovery again adds nothing, updates nothing and keeps
      the entries. */
  lemma MergeTwice(existing: seq<Entry>, discovered: seq<Entry>)
    requires Valid(existing) && Valid(discovered)
    ensures var once := Merged(existing, discovered).entries; var again := Merged(once, discovered);
      again.entries == once && again.added == [] && again.updated == []
  {
    var once := Merged(existing, discovered).entries;
    MergeMeans(existing, discovered, "");
    MergeMeans(once, discovered, "");
    forall path ensures Lookup(Merged(once, discovered).entries, path) == Lookup(once, path) {
      MergeMeans(existing, discovered, path);
      MergeMeans(once, discovered, path);
    }
    SameEntries(Merged(once, discovered).entries, once);
    forall i | 0 <= i < |discovered|
      ensures Lookup(once, discovered[i].path).Some?
      ensures Refresh(discovered[i], Lookup(once, discovered[i].path)) == Lookup(once, discovered[i].path).value
    {
      MergeMeans(existing, discovered, discovered[i].path);
      LookupMember(discovered, discovered[i]);
    }
    NothingNew(once, discovered);
  }

  // -------------------------------------------------------------------- the report

  /** Looking up in a list that grew by one entry. */
  lemma LookupGrown(init: seq<Entry>, last: Entry, path: string)
    requires Valid(init + [last])
    ensures Valid(init)
    ensures Lookup(init + [last], path) == if path == last.path then Some(last) else Lookup(init, path)
    ensures path == last.path ==> Lookup(init, path).None?
  {
    var all := init + [last];
    assert forall i :: 0 <= i < |init| ==> Path(all[i]) != Path(all[|init|]) && all[i] == init[i];
    LookupMember(all, last);
    var a := Lookup(init, path);
    if a.Some? {
      LookupMember(all, a.value);
    }
    forall i, j | 0 <= i < j < |init| ensures Path(init[i]) != Path(init[j]) {
      assert Path(all[i]) != Path(all[j]);
    }
  }

  lemma {:induction false} AddedExactly(existing: seq<Entry>, discovered: seq<Entry>, path: string)
    requires Valid(discovered)
    ensures path in AddedPaths(existing, discovered) <==> Lookup(discovered, path).Some? && Lookup(existing, path).None?
  {
    if discovered != [] {
      var init, last := discovered[..|discovered| - 1], discovered[|discovered| - 1];
      assert discovered == init + [last];
      LookupGrown(init, last, path);
      AddedExactly(existing, init, path);
    }
  }

  lemma {:induction false} UpdatedExactly(existing: seq<Entry>, discovered: seq<Entry>, path: string)
    requires Valid(discovered)
    ensures path in UpdatedPaths(existing, discovered) <==>
      var found, was := Lookup(discovered, path), Lookup(existing, path);
      found.Some? && was.Some? && found.value.facts != was.value.facts
  {
    if discovered != [] {
      var init, last := discovered[..|discovered| - 1], discovered[|discovered| - 1];
      assert discovered == init + [last];
      LookupGrown(init, last, path);
      UpdatedExactly(existing, init, path);
    }
  }

  lemma StalePaths(existing: seq<Entry>, discovered: seq<Entry>, path: string)
    requires Valid(existing)
    ensures path in Paths(Unseen(existing, discovered)) <==> Lookup(existing, path).Some? && Lookup(discovered, path).None?
  {
    var unseen := Unseen(existing, discovered);
    UnseenMembers(existing, discovered);
    if path in Paths(unseen) {
      var i :| 0 <= i < |unseen| && Paths(unseen)[i] == path;
      assert unseen[i] in unseen;
      LookupMember(existing, unseen[i]);
    }
    if Lookup(existing, path).Some? && Lookup(discovered, path).None? {
      var i :| 0 <= i < |unseen| && unseen[i] == Lookup(existing, path).value;
      assert Paths(unseen)[i] == path;
    }
  }

  /** The report lists exactly the discovered paths that are new, those whose
      facts differ from the existing ones, and the existing paths that were not
      discovered again. */
  lemma ReportIsExact(existing: seq<Entry>, discovered: seq<Entry>, path: string)
    requires Valid(existing) && Valid(discovered)
    ensures var r := Merged(existing, discovered); var found, was := Lookup(discovered, path), Lookup(existing, path);
      && (path in r.added <==> found.Some? && was.None?)
      && (path in r.updated <==> found.Some? && was.Some? && found.value.facts != was.value.facts)
      && (path in r.stale <==> was.Some? && found.None?)
  {
    SortedReport(existing, discovered, path);
    AddedExactly(existing, discovered, path);
    UpdatedExactly(existing, discovered, path);
    StalePaths(existing, discovered, path);
  }

  lemma ReportIsSorted(existing: seq<Entry>, discovered: seq<Entry>)
    ensures var r := Merged(existing, discovered); Sorted(r.added, Same) && Sorted(r.updated, Same) && Sorted(r.stale, Same)
  {
    SortSorted(AddedPaths(existing, discovered), Same);
    SortSorted(UpdatedPaths(existing, discovered), Same);
    SortSorted(Paths(Unseen(existing, discovered)), Same);
  }

  lemma SortedReport(existing: seq<Entry>, discovered: seq<Entry>, path: string)
    ensures var r := Merged(existing, discovered);
      && (path in r.added <==> path in AddedPaths(existing, discovered))
      && (path in r.updated <==> path in UpdatedPaths(existing, discovered))
      && (path in r.stale <==> path in Paths(Unseen(existing, discovered)))
  {
    SameMembers(Merged(existing, discovered).added, AddedPaths(existing, discovered), path);
    SameMembers(Merged(existing, discovered).updated, UpdatedPaths(existing, discovered), path);
    SameMembers(Merged(existing, discovered).stale, Paths(Unseen(existing, discovered)), path);
  }
}
