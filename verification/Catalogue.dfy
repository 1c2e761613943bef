/** Merging freshly discovered endpoints into the committed catalogue
    (scripts/build_endpoint_catalogue.py). Every entry is for the method "get",
    so the path alone is the key. */
module Catalogue {
  import opened Options
  import opened Ordering

  datatype IntendedUse = Unclassified | Candidate | ImplementedElsewhere

  /** What the schema says about an operation. */
  datatype Facts = Facts(tags: seq<string>, summary: Option<string>, description: Option<string>, mutatingMethodsExist: bool)

  datatype Entry = Entry(path: string, facts: Facts, intendedUse: IntendedUse)

  function Path(e: Entry): string {
    e.path
  }

  function Same(s: string): string {
    s
  }

  /** A catalogue is refused when two entries share a path. */
  ghost predicate Valid(entries: seq<Entry>) {
    DistinctKeys(entries, Path)
  }

  function Lookup(entries: seq<Entry>, path: string): (r: Option<Entry>)
    ensures r.Some? <==> exists i :: 0 <= i < |entries| && entries[i].path == path
    ensures r.Some? ==> r.value in entries && r.value.path == path
  {
    if entries == [] then None
    else if entries[0].path == path then Some(entries[0])
    else
      var r := Lookup(entries[1..], path);
      assert r.Some? <==> exists i :: 0 < i < |entries| && entries[i].path == path by {
        assert forall i :: 0 < i < |entries| ==> entries[i] == entries[1..][i - 1];
      }
      r
  }

  /** The discovered entry, keeping a human's classification. */
  function Refresh(e: Entry, current: Option<Entry>): Entry {
    match current
    case None => e
    case Some(c) => e.(intendedUse := c.intendedUse)
  }

  function Refreshed(existing: seq<Entry>, discovered: seq<Entry>): (r: seq<Entry>)
    ensures |r| == |discovered|
    ensures forall i :: 0 <= i < |r| ==> r[i] == Refresh(discovered[i], Lookup(existing, discovered[i].path))
  {
    seq(|discovered|, i requires 0 <= i < |discovered| => Refresh(discovered[i], Lookup(existing, discovered[i].path)))
  }

  /** The existing entries that were not discovered again. */
  function Unseen(existing: seq<Entry>, discovered: seq<Entry>): seq<Entry> {
    if existing == [] then []
    else
      var rest := Unseen(existing[..|existing| - 1], discovered);
      var last := existing[|existing| - 1];
      if Lookup(discovered, last.path).None? then rest + [last] else rest
  }

  function AddedPaths(existing: seq<Entry>, discovered: seq<Entry>): seq<string> {
    if discovered == [] then []
    else
      var rest := AddedPaths(existing, discovered[..|discovered| - 1]);
      var last := discovered[|discovered| - 1];
      if Lookup(existing, last.path).None? then rest + [last.path] else rest
  }

  function UpdatedPaths(existing: seq<Entry>, discovered: seq<Entry>): seq<string> {
    if discovered == [] then []
    else
      var rest := UpdatedPaths(existing, discovered[..|discovered| - 1]);
      var last := discovered[|discovered| - 1];
      var current := Lookup(existing, last.path);
      if current.Some? && Refresh(last, current) != current.value then rest + [last.path] else rest
  }

  function Paths(entries: seq<Entry>): (r: seq<string>)
    ensures |r| == |entries| && forall i :: 0 <= i < |r| ==> r[i] == entries[i].path
  {
    seq(|entries|, i requires 0 <= i < |entries| => entries[i].path)
  }

  datatype Report = Report(entries: seq<Entry>, added: seq<string>, updated: seq<string>, stale: seq<string>)

  function Merged(existing: seq<Entry>, discovered: seq<Entry>): Report {
    Report(
      Sort(Refreshed(existing, discovered) + Unseen(existing, discovered), Path),
      Sort(AddedPaths(existing, discovered), Same),
      Sort(UpdatedPaths(existing, discovered), Same),
      Sort(Paths(Unseen(existing, discovered)), Same))
  }

  /** The merge as the program runs it. */
  method Merge(existing: seq<Entry>, discovered: seq<Entry>) returns (report: Report)
    ensures report == Merged(existing, discovered)
  {
    var merged, added, updated, stale := [], [], [], [];
    var i := 0;
    while i < |discovered|
      invariant 0 <= i <= |discovered|
      invariant merged == Refreshed(existing, discovered[..i])
      invariant added == AddedPaths(existing, discovered[..i]) && updated == UpdatedPaths(existing, discovered[..i])
    {
      var found := discovered[i];
      assert discovered[..i + 1][..i] == discovered[..i];
      var current := Lookup(existing, found.path);
      if current.None? {
        merged := merged + [found];
        added := added + [found.path];
      } else {
        var refreshed := found.(intendedUse := current.value.intendedUse);
        if refreshed != current.value {
          updated := updated + [found.path];
        }
        merged := merged + [refreshed];
      }
      i := i + 1;
      assert merged == Refreshed(existing, discovered[..i]);
    }
    assert discovered[..i] == discovered;
    ghost var refreshed := merged;
    i := 0;
    while i < |existing|
      invariant 0 <= i <= |existing|
      invariant merged == refreshed + Unseen(existing[..i], discovered)
      invariant stale == Paths(Unseen(existing[..i], discovered))
    {
      assert existing[..i + 1][..i] == existing[..i];
      if Lookup(discovered, existing[i].path).None? {
        merged := merged + [existing[i]];
        stale := stale + [existing[i].path];
      }
      i := i + 1;
    }
    assert existing[..i] == existing;
    return Report(Sort(merged, Path), Sort(added, Same), Sort(updated, Same), Sort(stale, Same));
  }
}
