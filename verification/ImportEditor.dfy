/** Editing the block of model imports (scripts/lib/code_templates.py). A source
    file is a list of lines; a line `from .models.<module> import <rest>` is told
    apart from every other. */
module ImportEditor {
  import opened Options
  import opened Ordering
  import opened Text

  datatype Line = Import(owner: string, rest: string) | Other(text: string)

  datatype Refusal = AnchorMissing | AnchorAmbiguous | AlreadyImported

  datatype Edited = Ok(lines: seq<Line>) | Refused(why: Refusal)

  // ------------------------------------------------------------------- name lists

  function TrimLeft(s: string): (r: string)
    ensures r == [] || !Space(r[0])
    ensures forall c :: c in r ==> c in s
  {
    if s != [] && Space(s[0]) then TrimLeft(s[1..]) else s
  }

  function TrimRight(s: string): (r: string)
    ensures r <= s && (r == [] || !Space(r[|r| - 1]))
  {
    if s != [] && Space(s[|s| - 1]) then TrimRight(s[..|s| - 1]) else s
  }

  function Trim(s: string): (r: string)
    ensures r == [] || (!Space(r[0]) && !Space(r[|r| - 1]))
    ensures forall c :: c in r ==> c in s
  {
    TrimRight(TrimLeft(s))
  }

  function TrimAll(parts: seq<string>): (r: seq<string>)
    ensures |r| == |parts|
    ensures forall i :: 0 <= i < |r| ==> r[i] == Trim(parts[i])
  {
    seq(|parts|, i requires 0 <= i < |parts| => Trim(parts[i]))
  }

  /** The names after `import`. */
  function Names(rest: string): seq<string> {
    TrimAll(SplitOn(rest, ','))
  }

  function Join(names: seq<string>): string {
    if names == [] then []
    else if |names| == 1 then names[0]
    else names[0] + ", " + Join(names[1..])
  }

  // --------------------------------------------------------------------- the dict

  /** A dict from module to names, in insertion order. */
  type Table = seq<(string, seq<string>)>

  function Key(entry: (string, seq<string>)): string {
    entry.0
  }

  function Lookup(t: Table, k: string): Option<seq<string>> {
    if t == [] then None
    else if t[0].0 == k then Some(t[0].1)
    else Lookup(t[1..], k)
  }

  function Put(t: Table, k: string, names: seq<string>): Table {
    if t == [] then [(k, names)]
    else if t[0].0 == k then [(k, names)] + t[1..]
    else [t[0]] + Put(t[1..], k, names)
  }

  /** A module named on several lines keeps the names of the last. */
  function Parse(block: seq<Line>): Table
    requires forall i :: 0 <= i < |block| ==> block[i].Import?
  {
    if block == [] then []
    else
      var last := block[|block| - 1];
      Put(Parse(block[..|block| - 1]), last.owner, Names(last.rest))
  }

  function Identity(s: string): string {
    s
  }

  function Added(names: Option<seq<string>>, name: string): seq<string> {
    match names
    case None => [name]
    case Some(existing) => Sort(existing + [name], Identity)
  }

  function RenderSorted(t: Table): (block: seq<Line>)
    ensures |block| == |t|
    ensures forall i :: 0 <= i < |t| ==> block[i] == Import(t[i].0, Join(t[i].1))
  {
    seq(|t|, i requires 0 <= i < |t| => Import(t[i].0, Join(t[i].1)))
  }

  function Render(t: Table): (block: seq<Line>)
    ensures forall i :: 0 <= i < |block| ==> block[i].Import?
  {
    RenderSorted(Sort(t, Key))
  }

  // -------------------------------------------------------------------- the block

  function NextImport(lines: seq<Line>, i: nat): (r: nat)
    requires i <= |lines|
    ensures i <= r <= |lines| && forall k :: i <= k < r ==> lines[k].Other?
    ensures r < |lines| ==> lines[r].Import?
    decreases |lines| - i
  {
    if i == |lines| || lines[i].Import? then i else NextImport(lines, i + 1)
  }

  function RunEnd(lines: seq<Line>, i: nat): (r: nat)
    requires i <= |lines|
    ensures i <= r <= |lines| && forall k :: i <= k < r ==> lines[k].Import?
    ensures r < |lines| ==> lines[r].Other?
    decreases |lines| - i
  {
    if i == |lines| || lines[i].Other? then i else RunEnd(lines, i + 1)
  }

  datatype Block = Missing | Ambiguous | Found(start: nat, end: nat)

  function FindBlock(lines: seq<Line>): (b: Block)
    ensures b.Found? ==> b.start < b.end <= |lines| && forall k :: 0 <= k < |lines| ==> (lines[k].Import? <==> b.start <= k < b.end)
    ensures b.Missing? <==> forall k :: 0 <= k < |lines| ==> lines[k].Other?
  {
    var i := NextImport(lines, 0);
    if i == |lines| then Missing
    else
      var j := RunEnd(lines, i);
      if NextImport(lines, j) < |lines| then Ambiguous else Found(i, j)
  }

  /** The dict the file stands for. */
  function Imports(lines: seq<Line>): Table
    requires FindBlock(lines).Found?
  {
    Parse(lines[FindBlock(lines).start..FindBlock(lines).end])
  }

  /** One block of imports, which does not import the name yet. */
  predicate Accepts(lines: seq<Line>, owner: string, name: string) {
    FindBlock(lines).Found? &&
    var names := Lookup(Imports(lines), owner);
    names.Some? ==> name !in names.value
  }

  function InsertImport(lines: seq<Line>, owner: string, name: string): (r: Edited)
    ensures r.Ok? <==> Accepts(lines, owner, name)
  {
    match FindBlock(lines)
    case Missing => Refused(AnchorMissing)
    case Ambiguous => Refused(AnchorAmbiguous)
    case Found(i, j) =>
      var parsed := Parse(lines[i..j]);
      var names := Lookup(parsed, owner);
      if names.Some? && name in names.value then Refused(AlreadyImported)
      else Ok(lines[..i] + Render(Put(parsed, owner, Added(names, name))) + lines[j..])
  }

  /** As the program does it: one pass over the block fills the dict. */
  method InsertClientModelImport(lines: seq<Line>, owner: string, name: string) returns (r: Edited)
    ensures r == InsertImport(lines, owner, name)
  {
    var found := FindBlock(lines);
    if found.Missing? {
      return Refused(AnchorMissing);
    } else if found.Ambiguous? {
      return Refused(AnchorAmbiguous);
    }
    var block := lines[found.start..found.end];
    assert forall k :: 0 <= k < |block| ==> block[k] == lines[found.start + k];
    var parsed: Table := [];
    var i := 0;
    while i < |block|
      invariant 0 <= i <= |block| && forall k :: 0 <= k < |block| ==> block[k].Import?
      invariant parsed == Parse(block[..i])
    {
      assert block[..i + 1][..i] == block[..i];
      parsed := Put(parsed, block[i].owner, Names(block[i].rest));
      i := i + 1;
    }
    assert block[..i] == block;
    var names := Lookup(parsed, owner);
    if names.Some? {
      if name in names.value {
        return Refused(AlreadyImported);
      }
      parsed := Put(parsed, owner, Sort(names.value + [name], Identity));
    } else {
      parsed := Put(parsed, owner, [name]);
    }
    return Ok(lines[..found.start] + Render(parsed) + lines[found.end..]);
  }
}
