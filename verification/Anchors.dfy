/** Edits at an anchor that must occur exactly once, and the parenthesised list
    of read-tool imports (scripts/lib/code_templates.py). */
module Anchors {
  import opened Options
  import opened Ordering
  import opened Text
  import opened ImportEditor

  /** Python's `index`. */
  function Index(s: string, part: string): (r: Option<nat>)
    ensures r.Some? ==> OccursAt(s, part, r.value)
    decreases |s|
  {
    if OccursAt(s, part, 0) then Some(0)
    else if s == [] then None
    else
      match Index(s[1..], part)
      case None => None
      case Some(i) =>
        OccursLater(s, part, i + 1);
        Some(i + 1)
  }

  lemma OccursLater(s: string, part: string, i: nat)
    requires 0 < i && s != []
    ensures OccursAt(s, part, i) <==> OccursAt(s[1..], part, i - 1)
  {
    if i + |part| <= |s| {
      assert s[1..][i - 1..i - 1 + |part|] == s[i..i + |part|];
    }
  }

  /** The index is that of the first occurrence. */
  lemma {:induction false} IndexIsFirst(s: string, part: string, i: nat)
    requires OccursAt(s, part, i)
    ensures Index(s, part).Some? && Index(s, part).value <= i
    decreases |s|
  {
    if !OccursAt(s, part, 0) {
      OccursLater(s, part, i);
      IndexIsFirst(s[1..], part, i - 1);
    }
  }

  /** Python's `count`: occurrences from the left that do not overlap. */
  function Count(s: string, part: string): nat
    decreases |s|
  {
    if part == [] then |s| + 1
    else
      match Index(s, part)
      case None => 0
      case Some(i) => 1 + Count(s[i + |part|..], part)
  }

  datatype Edited = Done(text: string) | NotFound | Repeated

  function ReplaceAnchor(s: string, anchor: string, replacement: string): Edited {
    if Count(s, anchor) == 0 then NotFound
    else if Count(s, anchor) > 1 then Repeated
    else
      match Index(s, anchor)
      case None => NotFound
      case Some(i) => Done(s[..i] + replacement + s[i + |anchor|..])
  }

  function InsertAfterAnchor(s: string, anchor: string, insertion: string): Edited {
    if Count(s, anchor) == 0 then NotFound
    else if Count(s, anchor) > 1 then Repeated
    else
      match Index(s, anchor)
      case None => NotFound
      case Some(i) => Done(s[..i + |anchor|] + insertion + s[i + |anchor|..])
  }

  lemma ContainsIndexed(s: string, part: string)
    ensures Contains(s, part) <==> Index(s, part).Some?
  {
    if i: nat :| i <= |s| && OccursAt(s, part, i) {
      IndexIsFirst(s, part, i);
    }
    if Index(s, part).Some? {
      assert OccursAt(s, part, Index(s, part).value);
    }
  }

  lemma CountZero(s: string, part: string)
    requires part != []
    ensures Count(s, part) == 0 <==> !Contains(s, part)
  {
    ContainsIndexed(s, part);
  }

  lemma CountedOnce(s: string, part: string)
    requires part != [] && Index(s, part).Some?
    ensures Count(s, part) == 1 <==> !Contains(s[Index(s, part).value + |part|..], part)
  {
    CountZero(s[Index(s, part).value + |part|..], part);
  }

  /** Nothing follows the first occurrence but text without the anchor. */
  predicate OccursOnce(s: string, anchor: string) {
    Index(s, anchor).Some? && !Contains(s[Index(s, anchor).value + |anchor|..], anchor)
  }

  /** An anchor is accepted exactly when it occurs, and does not occur again after
      its first occurrence (an empty one, exactly in an empty text). Then that
      occurrence, and no other text, is replaced. */
  lemma ReplacesTheOne(s: string, anchor: string, replacement: string)
    ensures ReplaceAnchor(s, anchor, replacement).NotFound? <==> !Contains(s, anchor)
    ensures ReplaceAnchor(s, anchor, replacement).Done? <==> if anchor == [] then s == [] else OccursOnce(s, anchor)
    ensures ReplaceAnchor(s, anchor, replacement).Done? ==>
            exists i :: 0 <= i && OccursAt(s, anchor, i)
              && ReplaceAnchor(s, anchor, replacement).text == s[..i] + replacement + s[i + |anchor|..]
  {
    ContainsIndexed(s, anchor);
    if anchor == [] {
      assert OccursAt(s, anchor, 0);
    } else {
      CountZero(s, anchor);
      if Index(s, anchor).Some? {
        CountedOnce(s, anchor);
      }
    }
  }

  lemma AnchorKept(s: string, i: nat, anchor: string, insertion: string)
    requires OccursAt(s, anchor, i)
    ensures s[..i + |anchor|] + insertion == s[..i] + (anchor + insertion)
  {
    assert s[..i + |anchor|] == s[..i] + s[i..i + |anchor|];
  }

  /** Inserting after an anchor is replacing it by itself and the insertion. */
  lemma InsertIsReplace(s: string, anchor: string, insertion: string)
    ensures InsertAfterAnchor(s, anchor, insertion) == ReplaceAnchor(s, anchor, anchor + insertion)
  {
    match Index(s, anchor) {
      case None =>
      case Some(i) => AnchorKept(s, i, anchor, insertion);
    }
  }

  // ------------------------------------------------------------ the read-tool list

  function DropCommas(s: string): (r: string)
    ensures r <= s && (r == [] || r[|r| - 1] != ',')
  {
    if s != [] && s[|s| - 1] == ',' then DropCommas(s[..|s| - 1]) else s
  }

  /** The names in the lines between the parentheses; blank lines are skipped. */
  function Listed(body: seq<string>): seq<string> {
    if body == [] then []
    else if Trim(body[0]) == [] then Listed(body[1..])
    else [DropCommas(Trim(body[0]))] + Listed(body[1..])
  }

  const INDENT: string := "    "

  function RenderNames(names: seq<string>): seq<string> {
    if names == [] then [] else [INDENT + (names[0] + ",")] + RenderNames(names[1..])
  }

  /** The new body, unless the name is already listed. */
  function InsertRead(body: seq<string>, name: string): Option<seq<string>> {
    if name in Listed(body) then None else Some(RenderNames(Sort(Listed(body) + [name], Identity)))
  }

  /** A name the list can hold: no space in front, no comma behind. */
  predicate Listable(name: string) {
    name == [] || (!Space(name[0]) && name[|name| - 1] != ',')
  }

  lemma {:induction false} ListedListable(body: seq<string>)
    ensures forall n :: n in Listed(body) ==> Listable(n)
  {
    if body != [] {
      ListedListable(body[1..]);
    }
  }

  lemma {:induction false} TrimIndented(indent: string, s: string)
    requires (forall i :: 0 <= i < |indent| ==> Space(indent[i])) && s != [] && !Space(s[0]) && !Space(s[|s| - 1])
    ensures Trim(indent + s) == s
  {
    if indent == [] {
      assert indent + s == s;
    } else {
      assert (indent + s)[1..] == indent[1..] + s;
      TrimIndented(indent[1..], s);
    }
  }

  lemma RenderedName(name: string)
    requires Listable(name)
    ensures Trim(INDENT + (name + ",")) == name + "," && DropCommas(name + ",") == name
  {
    TrimIndented(INDENT, name + ",");
    assert (name + ",")[..|name|] == name;
  }

  lemma {:induction false} ListedRendered(names: seq<string>)
    requires forall n :: n in names ==> Listable(n)
    ensures Listed(RenderNames(names)) == names
  {
    if names != [] {
      assert names[0] in names;
      RenderedName(names[0]);
      ListedRendered(names[1..]);
    }
  }

  /** A name is refused exactly when it is listed; otherwise the edited list reads
      back as the old names and the new one, sorted. */
  lemma ReadListReadsBack(body: seq<string>, name: string)
    requires Listable(name)
    ensures InsertRead(body, name).None? <==> name in Listed(body)
    ensures InsertRead(body, name).Some? ==> Listed(InsertRead(body, name).value) == Sort(Listed(body) + [name], Identity)
  {
    var names := Sort(Listed(body) + [name], Identity);
    ListedListable(body);
    forall n | n in names ensures Listable(n) {
      SameMembers(names, Listed(body) + [name], n);
    }
    ListedRendered(names);
  }

  /** Two different new names give the same list in either order, and neither can
      be added twice. */
  lemma ReadInsertionsCommute(body: seq<string>, a: string, b: string)
    requires InsertRead(body, a).Some? && InsertRead(body, b).Some? && a != b && Listable(a) && Listable(b)
    ensures InsertRead(InsertRead(body, a).value, a).None?
    ensures InsertRead(InsertRead(body, a).value, b).Some?
    ensures InsertRead(InsertRead(body, a).value, b) == InsertRead(InsertRead(body, b).value, a)
  {
    ReadListReadsBack(body, a);
    ReadListReadsBack(body, b);
    var xs, ys := Sort(Listed(body) + [a], Identity), Sort(Listed(body) + [b], Identity);
    SameMembers(xs, Listed(body) + [a], a);
    SameMembers(xs, Listed(body) + [a], b);
    SameMembers(ys, Listed(body) + [b], a);
    SortPermuted(xs + [b], ys + [a], Identity);
  }
}
