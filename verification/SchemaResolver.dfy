/** Resolution of `$ref` and `allOf` in OpenAPI schemas (scripts/lib/openapi.py). */
module SchemaResolver {
  import opened Options
  import opened Pools

  /** A schema node. Next to a `$ref` every other key is ignored, and next to an
      `allOf` every key but `$ref`; a plain node has neither. */
  datatype Node =
    | Ref(ref: string)
    | AllOf(parts: seq<Node>)
    | Plain(
        typ: Option<string>,
        properties: Option<map<string, Node>>,
        required: Option<seq<string>>,
        other: map<string, string>)

  /** Every local reference that leads somewhere, and the node it leads to. */
  type Document = map<string, Node>

  datatype Resolution = Resolved(node: Node) | NotLocal(ref: string) | Missing(ref: string)

  /** The accumulator of an `allOf`. */
  datatype Merged = Merged(typ: string, properties: map<string, Node>, required: seq<string>) {
    function ToNode(): Node {
      Plain(Some(typ), Some(properties), Some(required), map[])
    }
  }

  datatype Parts = AllMerged(merged: Merged) | Failing(failure: Resolution)

  const EMPTY: Merged := Merged("object", map[], [])

  function Empty(): Node {
    Plain(None, None, None, map[])
  }

  predicate IsLocal(ref: string) {
    "#/" <= ref
  }

  /** Appends the names that are not there yet, in order. */
  function Extend(names: seq<string>, more: seq<string>): seq<string>
    decreases more
  {
    if more == [] then names
    else Extend(if more[0] in names then names else names + [more[0]], more[1..])
  }

  function PropertiesOf(n: Node): map<string, Node>
    requires n.Plain?
  {
    if n.properties.Some? then n.properties.value else map[]
  }

  function RequiredOf(n: Node): seq<string>
    requires n.Plain?
  {
    if n.required.Some? then n.required.value else []
  }

  /** The part's own type, unless it is absent or the default. */
  function NextType(current: string, part: Node): string
    requires part.Plain?
  {
    if part.typ.Some? && part.typ.value != "object" then part.typ.value else current
  }

  function Absorb(acc: Merged, part: Node): Merged
    requires part.Plain?
  {
    Merged(NextType(acc.typ, part), acc.properties + PropertiesOf(part), Extend(acc.required, RequiredOf(part)))
  }

  /** Terminates on every document, cyclic or not: following a reference uses up
      one that was not seen, and going into `allOf` makes the node smaller. The
      result has neither key at the top. */
  function Resolve(doc: Document, node: Node, seen: set<string>): (res: Resolution)
    ensures res.Resolved? ==> res.node.Plain?
    decreases |doc.Keys - seen|, node, 0
  {
    match node
    case Ref(ref) =>
      if ref in seen then Resolved(Empty())
      else if !IsLocal(ref) then NotLocal(ref)
      else if ref !in doc then Missing(ref)
      else
        OneFewer(doc.Keys, seen, ref);
        Resolve(doc, doc[ref], seen + {ref})
    case AllOf(parts) =>
      (match ResolveParts(doc, parts, seen, EMPTY)
       case AllMerged(merged) => Resolved(merged.ToNode())
       case Failing(failure) => failure)
    case Plain(_, _, _, _) => Resolved(node)
  }

  function ResolveParts(doc: Document, parts: seq<Node>, seen: set<string>, acc: Merged): (res: Parts)
    ensures res.Failing? ==> !res.failure.Resolved?
    decreases |doc.Keys - seen|, parts, 1
  {
    if parts == [] then AllMerged(acc)
    else
      match Resolve(doc, parts[0], seen)
      case Resolved(part) => ResolveParts(doc, parts[1..], seen, Absorb(acc, part))
      case NotLocal(ref) => Failing(NotLocal(ref))
      case Missing(ref) => Failing(Missing(ref))
  }

  lemma OneFewer(all: set<string>, seen: set<string>, ref: string)
    requires ref in all && ref !in seen
    ensures |all - (seen + {ref})| < |all - seen|
  {
    assert all - seen == (all - (seen + {ref})) + {ref};
  }

  // ----------------------------------------------------- the code as written

  method ResolveNode(doc: Document, node: Node, seen: set<string>) returns (res: Resolution)
    ensures res == Resolve(doc, node, seen)
    decreases |doc.Keys - seen|, node, 0
  {
    match node
    case Ref(ref) =>
      if ref in seen {
        return Resolved(Empty());
      }
      if !IsLocal(ref) {
        return NotLocal(ref);
      }
      if ref !in doc {
        return Missing(ref);
      }
      OneFewer(doc.Keys, seen, ref);
      res := ResolveNode(doc, doc[ref], seen + {ref});
    case AllOf(parts) =>
      res := MergeAll(doc, parts, seen);
    case Plain(_, _, _, _) =>
      res := Resolved(node);
  }

  /** `merged` is filled in place, part by part. */
  method MergeAll(doc: Document, parts: seq<Node>, seen: set<string>) returns (res: Resolution)
    ensures res == match ResolveParts(doc, parts, seen, EMPTY)
                   case AllMerged(merged) => Resolved(merged.ToNode())
                   case Failing(failure) => failure
    decreases |doc.Keys - seen|, parts, 1
  {
    var merged := EMPTY;
    assert parts[0..] == parts;
    for i := 0 to |parts|
      invariant ResolveParts(doc, parts, seen, EMPTY) == ResolveParts(doc, parts[i..], seen, merged)
    {
      assert parts[i..][0] == parts[i] && parts[i..][1..] == parts[i + 1..];
      var part := ResolveNode(doc, parts[i], seen);
      if !part.Resolved? {
        return part;
      }
      var required := AppendNew(merged.required, RequiredOf(part.node));
      merged := merged.(properties := merged.properties + PropertiesOf(part.node), required := required);
      if part.node.typ.Some? && part.node.typ.value != "object" {
        merged := merged.(typ := part.node.typ.value);
      }
    }
    res := Resolved(merged.ToNode());
  }

  method AppendNew(names: seq<string>, more: seq<string>) returns (out: seq<string>)
    ensures out == Extend(names, more)
  {
    out := names;
    assert more[0..] == more;
    for j := 0 to |more|
      invariant Extend(names, more) == Extend(out, more[j..])
    {
      assert more[j..][0] == more[j] && more[j..][1..] == more[j + 1..];
      if more[j] !in out {
        out := out + [more[j]];
      }
    }
  }

  // --------------------------------------------- flattening a nested allOf

  lemma {:induction false} ExtendKeeps(names: seq<string>, more: seq<string>)
    ensures forall x :: x in Extend(names, more) <==> x in names || x in more
    decreases more
  {
    if more != [] {
      ExtendKeeps(if more[0] in names then names else names + [more[0]], more[1..]);
    }
  }

  lemma {:induction false} ExtendTwice(names: seq<string>, more: seq<string>, rest: seq<string>)
    ensures Extend(Extend(names, more), rest) == Extend(names, more + rest)
    decreases more
  {
    if more == [] {
      assert more + rest == rest;
    } else {
      assert (more + rest)[1..] == more[1..] + rest;
      ExtendTwice(if more[0] in names then names else names + [more[0]], more[1..], rest);
    }
  }

  /** Names already there are not added again, so removing repeats first makes
      no difference. */
  lemma {:induction false} ExtendByExtended(names: seq<string>, more: seq<string>, rest: seq<string>)
    ensures Extend(names, Extend(more, rest)) == Extend(Extend(names, more), rest)
    decreases rest
  {
    if rest != [] {
      if rest[0] in more {
        ExtendKeeps(names, more);
        ExtendByExtended(names, more, rest[1..]);
      } else {
        ExtendByExtended(names, more + [rest[0]], rest[1..]);
        ExtendTwice(names, more, [rest[0]]);
        var base := Extend(names, more);
        assert [rest[0]][1..] == [];
        assert Extend(base, [rest[0]]) == if rest[0] in base then base else base + [rest[0]];
      }
    }
  }

  lemma AbsorbMerged(acc: Merged, m: Merged, part: Node)
    requires part.Plain?
    ensures Absorb(acc, Absorb(m, part).ToNode()) == Absorb(Absorb(acc, m.ToNode()), part)
  {
    ExtendByExtended(acc.required, m.required, RequiredOf(part));
    assert acc.properties + (m.properties + PropertiesOf(part)) == acc.properties + m.properties + PropertiesOf(part);
  }

  /** Merging parts on their own and absorbing the result is absorbing them one
      by one; a failure is the same failure. */
  lemma {:induction false} AbsorbParts(doc: Document, parts: seq<Node>, seen: set<string>, acc: Merged, m: Merged)
    ensures var own := ResolveParts(doc, parts, seen, m);
      ResolveParts(doc, parts, seen, Absorb(acc, m.ToNode())) ==
      if own.AllMerged? then AllMerged(Absorb(acc, own.merged.ToNode())) else own
    decreases parts
  {
    if parts != [] {
      var first := Resolve(doc, parts[0], seen);
      if first.Resolved? {
        AbsorbMerged(acc, m, first.node);
        AbsorbParts(doc, parts[1..], seen, acc, Absorb(m, first.node));
      }
    }
  }

  lemma {:induction false} PartsInTwo(doc: Document, xs: seq<Node>, ys: seq<Node>, seen: set<string>, acc: Merged)
    ensures var first := ResolveParts(doc, xs, seen, acc);
      ResolveParts(doc, xs + ys, seen, acc) ==
      if first.AllMerged? then ResolveParts(doc, ys, seen, first.merged) else first
    decreases xs
  {
    if xs == [] {
      assert xs + ys == ys;
    } else {
      assert (xs + ys)[1..] == xs[1..] + ys;
      var part := Resolve(doc, xs[0], seen);
      if part.Resolved? {
        PartsInTwo(doc, xs[1..], ys, seen, Absorb(acc, part.node));
      }
    }
  }

  lemma AbsorbEmpty(acc: Merged)
    ensures Absorb(acc, EMPTY.ToNode()) == acc
  {
    assert acc.properties + map[] == acc.properties;
  }

  /** Writing an inline nested `allOf` out into its parent's list changes
      nothing: not the properties and which of them wins, not the order of the
      required names, not the type, and not the error. */
  lemma FlattenNested(doc: Document, xs: seq<Node>, ys: seq<Node>, zs: seq<Node>, seen: set<string>)
    ensures Resolve(doc, AllOf(xs + [AllOf(ys)] + zs), seen) == Resolve(doc, AllOf(xs + ys + zs), seen)
  {
    var nested := [AllOf(ys)];
    PartsInTwo(doc, xs + nested, zs, seen, EMPTY);
    PartsInTwo(doc, xs + ys, zs, seen, EMPTY);
    PartsInTwo(doc, xs, nested, seen, EMPTY);
    PartsInTwo(doc, xs, ys, seen, EMPTY);
    var front := ResolveParts(doc, xs, seen, EMPTY);
    if front.AllMerged? {
      AbsorbEmpty(front.merged);
      AbsorbParts(doc, ys, seen, front.merged, EMPTY);
      assert nested[1..] == [];
      var inner := Resolve(doc, AllOf(ys), seen);
      assert ResolveParts(doc, nested, seen, front.merged) ==
        if inner.Resolved? then AllMerged(Absorb(front.merged, inner.node)) else Failing(inner);
    }
  }

  // --------------------------------------------------------- which part wins

  ghost predicate AllResolve(doc: Document, parts: seq<Node>, seen: set<string>) {
    forall i :: 0 <= i < |parts| ==> Resolve(doc, parts[i], seen).Resolved?
  }

  ghost predicate AllPlain(nodes: seq<Node>) {
    forall i :: 0 <= i < |nodes| ==> nodes[i].Plain?
  }

  ghost function ResolvedParts(doc: Document, parts: seq<Node>, seen: set<string>): (nodes: seq<Node>)
    requires AllResolve(doc, parts, seen)
    ensures AllPlain(nodes) && |nodes| == |parts|
  {
    seq(|parts|, i requires 0 <= i < |parts| => Resolve(doc, parts[i], seen).node)
  }

  ghost function AbsorbAll(acc: Merged, nodes: seq<Node>): Merged
    requires AllPlain(nodes)
    decreases nodes
  {
    if nodes == [] then acc else AbsorbAll(Absorb(acc, nodes[0]), nodes[1..])
  }

  predicate HasProperty(n: Node, name: string)
    requires n.Plain?
  {
    n.properties.Some? && name in n.properties.value
  }

  ghost function RequiredOfAll(nodes: seq<Node>): seq<string>
    requires AllPlain(nodes)
  {
    if nodes == [] then []
    else if nodes[0].required.Some? then nodes[0].required.value + RequiredOfAll(nodes[1..])
    else RequiredOfAll(nodes[1..])
  }

  predicate SetsType(n: Node)
    requires n.Plain?
  {
    n.typ.Some? && n.typ.value != "object"
  }

  lemma {:induction false} PartsAbsorbed(doc: Document, parts: seq<Node>, seen: set<string>, acc: Merged)
    requires AllResolve(doc, parts, seen)
    ensures ResolveParts(doc, parts, seen, acc) == AllMerged(AbsorbAll(acc, ResolvedParts(doc, parts, seen)))
    decreases parts
  {
    if parts != [] {
      assert AllResolve(doc, parts[1..], seen) by {
        assert forall j :: 0 <= j < |parts| - 1 ==> parts[1..][j] == parts[j + 1];
      }
      PartsAbsorbed(doc, parts[1..], seen, Absorb(acc, Resolve(doc, parts[0], seen).node));
      assert ResolvedParts(doc, parts, seen)[1..] == ResolvedParts(doc, parts[1..], seen);
    }
  }

  lemma {:induction false} KeptProperty(acc: Merged, nodes: seq<Node>, name: string)
    requires AllPlain(nodes) && forall j :: 0 <= j < |nodes| ==> !HasProperty(nodes[j], name)
    ensures var m := AbsorbAll(acc, nodes);
      (name in m.properties <==> name in acc.properties) && (name in acc.properties ==> m.properties[name] == acc.properties[name])
    decreases nodes
  {
    if nodes != [] {
      KeptProperty(Absorb(acc, nodes[0]), nodes[1..], name);
    }
  }

  lemma {:induction false} LastProperty(acc: Merged, nodes: seq<Node>, i: nat, name: string)
    requires AllPlain(nodes) && i < |nodes| && HasProperty(nodes[i], name)
    requires forall j :: i < j < |nodes| ==> !HasProperty(nodes[j], name)
    ensures var m := AbsorbAll(acc, nodes); name in m.properties && m.properties[name] == nodes[i].properties.value[name]
    decreases nodes
  {
    if i == 0 {
      KeptProperty(Absorb(acc, nodes[0]), nodes[1..], name);
    } else {
      LastProperty(Absorb(acc, nodes[0]), nodes[1..], i - 1, name);
    }
  }

  lemma {:induction false} KeptType(acc: Merged, nodes: seq<Node>)
    requires AllPlain(nodes) && forall j :: 0 <= j < |nodes| ==> !SetsType(nodes[j])
    ensures AbsorbAll(acc, nodes).typ == acc.typ
    decreases nodes
  {
    if nodes != [] {
      assert !SetsType(nodes[0]);
      KeptType(Absorb(acc, nodes[0]), nodes[1..]);
    }
  }

  lemma {:induction false} LastType(acc: Merged, nodes: seq<Node>, i: nat)
    requires AllPlain(nodes) && i < |nodes| && SetsType(nodes[i])
    requires forall j :: i < j < |nodes| ==> !SetsType(nodes[j])
    ensures AbsorbAll(acc, nodes).typ == nodes[i].typ.value
    decreases nodes
  {
    if i == 0 {
      KeptType(Absorb(acc, nodes[0]), nodes[1..]);
    } else {
      LastType(Absorb(acc, nodes[0]), nodes[1..], i - 1);
    }
  }

  lemma {:induction false} ExtendIsFirstUses(xs: seq<string>)
    ensures Extend([], xs) == FirstUses(xs)
  {
    if xs != [] {
      var init, last := xs[..|xs| - 1], xs[|xs| - 1];
      ExtendIsFirstUses(init);
      assert xs == init + [last];
      ExtendTwice([], init, [last]);
      assert [last][1..] == [];
    }
  }

  lemma {:induction false} RequiredConcatenated(acc: Merged, nodes: seq<Node>)
    requires AllPlain(nodes)
    ensures AbsorbAll(acc, nodes).required == Extend(acc.required, RequiredOfAll(nodes))
    decreases nodes
  {
    if nodes != [] {
      RequiredConcatenated(Absorb(acc, nodes[0]), nodes[1..]);
      ExtendTwice(acc.required, RequiredOf(nodes[0]), RequiredOfAll(nodes[1..]));
      assert RequiredOfAll(nodes) == RequiredOf(nodes[0]) + RequiredOfAll(nodes[1..]);
    }
  }

  /** The last node that has a property decides its value. */
  ghost predicate LastPropertyWins(nodes: seq<Node>, m: Merged)
    requires AllPlain(nodes)
  {
    forall i, name :: 0 <= i < |nodes| && HasProperty(nodes[i], name)
      && (forall j :: i < j < |nodes| ==> !HasProperty(nodes[j], name))
      ==> name in m.properties && m.properties[name] == nodes[i].properties.value[name]
  }

  ghost predicate SomeHas(nodes: seq<Node>, name: string)
    requires AllPlain(nodes)
  {
    exists i :: 0 <= i < |nodes| && HasProperty(nodes[i], name)
  }

  /** The last node with a type other than "object" decides the type. */
  ghost predicate LastTypeWins(nodes: seq<Node>, m: Merged)
    requires AllPlain(nodes)
  {
    && (forall i :: 0 <= i < |nodes| && SetsType(nodes[i]) && (forall j :: i < j < |nodes| ==> !SetsType(nodes[j]))
          ==> m.typ == nodes[i].typ.value)
    && ((forall j :: 0 <= j < |nodes| ==> !SetsType(nodes[j])) ==> m.typ == "object")
  }

  lemma NoOtherProperty(nodes: seq<Node>, name: string)
    requires AllPlain(nodes) && name in AbsorbAll(EMPTY, nodes).properties
    ensures SomeHas(nodes, name)
  {
    if !SomeHas(nodes, name) {
      KeptProperty(EMPTY, nodes, name);
    }
  }

  lemma AbsorbedProperties(nodes: seq<Node>)
    requires AllPlain(nodes)
    ensures LastPropertyWins(nodes, AbsorbAll(EMPTY, nodes))
  {
    var m := AbsorbAll(EMPTY, nodes);
    forall i, name | 0 <= i < |nodes| && HasProperty(nodes[i], name)
          && (forall j :: i < j < |nodes| ==> !HasProperty(nodes[j], name))
      ensures name in m.properties && m.properties[name] == nodes[i].properties.value[name]
    {
      LastProperty(EMPTY, nodes, i, name);
    }
  }

  lemma AbsorbedType(nodes: seq<Node>)
    requires AllPlain(nodes)
    ensures LastTypeWins(nodes, AbsorbAll(EMPTY, nodes))
  {
    forall i | 0 <= i < |nodes| && SetsType(nodes[i]) && (forall j :: i < j < |nodes| ==> !SetsType(nodes[j]))
      ensures AbsorbAll(EMPTY, nodes).typ == nodes[i].typ.value
    {
      LastType(EMPTY, nodes, i);
    }
    if forall j :: 0 <= j < |nodes| ==> !SetsType(nodes[j]) {
      KeptType(EMPTY, nodes);
    }
  }

  /** The merged node of an `allOf`: the last part that has a property decides
      its value and there are no other properties, the last part with a type other
      than "object" decides the type, and the required names come in order of first
      mention, without repeats. */
  lemma AllOfMerged(doc: Document, parts: seq<Node>, seen: set<string>)
    requires AllResolve(doc, parts, seen)
    ensures var nodes := ResolvedParts(doc, parts, seen); var m := AbsorbAll(EMPTY, nodes);
      && Resolve(doc, AllOf(parts), seen) == Resolved(m.ToNode())
      && LastPropertyWins(nodes, m) && (forall name :: name in m.properties ==> SomeHas(nodes, name))
      && LastTypeWins(nodes, m)
      && m.required == FirstUses(RequiredOfAll(nodes))
  {
    var nodes := ResolvedParts(doc, parts, seen);
    PartsAbsorbed(doc, parts, seen, EMPTY);
    RequiredConcatenated(EMPTY, nodes);
    ExtendIsFirstUses(RequiredOfAll(nodes));
    AbsorbedProperties(nodes);
    forall name | name in AbsorbAll(EMPTY, nodes).properties ensures SomeHas(nodes, name) {
      NoOtherProperty(nodes, name);
    }
    AbsorbedType(nodes);
  }

  // ------------------------------------------------- what is reached, and how

  /** A node where following references and `allOf` lists ends: a plain node, or
      a reference that leads nowhere. */
  predicate Terminal(doc: Document, node: Node) {
    node.Plain? || (node.Ref? && (!("#/" <= node.ref) || node.ref !in doc))
  }

  /** `t` ends some path of at most `k` steps from `node` that follows no
      reference in `avoid`. */
  ghost predicate Reach(doc: Document, node: Node, avoid: set<string>, k: nat, t: Node)
    decreases k
  {
    match node
    case Plain(_, _, _, _) => t == node
    case Ref(ref) =>
      ref !in avoid &&
      if Terminal(doc, node) then t == node else k > 0 && Reach(doc, doc[ref], avoid, k - 1, t)
    case AllOf(parts) => k > 0 && exists i :: 0 <= i < |parts| && Reach(doc, parts[i], avoid, k - 1, t)
  }

  ghost predicate Reachable(doc: Document, node: Node, avoid: set<string>, t: Node) {
    exists k :: Reach(doc, node, avoid, k, t)
  }

  lemma {:induction false} ReachLonger(doc: Document, node: Node, avoid: set<string>, j: nat, k: nat, t: Node)
    requires Reach(doc, node, avoid, j, t) && j <= k
    ensures Reach(doc, node, avoid, k, t)
    decreases j
  {
    match node
    case Plain(_, _, _, _) =>
    case Ref(ref) =>
      if !Terminal(doc, node) {
        ReachLonger(doc, doc[ref], avoid, j - 1, k - 1, t);
      }
    case AllOf(parts) =>
      var i :| 0 <= i < |parts| && Reach(doc, parts[i], avoid, j - 1, t);
      ReachLonger(doc, parts[i], avoid, j - 1, k - 1, t);
  }

  lemma {:induction false} ReachAvoidingLess(doc: Document, node: Node, less: set<string>, more: set<string>, k: nat, t: Node)
    requires less <= more && Reach(doc, node, more, k, t)
    ensures Reach(doc, node, less, k, t)
    decreases k
  {
    match node
    case Plain(_, _, _, _) =>
    case Ref(ref) =>
      if !Terminal(doc, node) {
        ReachAvoidingLess(doc, doc[ref], less, more, k - 1, t);
      }
    case AllOf(parts) =>
      var i :| 0 <= i < |parts| && Reach(doc, parts[i], more, k - 1, t);
      ReachAvoidingLess(doc, parts[i], less, more, k - 1, t);
  }

  /** A path that goes through `ref` can be cut at the last time it does. */
  lemma {:induction false} CutAt(doc: Document, node: Node, avoid: set<string>, ref: string, k: nat, t: Node)
    requires IsLocal(ref) && ref in doc && Reach(doc, node, avoid, k, t)
    ensures Reach(doc, node, avoid + {ref}, k, t) || Reach(doc, doc[ref], avoid + {ref}, k, t)
    decreases k
  {
    match node
    case Plain(_, _, _, _) =>
    case Ref(q) =>
      if !Terminal(doc, node) {
        CutAt(doc, doc[q], avoid, ref, k - 1, t);
        if Reach(doc, doc[ref], avoid + {ref}, k - 1, t) {
          ReachLonger(doc, doc[ref], avoid + {ref}, k - 1, k, t);
        }
      }
    case AllOf(parts) =>
      var i :| 0 <= i < |parts| && Reach(doc, parts[i], avoid, k - 1, t);
      CutAt(doc, parts[i], avoid, ref, k - 1, t);
      if Reach(doc, doc[ref], avoid + {ref}, k - 1, t) {
        ReachLonger(doc, doc[ref], avoid + {ref}, k - 1, k, t);
      }
  }

  lemma ReachThroughRef(doc: Document, ref: string, avoid: set<string>, t: Node)
    requires IsLocal(ref) && ref in doc && ref !in avoid
    ensures Reachable(doc, Ref(ref), avoid, t) <==> Reachable(doc, doc[ref], avoid + {ref}, t)
  {
    if k: nat :| Reach(doc, Ref(ref), avoid, k, t) {
      CutAt(doc, doc[ref], avoid, ref, k - 1, t);
    }
    if k: nat :| Reach(doc, doc[ref], avoid + {ref}, k, t) {
      ReachAvoidingLess(doc, doc[ref], avoid, avoid + {ref}, k, t);
      assert Reach(doc, Ref(ref), avoid, k + 1, t);
    }
  }

  lemma ReachThroughAllOf(doc: Document, parts: seq<Node>, avoid: set<string>, t: Node)
    ensures Reachable(doc, AllOf(parts), avoid, t) <==> exists i :: 0 <= i < |parts| && Reachable(doc, parts[i], avoid, t)
  {
    if k: nat :| Reach(doc, AllOf(parts), avoid, k, t) {
      var i :| 0 <= i < |parts| && Reach(doc, parts[i], avoid, k - 1, t);
      assert Reachable(doc, parts[i], avoid, t);
    }
    if i :| 0 <= i < |parts| && Reachable(doc, parts[i], avoid, t) {
      var k: nat :| Reach(doc, parts[i], avoid, k, t);
      assert Reach(doc, AllOf(parts), avoid, k + 1, t);
    }
  }

  // -------------------------------- the meaning of resolution on any document

  /** Something a plain node can declare: a property or a required name. */
  datatype Claim = Property(name: string) | RequiredName(name: string)

  predicate Declares(n: Node, c: Claim)
    requires n.Plain?
  {
    match c
    case Property(name) => HasProperty(n, name)
    case RequiredName(name) => n.required.Some? && name in n.required.value
  }

  ghost predicate DanglingReachable(doc: Document, node: Node, avoid: set<string>) {
    exists t: Node :: t.Ref? && Reachable(doc, node, avoid, t)
  }

  ghost predicate ClaimReachable(doc: Document, node: Node, avoid: set<string>, c: Claim) {
    exists t: Node :: t.Plain? && Reachable(doc, node, avoid, t) && Declares(t, c)
  }

  lemma AbsorbDeclares(acc: Merged, part: Node, c: Claim)
    requires part.Plain?
    ensures Declares(Absorb(acc, part).ToNode(), c) <==> Declares(acc.ToNode(), c) || Declares(part, c)
  {
    ExtendKeeps(acc.required, RequiredOf(part));
  }

  /** Resolution means the same on cyclic documents as on any other: it fails
      exactly when some reference that can be reached leads nowhere, and
      otherwise declares exactly what the plain nodes that can be reached
      declare, although its guard cuts every path that repeats a reference. */
  lemma {:induction false} ResolveMeaning(doc: Document, node: Node, seen: set<string>, c: Claim)
    ensures var res := Resolve(doc, node, seen);
      && (res.Resolved? <==> !DanglingReachable(doc, node, seen))
      && (res.Resolved? ==> (Declares(res.node, c) <==> ClaimReachable(doc, node, seen, c)))
    decreases |doc.Keys - seen|, node, 0
  {
    match node
    case Ref(ref) =>
      if ref in seen {
        forall t ensures !Reachable(doc, node, seen, t) {
        }
      } else if Terminal(doc, node) {
        assert Reach(doc, node, seen, 0, node);
        assert Reachable(doc, node, seen, node);
      } else {
        OneFewer(doc.Keys, seen, ref);
        ResolveMeaning(doc, doc[ref], seen + {ref}, c);
        forall t ensures Reachable(doc, node, seen, t) <==> Reachable(doc, doc[ref], seen + {ref}, t) {
          ReachThroughRef(doc, ref, seen, t);
        }
      }
    case AllOf(parts) =>
      PartsMeaning(doc, parts, seen, EMPTY, c);
      forall t
        ensures Reachable(doc, node, seen, t) <==> exists i :: 0 <= i < |parts| && Reachable(doc, parts[i], seen, t)
      {
        ReachThroughAllOf(doc, parts, seen, t);
      }
    case Plain(_, _, _, _) =>
      assert Reach(doc, node, seen, 0, node);
      forall t ensures Reachable(doc, node, seen, t) <==> t == node {
      }
  }

  lemma {:induction false} PartsMeaning(doc: Document, parts: seq<Node>, seen: set<string>, acc: Merged, c: Claim)
    ensures var res := ResolveParts(doc, parts, seen, acc);
      && (res.AllMerged? <==> forall i :: 0 <= i < |parts| ==> !DanglingReachable(doc, parts[i], seen))
      && (res.AllMerged? ==>
            (Declares(res.merged.ToNode(), c) <==>
             Declares(acc.ToNode(), c) || exists i :: 0 <= i < |parts| && ClaimReachable(doc, parts[i], seen, c)))
    decreases |doc.Keys - seen|, parts, 1
  {
    if parts != [] {
      ResolveMeaning(doc, parts[0], seen, c);
      var first := Resolve(doc, parts[0], seen);
      if first.Resolved? {
        AbsorbDeclares(acc, first.node, c);
        PartsMeaning(doc, parts[1..], seen, Absorb(acc, first.node), c);
        assert forall i :: 0 < i < |parts| ==> parts[i] == parts[1..][i - 1];
        assert forall i :: 0 <= i < |parts[1..]| ==> parts[1..][i] == parts[i + 1];
      }
    }
  }

  /** The reference an error names. */
  function Named(failure: Resolution): Node
    requires !failure.Resolved?
  {
    match failure
    case NotLocal(ref) => Ref(ref)
    case Missing(ref) => Ref(ref)
  }

  ghost predicate FaultOf(doc: Document, failure: Resolution)
    requires !failure.Resolved?
  {
    match failure
    case NotLocal(ref) => !("#/" <= ref)
    case Missing(ref) => "#/" <= ref && ref !in doc
  }

  /** An error names a reference that can be reached, and says rightly whether it
      is not local or leads nowhere. */
  lemma {:induction false} FailureNamesCause(doc: Document, node: Node, seen: set<string>)
    ensures var res := Resolve(doc, node, seen);
      !res.Resolved? ==> FaultOf(doc, res) && Reachable(doc, node, seen, Named(res))
    decreases |doc.Keys - seen|, node, 0
  {
    var res := Resolve(doc, node, seen);
    if !res.Resolved? {
      match node
      case Ref(ref) =>
        if Terminal(doc, node) {
          assert Reach(doc, node, seen, 0, node);
        } else {
          OneFewer(doc.Keys, seen, ref);
          FailureNamesCause(doc, doc[ref], seen + {ref});
          ReachThroughRef(doc, ref, seen, Named(res));
        }
      case AllOf(parts) =>
        PartFailureNamesCause(doc, parts, seen, EMPTY);
        ReachThroughAllOf(doc, parts, seen, Named(res));
    }
  }

  lemma {:induction false} PartFailureNamesCause(doc: Document, parts: seq<Node>, seen: set<string>, acc: Merged)
    ensures var res := ResolveParts(doc, parts, seen, acc);
      res.Failing? ==> FaultOf(doc, res.failure) && exists i :: 0 <= i < |parts| && Reachable(doc, parts[i], seen, Named(res.failure))
    decreases |doc.Keys - seen|, parts, 1
  {
    if parts != [] {
      FailureNamesCause(doc, parts[0], seen);
      var first := Resolve(doc, parts[0], seen);
      if first.Resolved? {
        PartFailureNamesCause(doc, parts[1..], seen, Absorb(acc, first.node));
        assert forall i :: 0 <= i < |parts[1..]| ==> parts[1..][i] == parts[i + 1];
      }
    }
  }

  // ------------------------------------------------ acyclic documents, unguarded

  /** `node` itself follows `ref`, or a part of it does. */
  predicate Mentions(node: Node, ref: string)
    decreases node
  {
    match node
    case Ref(q) => q == ref
    case AllOf(parts) => exists i :: 0 <= i < |parts| && Mentions(parts[i], ref)
    case Plain(_, _, _, _) => false
  }

  /** No reference cycle: references can be ranked so that each node only follows
      references of lower rank. */
  ghost predicate Ranked(doc: Document, rank: string -> nat) {
    forall r, q :: r in doc && q in doc && Mentions(doc[r], q) ==> rank(q) < rank(r)
  }

  ghost predicate Below(doc: Document, rank: string -> nat, node: Node, bound: nat) {
    forall q :: q in doc && Mentions(node, q) ==> rank(q) < bound
  }

  ghost predicate PartsBelow(doc: Document, rank: string -> nat, parts: seq<Node>, bound: nat) {
    forall i :: 0 <= i < |parts| ==> Below(doc, rank, parts[i], bound)
  }

  /** Resolution without any guard against cycles. */
  ghost function Unfold(doc: Document, rank: string -> nat, node: Node, bound: nat): (res: Resolution)
    requires Ranked(doc, rank) && Below(doc, rank, node, bound)
    ensures res.Resolved? ==> res.node.Plain?
    decreases bound, node, 0
  {
    match node
    case Ref(ref) =>
      if !("#/" <= ref) then NotLocal(ref)
      else if ref !in doc then Missing(ref)
      else Unfold(doc, rank, doc[ref], rank(ref))
    case AllOf(parts) =>
      (match UnfoldParts(doc, rank, parts, bound, EMPTY)
       case AllMerged(merged) => Resolved(merged.ToNode())
       case Failing(failure) => failure)
    case Plain(_, _, _, _) => Resolved(node)
  }

  ghost function UnfoldParts(doc: Document, rank: string -> nat, parts: seq<Node>, bound: nat, acc: Merged): (res: Parts)
    requires Ranked(doc, rank) && PartsBelow(doc, rank, parts, bound)
    ensures res.Failing? ==> !res.failure.Resolved?
    decreases bound, parts, 1
  {
    if parts == [] then AllMerged(acc)
    else
      match Unfold(doc, rank, parts[0], bound)
      case Resolved(part) => UnfoldParts(doc, rank, parts[1..], bound, Absorb(acc, part))
      case NotLocal(ref) => Failing(NotLocal(ref))
      case Missing(ref) => Failing(Missing(ref))
  }

  /** On a document without reference cycles the guard is never used: the result
      is the plain unfolding. */
  lemma {:induction false} GuardUnused(doc: Document, rank: string -> nat, node: Node, bound: nat, seen: set<string>)
    requires Ranked(doc, rank) && Below(doc, rank, node, bound)
    requires forall s :: s in seen ==> s in doc && rank(s) >= bound
    ensures Resolve(doc, node, seen) == Unfold(doc, rank, node, bound)
    decreases bound, node, 0
  {
    match node
    case Ref(ref) =>
      if IsLocal(ref) && ref in doc {
        assert Mentions(node, ref);
        GuardUnused(doc, rank, doc[ref], rank(ref), seen + {ref});
      }
    case AllOf(parts) => GuardUnusedParts(doc, rank, parts, bound, seen, EMPTY);
    case Plain(_, _, _, _) =>
  }

  lemma {:induction false} GuardUnusedParts(
      doc: Document, rank: string -> nat, parts: seq<Node>, bound: nat, seen: set<string>, acc: Merged)
    requires Ranked(doc, rank) && PartsBelow(doc, rank, parts, bound)
    requires forall s :: s in seen ==> s in doc && rank(s) >= bound
    ensures ResolveParts(doc, parts, seen, acc) == UnfoldParts(doc, rank, parts, bound, acc)
    decreases bound, parts, 1
  {
    if parts != [] {
      GuardUnused(doc, rank, parts[0], bound, seen);
      var first := Resolve(doc, parts[0], seen);
      if first.Resolved? {
        GuardUnusedParts(doc, rank, parts[1..], bound, seen, Absorb(acc, first.node));
      }
    }
  }
}
